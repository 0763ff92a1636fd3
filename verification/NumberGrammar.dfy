/** The numbers of section 6 of RFC 7159 as a grammar, and what the scanner makes of them. */
module NumberGrammar {
  import opened ByteStrings
  import opened Decimal
  import opened Scanner
  import opened TokenGrammar

  /** `[ minus ]` */
  predicate IsSign(s: Bytes) {
    s == [] || s == [MINUS]
  }

  /** `int = zero / ( digit1-9 *DIGIT )` */
  predicate IsInt(s: Bytes) {
    s != [] && AllDigits(s) && (|s| > 1 ==> s[0] != DIGIT_ZERO)
  }

  /** `[ frac ]` */
  predicate IsFraction(s: Bytes) {
    s == [] || (|s| >= 2 && s[0] == 0x2E && AllDigits(s[1..]))
  }

  /** `[ exp ]` */
  predicate IsExponent(s: Bytes) {
    || s == []
    || (|s| >= 2 && IsExponentMark(s[0]) && AllDigits(s[1..]))
    || (|s| >= 3 && IsExponentMark(s[0]) && (s[1] == PLUS || s[1] == MINUS) && AllDigits(s[2..]))
  }

  /** The bytes from `pos` to `e` with a sign up to `a`, an integer up to `b` and a fraction up to `c`. */
  predicate IsNumberSplit(text: Bytes, pos: nat, a: nat, b: nat, c: nat, e: nat) {
    && pos <= a <= b <= c <= e <= |text|
    && IsSign(text[pos..a]) && IsInt(text[a..b]) && IsFraction(text[b..c]) && IsExponent(text[c..e])
  }

  /** `number = [ minus ] int [ frac ] [ exp ]`, for the bytes from `pos` to `e`. */
  ghost predicate IsNumber(text: Bytes, pos: nat, e: nat) {
    exists a: nat, b: nat, c: nat :: IsNumberSplit(text, pos, a, b, c, e)
  }

  /** A zero with more digits behind it. */
  predicate LeadingZero(text: Bytes, pos: nat) {
    var i := if At(text, pos) == MINUS then pos + 1 else pos;
    At(text, i) == DIGIT_ZERO && IsDigit(At(text, i + 1))
  }

  lemma DigitsAre(text: Bytes, i: nat)
    requires i <= |text|
    ensures var e := DigitsEnd(text, i); i <= e <= |text| && AllDigits(text[i..e])
  {
    var e := DigitsEnd(text, i);
    if i < e {
      assert IsDigit(At(text, e - 1));
    }
    forall k | 0 <= k < e - i ensures e <= |text| && IsDigit(text[i..e][k]) {
      assert IsDigit(At(text, i + k));
    }
  }

  /** Digits from `i` to `e` are some of those that `DigitsEnd` passes over. */
  lemma DigitsReach(text: Bytes, i: nat, e: nat)
    requires i <= e <= |text| && AllDigits(text[i..e])
    ensures e <= DigitsEnd(text, i)
    ensures i < e ==> IsDigit(At(text, i))
  {
    var d := DigitsEnd(text, i);
    var window := text[i..e];
    assert forall k | i <= k < e :: window[k - i] == At(text, k);
  }

  lemma FractionIs(text: Bytes, i: nat)
    requires i <= |text|
    ensures var f := FractionEnd(text, i); i <= f <= |text| && IsFraction(text[i..f])
  {
    if FractionEnd(text, i) > i {
      DigitsAre(text, i + 1);
      var f := DigitsEnd(text, i + 1);
      assert text[i..f][1..] == text[i + 1..f];
    }
  }

  lemma ExponentIs(text: Bytes, i: nat)
    requires i <= |text|
    ensures var x := ExponentEnd(text, i); i <= x <= |text| && IsExponent(text[i..x])
  {
    var x := ExponentEnd(text, i);
    if x > i {
      if IsDigit(At(text, i + 1)) {
        DigitsAre(text, i + 1);
        assert text[i..x][1..] == text[i + 1..x];
      } else {
        DigitsAre(text, i + 2);
        assert text[i..x][2..] == text[i + 2..x];
      }
    }
  }

  /** What the scanner takes for a number is one. */
  lemma NumberTokenIsNumber(text: Bytes, pos: nat)
    requires At(text, pos) == MINUS || IsDigit(At(text, pos))
    requires NumberToken(text, pos).kind != ScanError
    ensures var t := NumberToken(text, pos); pos < t.end <= |text| && IsNumber(text, pos, t.end)
  {
    hide DigitsEnd, FractionEnd, ExponentEnd, IsFraction, IsExponent, IsInt;
    var i := if At(text, pos) == MINUS then pos + 1 else pos;
    DigitsAre(text, i);
    var e := DigitsEnd(text, i);
    FractionIs(text, e);
    var f := FractionEnd(text, e);
    ExponentIs(text, f);
    IntIs(text, i);
    assert text[pos..i] == if At(text, pos) == MINUS then [MINUS] else [];
    assert IsNumberSplit(text, pos, i, e, f, ExponentEnd(text, f));
  }

  lemma IntIs(text: Bytes, i: nat)
    requires i <= |text| && IsDigit(At(text, i)) && !(At(text, i) == DIGIT_ZERO && IsDigit(At(text, i + 1)))
    ensures var e := DigitsEnd(text, i); i < e <= |text| && IsInt(text[i..e])
    ensures At(text, i) == DIGIT_ZERO ==> DigitsEnd(text, i) == i + 1
  {
    DigitsAre(text, i);
    var e := DigitsEnd(text, i);
    assert text[i..e][0] == text[i];
  }

  /** A fraction that begins behind all digits reaches no further than `FractionEnd`. */
  lemma FractionReach(text: Bytes, i: nat, f: nat)
    requires i <= f <= |text| && IsFraction(text[i..f])
    ensures f <= FractionEnd(text, i) && i <= FractionEnd(text, i)
    ensures i < f ==> At(text, i) == 0x2E && IsDigit(At(text, i + 1)) && FractionEnd(text, i) == DigitsEnd(text, i + 1)
  {
    if i < f {
      assert text[i..f][0] == text[i] && text[i..f][1..] == text[i + 1..f];
      DigitsReach(text, i + 1, f);
    }
  }

  lemma ExponentReach(text: Bytes, i: nat, x: nat)
    requires i <= x <= |text| && IsExponent(text[i..x])
    ensures x <= ExponentEnd(text, i) && i <= ExponentEnd(text, i)
    ensures i < x ==> IsExponentMark(At(text, i))
  {
    if i < x {
      var s := text[i..x];
      assert s[0] == text[i] && s[1] == text[i + 1];
      if AllDigits(s[1..]) {
        assert s[1..] == text[i + 1..x];
        DigitsReach(text, i + 1, x);
      } else {
        assert s[2..] == text[i + 2..x];
        DigitsReach(text, i + 2, x);
      }
    }
  }

  /** The scanner takes as much as can be a number: whatever longer piece of the text one looks at, it is
      not one. */
  lemma LongestNumber(text: Bytes, pos: nat, e: nat)
    requires IsNumber(text, pos, e) && !LeadingZero(text, pos)
    ensures At(text, pos) == MINUS || IsDigit(At(text, pos))
    ensures var t := NumberToken(text, pos); t.kind != ScanError && e <= t.end
  {
    hide DigitsEnd, FractionEnd, ExponentEnd, IsFraction, IsExponent, IsInt, IsSign;
    var a: nat, b: nat, c: nat :| IsNumberSplit(text, pos, a, b, c, e);
    SignAt(text, pos, a, b);
    IntReach(text, a, b);
    FractionReach(text, b, c);
    ExponentReach(text, c, e);
    FractionBehind(text, DigitsEnd(text, a));
  }

  lemma FractionBehind(text: Bytes, d: nat)
    ensures d <= FractionEnd(text, d) <= ExponentEnd(text, FractionEnd(text, d))
    ensures d < FractionEnd(text, d) ==> At(text, d) == 0x2E
    ensures forall k | d < k < FractionEnd(text, d) :: IsDigit(At(text, k))
  {
  }

  lemma SignAt(text: Bytes, pos: nat, a: nat, b: nat)
    requires pos <= a <= b <= |text| && IsSign(text[pos..a]) && IsInt(text[a..b])
    ensures a == if At(text, pos) == MINUS then pos + 1 else pos
  {
    assert text[a..b][0] == text[a];
    if a > pos {
      assert text[pos..a][0] == text[pos];
    }
  }

  lemma IntReach(text: Bytes, i: nat, b: nat)
    requires i <= b <= |text| && IsInt(text[i..b])
    ensures i < b <= DigitsEnd(text, i) && IsDigit(At(text, i))
    ensures At(text, i) == DIGIT_ZERO && !IsDigit(At(text, i + 1)) ==> DigitsEnd(text, i) == i + 1
    ensures b < DigitsEnd(text, i) ==> IsDigit(At(text, b))
    ensures !IsDigit(At(text, DigitsEnd(text, i)))
  {
    DigitsReach(text, i, b);
  }

  /** Number tokens are the longest numbers of the grammar; a leading zero is the one exception, which is
      an error, although the zero alone would be a number. */
  lemma NumberTokensAreLongest(text: Bytes, pos: nat)
    requires At(text, pos) == MINUS || IsDigit(At(text, pos))
    ensures var t := Scan(text, pos);
            && (t.kind != ScanError ==>
                  pos < t.end <= |text| && IsNumber(text, pos, t.end)
                  && forall e | t.end < e :: !IsNumber(text, pos, e))
            && (t.kind == ScanError <==> LeadingZero(text, pos) || forall e: nat :: !IsNumber(text, pos, e))
  {
    hide DigitsEnd, FractionEnd, ExponentEnd, IsNumber, Run;
    NumberTokens(text, pos);
    var t := NumberToken(text, pos);
    if t.kind != ScanError {
      NumberTokenIsNumber(text, pos);
      NoLeadingZero(text, pos);
    }
    forall e: nat | IsNumber(text, pos, e) && !LeadingZero(text, pos)
      ensures t.kind != ScanError && e <= t.end
    {
      LongestNumber(text, pos, e);
    }
    if LeadingZero(text, pos) {
      LeadingZeroFails(text, pos);
    }
  }

  lemma NoLeadingZero(text: Bytes, pos: nat)
    requires (At(text, pos) == MINUS || IsDigit(At(text, pos))) && NumberToken(text, pos).kind != ScanError
    ensures !LeadingZero(text, pos)
  {
    if LeadingZero(text, pos) {
      LeadingZeroFails(text, pos);
    }
  }

  lemma LeadingZeroFails(text: Bytes, pos: nat)
    requires LeadingZero(text, pos)
    ensures NumberToken(text, pos).kind == ScanError
  {
    hide FractionEnd, ExponentEnd;
    var i := if At(text, pos) == MINUS then pos + 1 else pos;
    assert DigitsEnd(text, i) == DigitsEnd(text, i + 1) > i + 1;
  }
}
