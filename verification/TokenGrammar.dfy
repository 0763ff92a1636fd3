/** The tokens that RFC 7159 describes, and the proof that the automaton recognises exactly them. */
module TokenGrammar {
  import opened ByteStrings
  import opened Decimal
  import opened Scanner

  datatype Option<+T> = None | Some(value: T)

  // ---- strings: section 7 of RFC 7159, over the UTF-8 of section 4 of RFC 3629 ----

  predicate IsTail(c: byte) {
    0x80 <= c <= 0xBF
  }

  /** The length of the character or escape sequence at `i`; 0 if there is none. */
  function CharLength(text: Bytes, i: nat): (n: nat)
    ensures i + n <= |text| || n == 0
  {
    var c0, c1, c2, c3 := At(text, i), At(text, i + 1), At(text, i + 2), At(text, i + 3);
    if IsPlain(c0) then 1
    else if c0 == 0x5C then
      if IsEscape(c1) then 2
      else if c1 == 0x75 && IsHex(c2) && IsHex(c3) && IsHex(At(text, i + 4)) && IsHex(At(text, i + 5)) then 6
      else 0
    else if 0xC2 <= c0 <= 0xDF && IsTail(c1) then 2
    else if c0 == 0xE0 && 0xA0 <= c1 <= 0xBF && IsTail(c2) then 3
    else if (0xE1 <= c0 <= 0xEC || 0xEE <= c0 <= 0xEF) && IsTail(c1) && IsTail(c2) then 3
    else if c0 == 0xED && 0x80 <= c1 <= 0x9F && IsTail(c2) then 3
    else if c0 == 0xF0 && 0x90 <= c1 <= 0xBF && IsTail(c2) && IsTail(c3) then 4
    else if 0xF1 <= c0 <= 0xF3 && IsTail(c1) && IsTail(c2) && IsTail(c3) then 4
    else if c0 == 0xF4 && 0x80 <= c1 <= 0x8F && IsTail(c2) && IsTail(c3) then 4
    else 0
  }

  /** The end of a string whose characters begin at `i`, behind the closing quote. */
  function StringEnd(text: Bytes, i: nat): (e: Option<nat>)
    ensures e.Some? ==> i < e.value <= |text| && text[e.value - 1] == 0x22
    decreases Left(text, i)
  {
    if At(text, i) == 0x22 then Some(i + 1)
    else
      var n := CharLength(text, i);
      if n == 0 then None else StringEnd(text, i + n)
  }

  /** Over one character the automaton returns to the state it was in; without one it falls back. */
  lemma BodyStep(text: Bytes, start: nat, i: nat, marker: nat, onFallback: TokenType)
    requires At(text, i) != 0x22
    ensures var n := CharLength(text, i);
            Run(text, start, i, Body, marker, onFallback) ==
            if n == 0 then Token(onFallback, start, marker)
            else Run(text, start, i + n, Body, marker, onFallback)
  {
    hide Run, At, IsHex, IsEscape;
    OneStep(text, start, i, Body, marker, onFallback);
    if At(text, i) == 0x5C {
      EscapeStep(text, start, i + 1, marker, onFallback);
    } else if 0xC2 <= At(text, i) <= 0xF4 {
      Utf8Step(text, start, i, marker, onFallback);
    }
  }

  lemma HexMove(text: Bytes, start: nat, i: nat, state: State, next: State, marker: nat, onFallback: TokenType)
    requires (state, next) in {(Hex1, Hex2), (Hex2, Hex3), (Hex3, Hex4), (Hex4, Body)}
    ensures Run(text, start, i, state, marker, onFallback) ==
            if IsHex(At(text, i)) then Run(text, start, i + 1, next, marker, onFallback)
            else Token(onFallback, start, marker)
  {
    hide Run, At, IsHex;
    OneStep(text, start, i, state, marker, onFallback);
  }

  lemma FromTail1(text: Bytes, start: nat, i: nat, marker: nat, onFallback: TokenType)
    ensures Run(text, start, i, Tail1, marker, onFallback) ==
            if IsTail(At(text, i)) then Run(text, start, i + 1, Body, marker, onFallback)
            else Token(onFallback, start, marker)
  {
    hide Run, At, Step;
    TailMoves(At(text, i));
    OneStep(text, start, i, Tail1, marker, onFallback);
  }

  lemma FromTail2(text: Bytes, start: nat, i: nat, marker: nat, onFallback: TokenType)
    ensures Run(text, start, i, Tail2, marker, onFallback) ==
            if IsTail(At(text, i)) && IsTail(At(text, i + 1)) then Run(text, start, i + 2, Body, marker, onFallback)
            else Token(onFallback, start, marker)
  {
    hide Run, At, Step;
    TailMoves(At(text, i));
    OneStep(text, start, i, Tail2, marker, onFallback);
    FromTail1(text, start, i + 1, marker, onFallback);
  }

  /** The automaton at the first byte of a multi-byte character. */
  lemma Utf8Step(text: Bytes, start: nat, i: nat, marker: nat, onFallback: TokenType)
    requires 0xC2 <= At(text, i) <= 0xF4
    ensures var n := CharLength(text, i);
            Run(text, start, i, Body, marker, onFallback) ==
            if n == 0 then Token(onFallback, start, marker)
            else Run(text, start, i + n, Body, marker, onFallback)
  {
    hide Run, At, Step, IsHex, IsEscape;
    LeadMove(At(text, i));
    TailMoves(At(text, i + 1));
    OneStep(text, start, i, Body, marker, onFallback);
    OneStep(text, start, i + 1, Step(Body, At(text, i)).state, marker, onFallback);
    FromTail1(text, start, i + 1, marker, onFallback);
    FromTail1(text, start, i + 2, marker, onFallback);
    FromTail2(text, start, i + 2, marker, onFallback);
  }

  lemma LeadMove(c: byte)
    requires 0xC2 <= c <= 0xF4
    ensures Step(Body, c) ==
            Enter(if c <= 0xDF then Tail1
                  else if c == 0xE0 then AfterE0
                  else if c == 0xED then AfterED
                  else if c <= 0xEF then Tail2
                  else if c == 0xF0 then AfterF0
                  else if c <= 0xF3 then Tail3
                  else AfterF4)
  {
  }

  lemma TailMoves(c: byte)
    ensures Step(Tail1, c) == if IsTail(c) then Enter(Body) else Fallback
    ensures Step(Tail2, c) == if IsTail(c) then Enter(Tail1) else Fallback
    ensures Step(Tail3, c) == if IsTail(c) then Enter(Tail2) else Fallback
    ensures Step(AfterE0, c) == if 0xA0 <= c <= 0xBF then Enter(Tail1) else Fallback
    ensures Step(AfterED, c) == if 0x80 <= c <= 0x9F then Enter(Tail1) else Fallback
    ensures Step(AfterF0, c) == if 0x90 <= c <= 0xBF then Enter(Tail2) else Fallback
    ensures Step(AfterF4, c) == if 0x80 <= c <= 0x8F then Enter(Tail2) else Fallback
  {
  }

  lemma EscapeStep(text: Bytes, start: nat, i: nat, marker: nat, onFallback: TokenType)
    ensures Run(text, start, i, Backslash, marker, onFallback) ==
            if IsEscape(At(text, i))
            then Run(text, start, i + 1, Body, marker, onFallback)
            else if At(text, i) == 0x75 && IsHex(At(text, i + 1)) && IsHex(At(text, i + 2))
                    && IsHex(At(text, i + 3)) && IsHex(At(text, i + 4))
            then Run(text, start, i + 5, Body, marker, onFallback)
            else Token(onFallback, start, marker)
  {
    hide Run, At, IsHex;
    OneStep(text, start, i, Backslash, marker, onFallback);
    if At(text, i) == 0x75 {
      HexMove(text, start, i + 1, Hex1, Hex2, marker, onFallback);
      HexMove(text, start, i + 2, Hex2, Hex3, marker, onFallback);
      HexMove(text, start, i + 3, Hex3, Hex4, marker, onFallback);
      HexMove(text, start, i + 4, Hex4, Body, marker, onFallback);
    }
  }

  lemma {:induction false} BodyExact(text: Bytes, start: nat, i: nat, marker: nat, onFallback: TokenType)
    ensures Run(text, start, i, Body, marker, onFallback) ==
            var e := StringEnd(text, i);
            if e.Some? then Token(ValueString, start, e.value) else Token(onFallback, start, marker)
    decreases Left(text, i)
  {
    hide CharLength;
    if At(text, i) != 0x22 {
      BodyStep(text, start, i, marker, onFallback);
      var n := CharLength(text, i);
      if n > 0 {
        BodyExact(text, start, i + n, marker, onFallback);
      }
    }
  }

  /** The string tokens of the scanner are exactly the strings of RFC 7159 over well-formed UTF-8;
      at a quote that begins none, the quote alone is an error. */
  lemma StringTokens(text: Bytes, pos: nat)
    requires At(text, pos) == 0x22
    ensures Scan(text, pos) ==
            var e := StringEnd(text, pos + 1);
            if e.Some? then Token(ValueString, pos, e.value) else Token(ScanError, pos, pos + 1)
  {
    hide StringEnd;
    assert Scan(text, pos) == Run(text, pos, pos + 1, Open, pos + 1, ScanError);
    assert Run(text, pos, pos + 1, Open, pos + 1, ScanError) == Run(text, pos, pos + 1, Body, pos + 1, ScanError);
    BodyExact(text, pos, pos + 1, pos + 1, ScanError);
  }

  // ---- numbers: section 6 of RFC 7159 ----

  /** The first position from `i` on that holds no digit. */
  function DigitsEnd(text: Bytes, i: nat): (e: nat)
    ensures i <= e && !IsDigit(At(text, e))
    ensures forall k | i <= k < e :: IsDigit(At(text, k))
    decreases Left(text, i)
  {
    if IsDigit(At(text, i)) then DigitsEnd(text, i + 1) else i
  }

  /** The end of a fraction or an exponent at `i`; `i` if there is none. */
  function FractionEnd(text: Bytes, i: nat): nat {
    if At(text, i) == 0x2E && IsDigit(At(text, i + 1)) then DigitsEnd(text, i + 1) else i
  }

  predicate IsExponentMark(c: byte) {
    c == 0x45 || c == 0x65
  }

  function ExponentEnd(text: Bytes, i: nat): nat {
    if !IsExponentMark(At(text, i)) then i
    else if IsDigit(At(text, i + 1)) then DigitsEnd(text, i + 1)
    else if (At(text, i + 1) == 0x2B || At(text, i + 1) == 0x2D) && IsDigit(At(text, i + 2)) then DigitsEnd(text, i + 2)
    else i
  }

  /** The token at a minus sign or a digit: an integer part, a fraction if one follows, an exponent if
      one follows. Digits after a leading zero spoil the number. */
  function NumberToken(text: Bytes, pos: nat): Token {
    var negative := At(text, pos) == 0x2D;
    var i := if negative then pos + 1 else pos;
    if !IsDigit(At(text, i)) then Token(ScanError, pos, i)
    else
      var e := DigitsEnd(text, i);
      if At(text, i) == 0x30 && e > i + 1 then Token(ScanError, pos, e)
      else
        var f := FractionEnd(text, e);
        var x := ExponentEnd(text, f);
        Token(if x > e then ValueFloat else if negative then ValueInteger else ValueUnsigned, pos, x)
  }

  /** The states that loop over digits. */
  predicate Looping(state: State) {
    state.Digits? || state.MinusDigits? || state.BadZero? || state.Fraction? || state.ExpDigits?
  }

  lemma {:induction false} LoopOverDigits(text: Bytes, start: nat, i: nat, state: State, marker: nat,
                                          onFallback: TokenType)
    requires Looping(state)
    requires SetsMarker(state) ==> marker == i && onFallback == OnFallback(state)
    ensures var e := DigitsEnd(text, i);
            Run(text, start, i, state, marker, onFallback) ==
            Run(text, start, e, state, if SetsMarker(state) then e else marker, onFallback)
    decreases Left(text, i)
  {
    hide Run;
    if IsDigit(At(text, i)) {
      var next := if SetsMarker(state) then i + 1 else marker;
      DigitMove(text, start, i, state, marker, onFallback);
      LoopOverDigits(text, start, i + 1, state, next, onFallback);
    }
  }

  lemma DigitMove(text: Bytes, start: nat, i: nat, state: State, marker: nat, onFallback: TokenType)
    requires Looping(state) && IsDigit(At(text, i))
    requires SetsMarker(state) ==> onFallback == OnFallback(state)
    ensures Run(text, start, i, state, marker, onFallback) ==
            Run(text, start, i + 1, state, if SetsMarker(state) then i + 1 else marker, onFallback)
  {
  }

  /** After the digits of an integer part or of a fraction. */
  lemma NumberMoves(state: State, c: byte)
    requires (state.Zero? || state.Digits? || state.MinusZero? || state.MinusDigits? || state.Fraction?) && !IsDigit(c)
    ensures Step(state, c) ==
            if c == 0x2E && state != Fraction then Enter(Point)
            else if IsExponentMark(c) then Enter(Exponent)
            else Accept(OnFallback(state))
    ensures !SetsMarker(Point) && !SetsMarker(Exponent)
  {
  }

  lemma ExponentMoves(c: byte)
    ensures Step(Exponent, c) ==
            if c == 0x2B || c == 0x2D then Enter(Sign) else if IsDigit(c) then Enter(ExpDigits) else Fallback
    ensures Step(Sign, c) == if IsDigit(c) then Enter(ExpDigits) else Fallback
    ensures Step(Point, c) == if IsDigit(c) then Enter(Fraction) else Fallback
  {
  }

  /** The exponent, after an integer part or a fraction that has been marked. */
  lemma ExponentRun(text: Bytes, start: nat, i: nat, state: State)
    requires state.Zero? || state.Digits? || state.MinusZero? || state.MinusDigits? || state.Fraction?
    requires !IsDigit(At(text, i)) && (state == Fraction || At(text, i) != 0x2E)
    ensures Run(text, start, i, state, i, OnFallback(state)) ==
            var x := ExponentEnd(text, i);
            Token(if x > i then ValueFloat else OnFallback(state), start, x)
  {
    hide Run, At, DigitsEnd, Step;
    var fb := OnFallback(state);
    NumberMoves(state, At(text, i));
    ExponentMoves(At(text, i + 1));
    OneStep(text, start, i, state, i, fb);
    if IsExponentMark(At(text, i)) {
      OneStep(text, start, i + 1, Exponent, i, fb);
      if IsDigit(At(text, i + 1)) {
        ExponentDigits(text, start, i + 2, i, fb);
      } else if At(text, i + 1) == 0x2B || At(text, i + 1) == 0x2D {
        SignRun(text, start, i + 2, i, fb);
      }
    }
  }

  lemma SignRun(text: Bytes, start: nat, i: nat, marker: nat, fb: TokenType)
    ensures Run(text, start, i, Sign, marker, fb) ==
            if IsDigit(At(text, i)) then Token(ValueFloat, start, DigitsEnd(text, i)) else Token(fb, start, marker)
    ensures DigitsEnd(text, i) >= i
  {
    hide Run, At, DigitsEnd, Step;
    ExponentMoves(At(text, i));
    OneStep(text, start, i, Sign, marker, fb);
    if IsDigit(At(text, i)) {
      ExponentDigits(text, start, i + 1, marker, fb);
    }
  }

  lemma ExponentDigits(text: Bytes, start: nat, i: nat, marker: nat, fb: TokenType)
    requires i > 0 && IsDigit(At(text, i - 1))
    ensures Run(text, start, i, ExpDigits, marker, fb) == Token(ValueFloat, start, DigitsEnd(text, i - 1))
    ensures DigitsEnd(text, i - 1) >= i
  {
    hide Run;
    LoopOverDigits(text, start, i, ExpDigits, marker, fb);
    OneStep(text, start, DigitsEnd(text, i), ExpDigits, marker, fb);
  }

  /** The fraction and the exponent, after an integer part that has been marked. */
  lemma FractionRun(text: Bytes, start: nat, i: nat, state: State)
    requires (state.Zero? || state.Digits? || state.MinusZero? || state.MinusDigits?) && !IsDigit(At(text, i))
    ensures Run(text, start, i, state, i, OnFallback(state)) ==
            var x := ExponentEnd(text, FractionEnd(text, i));
            Token(if x > i then ValueFloat else OnFallback(state), start, x)
  {
    hide ExponentEnd, Run, At, DigitsEnd, Step;
    var fb := OnFallback(state);
    NumberMoves(state, At(text, i));
    ExponentMoves(At(text, i + 1));
    ExponentEndAfter(text, i);
    if At(text, i) == 0x2E {
      OneStep(text, start, i, state, i, fb);
      OneStep(text, start, i + 1, Point, i, fb);
      if IsDigit(At(text, i + 1)) {
        EnterFraction(text, start, i + 1, i, fb);
        DigitsEndNext(text, i + 1);
        LoopOverDigits(text, start, i + 2, Fraction, i + 2, ValueFloat);
        var f := DigitsEnd(text, i + 2);
        ExponentEndAfter(text, f);
        ExponentRun(text, start, f, Fraction);
      }
    } else {
      ExponentRun(text, start, i, state);
    }
  }

  lemma EnterFraction(text: Bytes, start: nat, i: nat, marker: nat, fb: TokenType)
    requires IsDigit(At(text, i))
    ensures Run(text, start, i, Point, marker, fb) == Run(text, start, i + 1, Fraction, i + 1, ValueFloat)
  {
  }

  lemma DigitsEndNext(text: Bytes, i: nat)
    requires IsDigit(At(text, i))
    ensures DigitsEnd(text, i) == DigitsEnd(text, i + 1)
  {
  }

  lemma ExponentEndAfter(text: Bytes, i: nat)
    ensures i <= ExponentEnd(text, i)
    ensures At(text, i) == 0x2E ==> ExponentEnd(text, i) == i
  {
  }

  /** The number tokens of the scanner are exactly those of the grammar. */
  lemma NumberTokens(text: Bytes, pos: nat)
    requires At(text, pos) == 0x2D || IsDigit(At(text, pos))
    ensures Scan(text, pos) == NumberToken(text, pos)
  {
    hide FractionEnd, ExponentEnd;
    if At(text, pos) == 0x2D {
      assert Scan(text, pos) == Run(text, pos, pos + 1, Minus, pos, ScanError);
      if At(text, pos + 1) == 0x30 {
        assert Scan(text, pos) == Run(text, pos, pos + 2, MinusZero, pos + 2, ValueInteger);
        AfterZero(text, pos, pos + 1, MinusZero);
      } else if IsDigit(At(text, pos + 1)) {
        assert Scan(text, pos) == Run(text, pos, pos + 2, MinusDigits, pos + 2, ValueInteger);
        LoopOverDigits(text, pos, pos + 2, MinusDigits, pos + 2, ValueInteger);
        FractionRun(text, pos, DigitsEnd(text, pos + 2), MinusDigits);
      }
    } else if At(text, pos) == 0x30 {
      assert Scan(text, pos) == Run(text, pos, pos + 1, Zero, pos + 1, ValueUnsigned);
      AfterZero(text, pos, pos, Zero);
    } else {
      assert Scan(text, pos) == Run(text, pos, pos + 1, Digits, pos + 1, ValueUnsigned);
      LoopOverDigits(text, pos, pos + 1, Digits, pos + 1, ValueUnsigned);
      FractionRun(text, pos, DigitsEnd(text, pos + 1), Digits);
    }
  }

  lemma AfterZero(text: Bytes, start: nat, i: nat, state: State)
    requires At(text, i) == 0x30 && state in {Zero, MinusZero}
    ensures Run(text, start, i + 1, state, i + 1, OnFallback(state)) ==
            var e := DigitsEnd(text, i);
            var x := ExponentEnd(text, FractionEnd(text, e));
            if e > i + 1 then Token(ScanError, start, e)
            else Token(if x > e then ValueFloat else OnFallback(state), start, x)
  {
    hide FractionEnd, ExponentEnd;
    if IsDigit(At(text, i + 1)) {
      assert Run(text, start, i + 1, state, i + 1, OnFallback(state)) ==
             Run(text, start, i + 2, BadZero, i + 1, OnFallback(state));
      LoopOverDigits(text, start, i + 2, BadZero, i + 1, OnFallback(state));
    } else {
      FractionRun(text, start, i + 1, state);
    }
  }
}
