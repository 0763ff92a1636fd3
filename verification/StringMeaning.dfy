/** What a JSON string means: section 7 of RFC 7159 gives the characters that the escapes stand for,
    section 3 of RFC 3629 the code points that byte sequences stand for. */
module StringMeaning {
  import opened ByteStrings
  import opened Decimal
  import opened Json
  import opened Scanner
  import opened StringTokens
  import opened Strings
  import opened TokenGrammar

  // ---- code points ----

  /** The code point of one well-formed character, by the table in section 3 of RFC 3629: the free bits of
      its bytes in order. */
  function ScalarValue(c: Bytes): int {
    var b: seq<int> := c;
    if |b| == 1 then b[0]
    else if |b| == 2 then (b[0] - 0xC0) * 0x40 + (b[1] - 0x80)
    else if |b| == 3 then (b[0] - 0xE0) * 0x1000 + (b[1] - 0x80) * 0x40 + (b[2] - 0x80)
    else if |b| == 4 then
      (b[0] - 0xF0) * 0x4_0000 + (b[1] - 0x80) * 0x1000 + (b[2] - 0x80) * 0x40 + (b[3] - 0x80)
    else 0
  }

  function CodePoints(s: Bytes): seq<int>
    requires Utf8(s)
  {
    if s == [] then []
    else
      var n := Utf8Length(s);
      [ScalarValue(s[..n])] + CodePoints(s[n..])
  }

  /** One well-formed character. */
  predicate IsCharacter(c: Bytes) {
    c != [] && Utf8Length(c) == |c|
  }

  lemma CharacterRange(c: Bytes)
    requires IsCharacter(c)
    ensures 1 <= |c| <= 4
    ensures |c| == 1 ==> 0 <= ScalarValue(c) < 0x80
    ensures |c| == 2 ==> 0x80 <= ScalarValue(c) < 0x800
    ensures |c| == 3 ==> 0x800 <= ScalarValue(c) < 0x1_0000 && !(0xD800 <= ScalarValue(c) <= 0xDFFF)
    ensures |c| == 4 ==> 0x1_0000 <= ScalarValue(c) <= 0x10_FFFF
  {
    hide IsHex, IsEscape;
  }

  /** A code point has one encoding. */
  lemma SameCharacter(a: Bytes, b: Bytes)
    requires IsCharacter(a) && IsCharacter(b) && ScalarValue(a) == ScalarValue(b)
    ensures a == b
  {
    CharacterRange(a);
    CharacterRange(b);
    TailBytes(a);
    TailBytes(b);
    hide IsCharacter;
    var x: seq<int>, y: seq<int> := a, b;
    assert |a| == |b|;
    if |a| == 2 {
      SameDigits(x[0] - 0xC0, x[1] - 0x80, y[0] - 0xC0, y[1] - 0x80);
    } else if |a| == 3 {
      SameDigits((x[0] - 0xE0) * 0x40 + (x[1] - 0x80), x[2] - 0x80, (y[0] - 0xE0) * 0x40 + (y[1] - 0x80), y[2] - 0x80);
      SameDigits(x[0] - 0xE0, x[1] - 0x80, y[0] - 0xE0, y[1] - 0x80);
    } else if |a| == 4 {
      var p, q := (x[0] - 0xF0) * 0x40 + (x[1] - 0x80), (y[0] - 0xF0) * 0x40 + (y[1] - 0x80);
      SameDigits(p * 0x40 + (x[2] - 0x80), x[3] - 0x80, q * 0x40 + (y[2] - 0x80), y[3] - 0x80);
      SameDigits(p, x[2] - 0x80, q, y[2] - 0x80);
      SameDigits(x[0] - 0xF0, x[1] - 0x80, y[0] - 0xF0, y[1] - 0x80);
    }
  }

  lemma SameDigits(high: int, low: int, otherHigh: int, otherLow: int)
    requires 0 <= low < 0x40 && 0 <= otherLow < 0x40 && high * 0x40 + low == otherHigh * 0x40 + otherLow
    ensures high == otherHigh && low == otherLow
  {
  }

  lemma TailBytes(c: Bytes)
    requires IsCharacter(c)
    ensures forall k | 0 < k < |c| :: 0x80 <= c[k] < 0xC0
  {
    hide IsHex, IsEscape;
  }

  lemma FirstCharacter(c: Bytes, rest: Bytes)
    requires IsCharacter(c)
    ensures c + rest != [] && Utf8Length(c + rest) == |c|
  {
    hide IsHex, IsEscape;
    var s := c + rest;
    assert forall k | 0 <= k < |c| :: s[k] == c[k];
  }

  lemma MoreCharacters(c: Bytes, rest: Bytes)
    requires IsCharacter(c)
    ensures Utf8(c + rest) == Utf8(rest)
    ensures Utf8(rest) ==> CodePoints(c + rest) == [ScalarValue(c)] + CodePoints(rest)
  {
    hide Utf8Length, ScalarValue;
    FirstCharacter(c, rest);
    assert (c + rest)[..|c|] == c && (c + rest)[|c|..] == rest;
  }

  lemma TakeCharacter(s: Bytes)
    requires s != [] && Utf8Length(s) > 0
    ensures IsCharacter(s[..Utf8Length(s)])
  {
    hide IsHex, IsEscape;
    var n := Utf8Length(s);
    assert forall k | 0 <= k < n :: s[..n][k] == s[k];
  }

  /** Well-formed byte strings with the same code points are the same. */
  lemma {:induction false} SameCodePoints(a: Bytes, b: Bytes)
    requires Utf8(a) && Utf8(b) && CodePoints(a) == CodePoints(b)
    ensures a == b
    decreases |a|
  {
    hide Utf8Length, ScalarValue;
    if a != [] && b != [] {
      var m, n := Utf8Length(a), Utf8Length(b);
      TakeCharacter(a);
      TakeCharacter(b);
      assert CodePoints(a)[0] == ScalarValue(a[..m]) && CodePoints(b)[0] == ScalarValue(b[..n]);
      SameCharacter(a[..m], b[..n]);
      assert CodePoints(a)[1..] == CodePoints(a[m..]) && CodePoints(b)[1..] == CodePoints(b[n..]);
      SameCodePoints(a[m..], b[n..]);
      assert a == a[..m] + a[m..] && b == b[..n] + b[n..];
    }
  }

  /** Some byte string has these code points. */
  ghost predicate HasText(points: seq<int>) {
    exists s :: Utf8(s) && CodePoints(s) == points
  }

  /** The byte string with given code points. */
  ghost function Utf8Text(points: seq<int>): (s: Bytes)
    requires HasText(points)
    ensures Utf8(s) && CodePoints(s) == points
  {
    var s :| Utf8(s) && CodePoints(s) == points;
    s
  }

  // ---- what the characters of a string token stand for ----

  /** The character for the letter after a backslash. */
  function EscapeMeaning(letter: byte): int {
    if letter == 0x62 then 0x08      // backspace
    else if letter == 0x66 then 0x0C // form feed
    else if letter == 0x6E then 0x0A // line feed
    else if letter == 0x72 then 0x0D // carriage return
    else if letter == 0x74 then 0x09 // tab
    else letter                      // quotation mark, reverse solidus, solidus
  }

  /** The number that four hexadecimal digits write. */
  function HexNumber(s: Bytes): nat
    requires HasCodeUnit(s)
  {
    ((HexValue(s[0]) * 16 + HexValue(s[1])) * 16 + HexValue(s[2])) * 16 + HexValue(s[3])
  }

  /** An escaped code unit stands at `i`. */
  predicate IsUnicodeEscape(text: Bytes, i: nat) {
    At(text, i) == BACKSLASH && At(text, i + 1) == 0x75 && CharLength(text, i) == 6
  }

  lemma UnicodeEscapeDigits(text: Bytes, i: nat)
    requires IsUnicodeEscape(text, i)
    ensures i + 6 <= |text| && HasCodeUnit(text[i + 2..])
    ensures HexNumber(text[i + 2..]) < 0x1_0000
  {
    hide IsHex;
    EscapeBytes(text, i);
    CodeUnitIsNumber(text[i + 2..]);
  }

  lemma CodeUnitIsNumber(s: Bytes)
    requires HasCodeUnit(s)
    ensures HexNumber(s) == CodeUnit(s)
  {
    hide IsHex, HexValue;
  }

  /** The upper-case and lower-case digits and their values. */
  lemma HexDigits(k: nat)
    requires k < 16
    ensures var lower, upper := Ascii("0123456789abcdef"), Ascii("0123456789ABCDEF");
            && IsHex(lower[k]) && HexValue(lower[k]) == k
            && IsHex(upper[k]) && HexValue(upper[k]) == k
            && HexDigit(k) == lower[k]
  {
  }

  function Then(point: int, rest: Option<seq<int>>): Option<seq<int>> {
    match rest
    case None => None
    case Some(points) => Some([point] + points)
  }

  /** The code points of the string whose characters begin at `i`; None if a surrogate stands alone. */
  function Points(text: Bytes, i: nat): Option<seq<int>>
    requires StringEnd(text, i).Some?
    decreases Left(text, i)
  {
    if At(text, i) == QUOTE then Some([])
    else
      StringEndAfter(text, i);
      var n := CharLength(text, i);
      if At(text, i) != BACKSLASH then Then(ScalarValue(text[i..i + n]), Points(text, i + n))
      else if !IsUnicodeEscape(text, i) then Then(EscapeMeaning(At(text, i + 1)), Points(text, i + n))
      else
        UnicodeEscapeDigits(text, i);
        var unit := HexNumber(text[i + 2..]);
        if 0xDC00 <= unit <= 0xDFFF then None
        else if !(0xD800 <= unit <= 0xDBFF) then Then(unit, Points(text, i + 6))
        else if !IsUnicodeEscape(text, i + 6) then None
        else
          UnicodeEscapeDigits(text, i + 6);
          QuoteIsNoEscape(text, i + 6);
          StringEndAfter(text, i + 6);
          var second := HexNumber(text[i + 8..]);
          if !(0xDC00 <= second <= 0xDFFF) then None
          else Then(0x1_0000 + (unit - 0xD800) * 0x400 + (second - 0xDC00), Points(text, i + 12))
  }

  lemma QuoteIsNoEscape(text: Bytes, i: nat)
    requires IsUnicodeEscape(text, i)
    ensures At(text, i) != QUOTE
  {
  }

  // ---- get_string gives that meaning ----

  lemma Sextets(n: nat)
    ensures n / 0x1000 * 0x1000 + n / 0x40 % 0x40 * 0x40 + n % 0x40 == n
    ensures n / 0x4_0000 * 0x4_0000 + n / 0x1000 % 0x40 * 0x1000 + n / 0x40 % 0x40 * 0x40 + n % 0x40 == n
  {
    assert n / 0x40 / 0x40 == n / 0x1000 && n / 0x1000 / 0x40 == n / 0x4_0000;
  }

  lemma TwoByteCharacter(a: nat, b: nat)
    requires 2 <= a < 0x20 && b < 0x40
    ensures var c: Bytes := [0xC0 + a, 0x80 + b]; IsCharacter(c) && ScalarValue(c) == a * 0x40 + b
  {
    hide IsHex, IsEscape;
  }

  lemma ThreeByteCharacter(a: nat, b: nat, d: nat)
    requires a < 0x10 && b < 0x40 && d < 0x40 && (a == 0 ==> b >= 0x20) && (a == 0xD ==> b < 0x20)
    ensures var c: Bytes := [0xE0 + a, 0x80 + b, 0x80 + d];
            IsCharacter(c) && ScalarValue(c) == a * 0x1000 + b * 0x40 + d
  {
    hide IsHex, IsEscape;
  }

  lemma FourByteCharacter(a: nat, b: nat, d: nat, e: nat)
    requires a <= 4 && b < 0x40 && d < 0x40 && e < 0x40 && (a == 0 ==> b >= 0x10) && (a == 4 ==> b < 0x10)
    ensures var c: Bytes := [0xF0 + a, 0x80 + b, 0x80 + d, 0x80 + e];
            IsCharacter(c) && ScalarValue(c) == a * 0x4_0000 + b * 0x1000 + d * 0x40 + e
  {
    hide IsHex, IsEscape;
  }

  lemma OneByteCharacter(a: byte)
    requires a < 0x80
    ensures IsCharacter([a]) && ScalarValue([a]) == a
  {
  }

  /** What `to_unicode` writes is one well-formed character with the code point asked for: that of a code
      unit which is no surrogate. */
  lemma UnitIsCharacter(unit: nat)
    requires unit < 0x1_0000 && !IsHighSurrogate(unit) && !IsLowSurrogate(unit)
    ensures ToUnicode(unit, 0).Ok?
    ensures var c := ToUnicode(unit, 0).value; IsCharacter(c) && ScalarValue(c) == unit
  {
    hide IsCharacter, ScalarValue;
    Sextets(unit);
    if unit < 0x80 {
      OneByteCharacter(unit);
    } else if unit <= 0x7FF {
      TwoByteCharacter(unit / 0x40, unit % 0x40);
    } else {
      ThreeByteCharacter(unit / 0x1000, unit / 0x40 % 0x40, unit % 0x40);
    }
  }

  /** That of a surrogate pair. */
  lemma PairIsCharacter(high: nat, low: nat)
    requires IsHighSurrogate(high) && IsLowSurrogate(low)
    ensures ToUnicode(high, low).Ok?
    ensures var c := ToUnicode(high, low).value;
            IsCharacter(c) && ScalarValue(c) == 0x1_0000 + (high - 0xD800) * 0x400 + (low - 0xDC00)
  {
    hide IsCharacter, ScalarValue;
    var point := 0x1_0000 + (high - 0xD800) * 0x400 + (low - 0xDC00);
    Sextets(point);
    FourByteCharacter(point / 0x4_0000, point / 0x1000 % 0x40, point / 0x40 % 0x40, point % 0x40);
  }

  lemma EscapeIsCharacter(letter: byte)
    requires IsEscape(letter)
    ensures IsCharacter(Unescaped(letter)) && ScalarValue(Unescaped(letter)) == EscapeMeaning(letter)
  {
    hide IsHex;
  }

  /** The outcome of `get_string` for a string with the given code points. */
  predicate Spells(r: Result<Bytes>, points: Option<seq<int>>) {
    match points
    case None => r == Err(ParseError(102))
    case Some(ps) => r.Ok? && Utf8(r.value) && CodePoints(r.value) == ps
  }

  lemma OneMoreCharacter(c: Bytes, r: Result<Bytes>, points: Option<seq<int>>)
    requires IsCharacter(c) && Spells(r, points)
    ensures Spells(Glue(c, r), Then(ScalarValue(c), points))
  {
    hide ScalarValue, Utf8Length;
    if r.Ok? {
      MoreCharacters(c, r.value);
    }
  }

  lemma PlainCharacter(text: Bytes, i: nat)
    requires CharLength(text, i) > 0 && At(text, i) != BACKSLASH
    ensures i + CharLength(text, i) <= |text| && IsCharacter(text[i..i + CharLength(text, i)])
  {
    hide IsHex, IsEscape;
    var n := CharLength(text, i);
    var c := text[i..i + n];
    assert forall k | 0 <= k < n :: c[k] == text[i + k];
  }

  lemma EscapeShape(text: Bytes, i: nat)
    requires CharLength(text, i) > 0 && At(text, i) == BACKSLASH && !IsUnicodeEscape(text, i)
    ensures CharLength(text, i) == 2 && i + 2 <= |text| && text[i + 1] != 0x75 && IsEscape(text[i + 1])
  {
    hide IsHex;
  }

  lemma PointsUnfold(text: Bytes, i: nat)
    requires StringEnd(text, i).Some?
    ensures At(text, i) == QUOTE ==> Points(text, i) == Some([])
    ensures var n := CharLength(text, i);
            At(text, i) != QUOTE ==>
              && n > 0 && i + n <= |text| && StringEnd(text, i + n).Some?
              && (At(text, i) != BACKSLASH ==>
                    Points(text, i) == Then(ScalarValue(text[i..i + n]), Points(text, i + n)))
              && (At(text, i) == BACKSLASH && !IsUnicodeEscape(text, i) ==>
                    Points(text, i) == Then(EscapeMeaning(At(text, i + 1)), Points(text, i + n)))
  {
    hide CharLength, StringEnd, ScalarValue, EscapeMeaning, HasCodeUnit;
    if At(text, i) != QUOTE {
      StringEndAfter(text, i);
    }
  }

  /** What stands behind an escaped code unit decides what it means. */
  lemma UnicodePoints(text: Bytes, i: nat)
    requires StringEnd(text, i).Some? && IsUnicodeEscape(text, i)
    ensures i + 6 <= |text| && HasCodeUnit(text[i + 2..]) && StringEnd(text, i + 6).Some?
    ensures var unit, pair := CodeUnit(text[i + 2..]), IsUnicodeEscape(text, i + 6);
            && (IsLowSurrogate(unit) ==> Points(text, i) == None)
            && (!IsLowSurrogate(unit) && !IsHighSurrogate(unit) ==> Points(text, i) == Then(unit, Points(text, i + 6)))
            && (IsHighSurrogate(unit) && !pair ==> Points(text, i) == None)
            && (IsHighSurrogate(unit) && pair ==>
                  && i + 12 <= |text| && HasCodeUnit(text[i + 8..]) && StringEnd(text, i + 12).Some?
                  && var low := CodeUnit(text[i + 8..]);
                  Points(text, i) ==
                  if IsLowSurrogate(low)
                  then Then(0x1_0000 + (unit - 0xD800) * 0x400 + (low - 0xDC00), Points(text, i + 12))
                  else None)
  {
    hide CharLength, StringEnd, HasCodeUnit, CodeUnit, HexNumber;
    UnicodeEscapeDigits(text, i);
    QuoteIsNoEscape(text, i);
    StringEndAfter(text, i);
    CodeUnitIsNumber(text[i + 2..]);
    if IsUnicodeEscape(text, i + 6) {
      UnicodeEscapeDigits(text, i + 6);
      QuoteIsNoEscape(text, i + 6);
      StringEndAfter(text, i + 6);
      CodeUnitIsNumber(text[i + 8..]);
    }
  }

  /** The digits are the same inside the token. */
  lemma UnitInside(text: Bytes, i: nat, end: nat)
    requires i + 6 <= end <= |text| && HasCodeUnit(text[i + 2..])
    ensures HasCodeUnit(text[i..end][2..]) && CodeUnit(text[i..end][2..]) == CodeUnit(text[i + 2..])
  {
    hide IsHex, HexValue;
    var a, b := text[i + 2..], text[i..end][2..];
    assert a[0] == b[0] && a[1] == b[1] && a[2] == b[2] && a[3] == b[3];
  }

  /** The bytes behind an escaped high surrogate. */
  lemma PairInside(text: Bytes, i: nat, end: nat)
    requires StringEnd(text, i) == Some(end + 1) && At(text, i) != QUOTE && i <= end <= |text|
    ensures var s := text[i..end];
            (|s| >= 2 && s[0] == BACKSLASH && s[1] == 0x75) <==> IsUnicodeEscape(text, i)
  {
    hide CharLength, StringEnd;
    StringEndAfter(text, i);
    if At(text, i) == BACKSLASH {
      EscapeBytes(text, i);
    }
    assert end > i && text[i..end][0] == text[i] && (end > i + 1 ==> text[i..end][1] == text[i + 1]);
  }

  lemma {:induction false} UnicodeSpells(text: Bytes, i: nat, end: nat)
    requires StringEnd(text, i) == Some(end + 1) && IsUnicodeEscape(text, i) && i <= end < |text|
    ensures Spells(Decode(text[i..end]), Points(text, i))
    decreases Left(text, i), 1
  {
    hide CharLength, HasCodeUnit, StringEnd, Decode, ToUnicode, CodeUnit, Points, Utf8Length, ScalarValue;
    var s := text[i..end];
    QuoteIsNoEscape(text, i);
    StringEndAfter(text, i);
    UnicodePoints(text, i);
    UnitInside(text, i, end);
    PairInside(text, i, end);
    DecodeUnicode(s);
    var unit := CodeUnit(text[i + 2..]);
    assert s[6..] == text[i + 6..end];
    if !IsHighSurrogate(unit) && !IsLowSurrogate(unit) {
      TokenSpells(text, i + 6);
      CodeUnitIsNumber(text[i + 2..]);
      UnicodeEscapeDigits(text, i);
      UnitIsCharacter(unit);
      OneMoreCharacter(ToUnicode(unit, 0).value, Decode(s[6..]), Points(text, i + 6));
    } else if IsHighSurrogate(unit) {
      SurrogateSpells(text, i, end);
    }
  }

  lemma {:induction false} SurrogateSpells(text: Bytes, i: nat, end: nat)
    requires StringEnd(text, i) == Some(end + 1) && IsUnicodeEscape(text, i) && i + 6 <= end < |text|
    requires StringEnd(text, i + 6) == Some(end + 1)
    requires HasCodeUnit(text[i + 2..]) && IsHighSurrogate(CodeUnit(text[i + 2..]))
    ensures Spells(Decode(text[i..end]), Points(text, i))
    decreases Left(text, i), 0
  {
    hide CharLength, HasCodeUnit, StringEnd, Decode, ToUnicode, CodeUnit, Points, Utf8Length, ScalarValue;
    var s := text[i..end];
    UnicodePoints(text, i);
    UnitInside(text, i, end);
    PairInside(text, i, end);
    DecodeUnicode(s);
    GetStringEmpty(text, i + 6);
    assert s[6..] == text[i + 6..end];
    if At(text, i + 6) != QUOTE {
      PairInside(text, i + 6, end);
      assert |s| >= 8 ==> s[6..][0] == s[6] && s[6..][1] == s[7];
    }
    if IsUnicodeEscape(text, i + 6) {
      QuoteIsNoEscape(text, i + 6);
      StringEndAfter(text, i + 6);
      UnitInside(text, i + 6, end);
      assert s[6..][2..] == s[8..];
      var high, low := CodeUnit(text[i + 2..]), CodeUnit(text[i + 8..]);
      if IsLowSurrogate(low) {
        TokenSpells(text, i + 12);
        assert s[12..] == text[i + 12..end];
        PairIsCharacter(high, low);
        OneMoreCharacter(ToUnicode(high, low).value, Decode(s[12..]), Points(text, i + 12));
      } else {
        SurrogateError(high, low);
      }
    }
  }

  /** The string token whose characters begin at `i`: `get_string` gives the byte string with its code
      points, or reports a surrogate that stands alone. */
  lemma {:induction false} TokenSpells(text: Bytes, i: nat)
    requires StringEnd(text, i).Some?
    ensures Spells(Decode(text[i..StringEnd(text, i).value - 1]), Points(text, i))
    decreases Left(text, i), 2
  {
    hide CharLength, HasCodeUnit, StringEnd, Decode, Points, Utf8Length, ScalarValue;
    GetStringEmpty(text, i);
    PointsUnfold(text, i);
    var end := StringEnd(text, i).value - 1;
    var s := text[i..end];
    if At(text, i) == QUOTE {
      DecodeNothing();
      assert s == [];
    } else {
      var n := CharLength(text, i);
      StringEndAfter(text, i);
      assert forall k | 0 <= k < n :: s[k] == text[i + k];
      assert s[n..] == text[i + n..end];
      if At(text, i) != BACKSLASH {
        TokenSpells(text, i + n);
        CharBytes(text, i);
        DecodePlain(s, n);
        PlainCharacter(text, i);
        assert s[..n] == text[i..i + n];
        OneMoreCharacter(text[i..i + n], Decode(s[n..]), Points(text, i + n));
      } else if !IsUnicodeEscape(text, i) {
        TokenSpells(text, i + n);
        EscapeShape(text, i);
        DecodeEscape(s);
        EscapeIsCharacter(s[1]);
        OneMoreCharacter(Unescaped(s[1]), Decode(s[2..]), Points(text, i + 2));
      } else {
        UnicodeSpells(text, i, end);
      }
    }
  }

  lemma PointsHaveText(text: Bytes, i: nat)
    requires StringEnd(text, i).Some?
    ensures Points(text, i).Some? ==> HasText(Points(text, i).value)
  {
    hide StringEnd, Points, Decode, Utf8, CodePoints;
    TokenSpells(text, i);
  }

  /** What a string token means: the well-formed UTF-8 with its code points; a surrogate alone is an error. */
  ghost function TokenText(text: Bytes, i: nat): Result<Bytes>
    requires StringEnd(text, i).Some?
  {
    PointsHaveText(text, i);
    match Points(text, i)
    case None => Err(ParseError(102))
    case Some(points) => Ok(Utf8Text(points))
  }

  /** `get_string` gives what the token means. */
  lemma TokenTextIsDecoded(text: Bytes, i: nat)
    requires StringEnd(text, i).Some?
    ensures TokenText(text, i) == Decode(text[i..StringEnd(text, i).value - 1])
  {
    hide StringEnd, Decode, Points, Utf8, CodePoints;
    TokenSpells(text, i);
    PointsHaveText(text, i);
    if Points(text, i).Some? {
      SameCodePoints(Decode(text[i..StringEnd(text, i).value - 1]).value, Utf8Text(Points(text, i).value));
    }
  }
}
