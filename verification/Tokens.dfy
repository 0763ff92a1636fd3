/** The lexical grammar as a whole: what `scan` returns, said without the automaton. */
module Tokens {
  import opened ByteStrings
  import opened Decimal
  import opened Scanner
  import opened TokenGrammar

  /** The classes of bytes that the automaton and the grammar share are those of sections 2, 6 and 7 of
      RFC 7159. */
  lemma ByteClasses(c: byte)
    ensures IsBlank(c) <==> c in Ascii(" \t\n\r")
    ensures IsDigit(c) <==> c in Ascii("0123456789")
    ensures IsHex(c) <==> c in Ascii("0123456789abcdefABCDEF")
    ensures IsEscape(c) <==> c in Ascii("\"\\/bfnrt")
    ensures IsPlain(c) <==> 0x20 <= c < 0x80 && c !in Ascii("\"\\")
    ensures IsExponentMark(c) <==> c in Ascii("eE")
  {
    DigitClass(c);
    LetterClass(c);
    EscapeClass(c);
  }

  lemma DigitClass(c: byte)
    ensures IsDigit(c) <==> c in Ascii("0123456789")
  {
    var digits := Ascii("0123456789");
    if IsDigit(c) {
      assert digits[c - 0x30] == c;
    }
  }

  lemma LetterClass(c: byte)
    ensures IsHex(c) <==> c in Ascii("0123456789abcdefABCDEF")
  {
    var digits := Ascii("0123456789abcdefABCDEF");
    if IsHex(c) {
      assert digits[if c <= 0x39 then c - 0x30 else if c <= 0x46 then c - 0x41 + 16 else c - 0x61 + 10] == c;
    }
  }

  lemma EscapeClass(c: byte)
    ensures IsEscape(c) <==> c in Ascii("\"\\/bfnrt")
    ensures IsPlain(c) <==> 0x20 <= c < 0x80 && c !in Ascii("\"\\")
    ensures IsBlank(c) <==> c in Ascii(" \t\n\r")
    ensures IsExponentMark(c) <==> c in Ascii("eE")
  {
    var letters, quotes, blanks, marks := Ascii("\"\\/bfnrt"), Ascii("\"\\"), Ascii(" \t\n\r"), Ascii("eE");
    assert letters == [0x22, 0x5C, 0x2F, 0x62, 0x66, 0x6E, 0x72, 0x74];
    assert quotes == [0x22, 0x5C] && blanks == [0x20, 0x09, 0x0A, 0x0D] && marks == [0x65, 0x45];
  }

  /** The first position from `i` on that holds no white space. */
  function SkipBlanks(text: Bytes, i: nat): (e: nat)
    ensures i <= e && !IsBlank(At(text, e))
    ensures i <= |text| ==> e <= |text|
    ensures forall k | i <= k < e :: IsBlank(At(text, k))
    decreases Left(text, i)
  {
    if IsBlank(At(text, i)) then SkipBlanks(text, i + 1) else i
  }

  const TRUE_TEXT: Bytes := [0x74, 0x72, 0x75, 0x65]
  const FALSE_TEXT: Bytes := [0x66, 0x61, 0x6C, 0x73, 0x65]
  const NULL_TEXT: Bytes := [0x6E, 0x75, 0x6C, 0x6C]

  /** The token that one byte is. */
  function Single(c: byte): TokenType {
    if c == 0x00 then EndOfInput
    else if c == 0x2C then ValueSeparator
    else if c == 0x3A then NameSeparator
    else if c == 0x5B then BeginArray
    else if c == 0x5D then EndArray
    else if c == 0x7B then BeginObject
    else if c == 0x7D then EndObject
    else ScanError
  }

  /** The token at a position without white space: sections 2, 3, 6 and 7 of RFC 7159. */
  function TokenAt(text: Bytes, p: nat): Token {
    var c := At(text, p);
    if c == 0x22 then
      var e := StringEnd(text, p + 1);
      if e.Some? then Token(ValueString, p, e.value) else Token(ScanError, p, p + 1)
    else if c == 0x2D || IsDigit(c) then NumberToken(text, p)
    else if Stands(text, p, TRUE_TEXT) then Token(LiteralTrue, p, p + 4)
    else if Stands(text, p, FALSE_TEXT) then Token(LiteralFalse, p, p + 5)
    else if Stands(text, p, NULL_TEXT) then Token(LiteralNull, p, p + 4)
    else Token(Single(c), p, p + 1)
  }

  lemma {:induction false} BlankRun(text: Bytes, start: nat, i: nat, marker: nat, onFallback: TokenType)
    ensures Run(text, start, i, Blank, marker, onFallback) == Scan(text, SkipBlanks(text, i))
    decreases Left(text, i)
  {
    hide Run;
    OneStep(text, start, i, Blank, marker, onFallback);
    if IsBlank(At(text, i)) {
      BlankRun(text, start, i + 1, marker, onFallback);
    }
  }

  /** White space in front of a token does not count. */
  lemma ScanBlanks(text: Bytes, pos: nat)
    ensures Scan(text, pos) == Scan(text, SkipBlanks(text, pos))
  {
    hide Run, SkipBlanks;
    SkipUnfold(text, pos);
    if IsBlank(At(text, pos)) {
      OneStep(text, pos, pos, Start, pos, ScanError);
      BlankRun(text, pos, pos + 1, pos, ScanError);
    }
  }

  lemma SkipUnfold(text: Bytes, i: nat)
    ensures SkipBlanks(text, i) == if IsBlank(At(text, i)) then SkipBlanks(text, i + 1) else i
  {
  }

  /** A literal stands at a position if its bytes are there one by one. */
  lemma StandsBytes(text: Bytes, p: nat, literal: Bytes)
    requires literal != [] && forall k | 0 <= k < |literal| :: literal[k] != 0
    ensures Stands(text, p, literal) <==> forall k | 0 <= k < |literal| :: At(text, p + k) == literal[k]
  {
    if Stands(text, p, literal) {
      var window := text[p..p + |literal|];
      assert forall k | 0 <= k < |literal| :: window[k] == At(text, p + k);
    }
    if forall k | 0 <= k < |literal| :: At(text, p + k) == literal[k] {
      var last := |literal| - 1;
      assert At(text, p + last) == literal[last];
      assert text[p..p + |literal|] == literal;
    }
  }

  lemma FourLetters(text: Bytes, p: nat, s0: State, s1: State, s2: State, literal: Bytes, kind: TokenType)
    requires |literal| == 4 && literal[0] != 0 && literal[1] != 0 && literal[2] != 0 && literal[3] != 0
    requires At(text, p) == literal[0] && Step(Start, literal[0]) == Enter(s0)
    requires SetsMarker(s0) && OnFallback(s0) == ScanError && !SetsMarker(s1) && !SetsMarker(s2)
    requires var c := At(text, p + 1); Step(s0, c) == if c == literal[1] then Enter(s1) else Accept(ScanError)
    requires var c := At(text, p + 2); Step(s1, c) == if c == literal[2] then Enter(s2) else Fallback
    requires var c := At(text, p + 3); Step(s2, c) == if c == literal[3] then AcceptWith(kind) else Fallback
    ensures Scan(text, p) == if Stands(text, p, literal) then Token(kind, p, p + 4) else Token(ScanError, p, p + 1)
  {
    hide Run, Step, At, Stands, SetsMarker, OnFallback;
    StandsBytes(text, p, literal);
    OneStep(text, p, p, Start, p, ScanError);
    OneStep(text, p, p + 1, s0, p + 1, ScanError);
    OneStep(text, p, p + 2, s1, p + 1, ScanError);
    OneStep(text, p, p + 3, s2, p + 1, ScanError);
    assert Stands(text, p, literal) <==>
           At(text, p + 1) == literal[1] && At(text, p + 2) == literal[2] && At(text, p + 3) == literal[3];
  }

  lemma TrueToken(text: Bytes, p: nat)
    requires At(text, p) == TRUE_TEXT[0]
    ensures Scan(text, p) ==
            if Stands(text, p, TRUE_TEXT) then Token(LiteralTrue, p, p + 4) else Token(ScanError, p, p + 1)
  {
    hide Run, At, Stands, Scan;
    FourLetters(text, p, T, Tr, Tru, TRUE_TEXT, LiteralTrue);
  }

  lemma NullToken(text: Bytes, p: nat)
    requires At(text, p) == NULL_TEXT[0]
    ensures Scan(text, p) ==
            if Stands(text, p, NULL_TEXT) then Token(LiteralNull, p, p + 4) else Token(ScanError, p, p + 1)
  {
    hide Run, At, Stands, Scan;
    FourLetters(text, p, N, Nu, Nul, NULL_TEXT, LiteralNull);
  }

  lemma FiveLetters(text: Bytes, p: nat, literal: Bytes)
    requires |literal| == 5 && forall k | 0 <= k < 5 :: literal[k] != 0
    requires At(text, p) == literal[0] && Step(Start, literal[0]) == Enter(F)
    requires var c := At(text, p + 1); Step(F, c) == if c == literal[1] then Enter(Fa) else Accept(ScanError)
    requires var c := At(text, p + 2); Step(Fa, c) == if c == literal[2] then Enter(Fal) else Fallback
    requires var c := At(text, p + 3); Step(Fal, c) == if c == literal[3] then Enter(Fals) else Fallback
    requires var c := At(text, p + 4); Step(Fals, c) == if c == literal[4] then AcceptWith(LiteralFalse) else Fallback
    ensures Scan(text, p) ==
            if Stands(text, p, literal) then Token(LiteralFalse, p, p + 5) else Token(ScanError, p, p + 1)
  {
    hide Run, Step, At, Stands;
    StandsBytes(text, p, literal);
    OneStep(text, p, p, Start, p, ScanError);
    OneStep(text, p, p + 1, F, p + 1, ScanError);
    OneStep(text, p, p + 2, Fa, p + 1, ScanError);
    OneStep(text, p, p + 3, Fal, p + 1, ScanError);
    OneStep(text, p, p + 4, Fals, p + 1, ScanError);
    assert Stands(text, p, literal) <==>
           && At(text, p + 1) == literal[1] && At(text, p + 2) == literal[2]
           && At(text, p + 3) == literal[3] && At(text, p + 4) == literal[4];
  }

  lemma FalseToken(text: Bytes, p: nat)
    requires At(text, p) == FALSE_TEXT[0]
    ensures Scan(text, p) ==
            if Stands(text, p, FALSE_TEXT) then Token(LiteralFalse, p, p + 5) else Token(ScanError, p, p + 1)
  {
    hide Run, At, Stands, Scan, Step, FALSE_TEXT;
    FalseMoves();
    FiveLetters(text, p, FALSE_TEXT);
  }

  lemma FalseMoves()
    ensures |FALSE_TEXT| == 5 && forall k | 0 <= k < 5 :: FALSE_TEXT[k] != 0
    ensures Step(Start, FALSE_TEXT[0]) == Enter(F)
    ensures forall c: byte :: Step(F, c) == if c == FALSE_TEXT[1] then Enter(Fa) else Accept(ScanError)
    ensures forall c: byte :: Step(Fa, c) == if c == FALSE_TEXT[2] then Enter(Fal) else Fallback
    ensures forall c: byte :: Step(Fal, c) == if c == FALSE_TEXT[3] then Enter(Fals) else Fallback
    ensures forall c: byte :: Step(Fals, c) == if c == FALSE_TEXT[4] then AcceptWith(LiteralFalse) else Fallback
  {
  }

  lemma SingleMoves(c: byte)
    requires !IsBlank(c) && c != 0x22 && c != 0x2D && !IsDigit(c)
    requires c != TRUE_TEXT[0] && c != NULL_TEXT[0] && c != FALSE_TEXT[0]
    ensures Step(Start, c) == AcceptWith(Single(c))
  {
  }

  /** The scanner returns exactly the tokens of the grammar. */
  lemma ScanIsGrammar(text: Bytes, pos: nat)
    ensures Scan(text, pos) == TokenAt(text, SkipBlanks(text, pos))
  {
    hide Run, Scan, Step, StringEnd, NumberToken, IsDigit, IsBlank, SkipBlanks, Stands, At, Single;
    ScanBlanks(text, pos);
    var p := SkipBlanks(text, pos);
    StandsFirst(text, p, TRUE_TEXT);
    StandsFirst(text, p, FALSE_TEXT);
    StandsFirst(text, p, NULL_TEXT);
    FirstLetters();
    var c := At(text, p);
    if c == 0x22 {
      StringTokens(text, p);
    } else if c == 0x2D || IsDigit(c) {
      NumberTokens(text, p);
    } else if c == TRUE_TEXT[0] {
      TrueToken(text, p);
    } else if c == FALSE_TEXT[0] {
      FalseToken(text, p);
    } else if c == NULL_TEXT[0] {
      NullToken(text, p);
    } else {
      SingleToken(text, p);
    }
  }

  lemma FirstLetters()
    ensures Single(TRUE_TEXT[0]) == Single(FALSE_TEXT[0]) == Single(NULL_TEXT[0]) == ScanError
  {
  }

  lemma StandsFirst(text: Bytes, p: nat, literal: Bytes)
    requires literal != []
    ensures Stands(text, p, literal) ==> At(text, p) == literal[0]
  {
    if Stands(text, p, literal) {
      assert text[p..p + |literal|][0] == literal[0];
    }
  }

  lemma SingleToken(text: Bytes, p: nat)
    requires var c := At(text, p);
             !IsBlank(c) && c != 0x22 && c != 0x2D && !IsDigit(c) && c != TRUE_TEXT[0] && c != NULL_TEXT[0]
               && c != FALSE_TEXT[0]
    ensures Scan(text, p) == Token(Single(At(text, p)), p, p + 1)
  {
    hide Run, Step, Single, At;
    SingleMoves(At(text, p));
    OneStep(text, p, p, Start, p, ScanError);
  }

  /** Every token takes at least one byte, and none but the end of the input reaches past the text. */
  lemma ScanBounds(text: Bytes, pos: nat)
    requires pos <= |text|
    ensures var t := Scan(text, pos);
            && pos <= t.start < t.end <= |text| + 1
            && (t.kind != EndOfInput ==> t.end <= |text|)
            && (t.kind == EndOfInput ==> t.end == t.start + 1 && At(text, t.start) == 0)
  {
    hide Run, Scan, StringEnd, SkipBlanks, IsBlank, Stands, TRUE_TEXT, FALSE_TEXT, NULL_TEXT, NumberToken;
    ScanIsGrammar(text, pos);
    var p := SkipBlanks(text, pos);
    if At(text, p) == 0x2D || IsDigit(At(text, p)) {
      NumberBounds(text, p);
    }
    LiteralBounds(text, p);
  }

  lemma LiteralBounds(text: Bytes, p: nat)
    ensures Stands(text, p, TRUE_TEXT) ==> p + 4 <= |text|
    ensures Stands(text, p, FALSE_TEXT) ==> p + 5 <= |text|
    ensures Stands(text, p, NULL_TEXT) ==> p + 4 <= |text|
  {
  }

  lemma NumberBounds(text: Bytes, p: nat)
    requires At(text, p) == 0x2D || IsDigit(At(text, p))
    ensures var t := NumberToken(text, p); t.start == p < t.end <= |text|
    ensures NumberToken(text, p).kind in {ValueUnsigned, ValueInteger, ValueFloat, ScanError}
  {
    hide DigitsEnd;
    var i := if At(text, p) == 0x2D then p + 1 else p;
    if IsDigit(At(text, i)) {
      DigitsBound(text, i);
      var e := DigitsEnd(text, i);
      DigitsBound(text, e + 1);
      var f := FractionEnd(text, e);
      DigitsBound(text, f + 1);
      DigitsBound(text, f + 2);
    }
  }

  lemma DigitsBound(text: Bytes, i: nat)
    ensures i <= DigitsEnd(text, i)
    ensures IsDigit(At(text, i)) ==> i < DigitsEnd(text, i) <= |text|
  {
    var e := DigitsEnd(text, i);
    if i < e {
      assert IsDigit(At(text, e - 1));
    }
  }

  // ---- tokens at a known position ----

  lemma SkipTo(text: Bytes, i: nat, e: nat)
    requires i <= e && !IsBlank(At(text, e))
    requires forall k | i <= k < e :: IsBlank(At(text, k))
    ensures SkipBlanks(text, i) == e
  {
  }

  predicate IsPunctuation(c: byte) {
    c == 0x2C || c == 0x3A || c == 0x5B || c == 0x5D || c == 0x7B || c == 0x7D || c == 0
  }

  lemma Punctuation(text: Bytes, pos: nat, p: nat)
    requires SkipBlanks(text, pos) == p && IsPunctuation(At(text, p))
    ensures Scan(text, pos) == Token(Single(At(text, p)), p, p + 1)
  {
    hide Scan, SkipBlanks, StringEnd, NumberToken, Stands, At, Single;
    ScanIsGrammar(text, pos);
    StandsFirst(text, p, TRUE_TEXT);
    StandsFirst(text, p, FALSE_TEXT);
    StandsFirst(text, p, NULL_TEXT);
  }

  lemma Literal(text: Bytes, pos: nat, p: nat, literal: Bytes)
    requires SkipBlanks(text, pos) == p && Stands(text, p, literal)
    requires literal == TRUE_TEXT || literal == FALSE_TEXT || literal == NULL_TEXT
    ensures Scan(text, pos) ==
            Token(if literal == TRUE_TEXT then LiteralTrue
                  else if literal == FALSE_TEXT then LiteralFalse
                  else LiteralNull,
                  p, p + |literal|)
  {
    hide Scan, SkipBlanks, StringEnd, NumberToken, Stands;
    ScanIsGrammar(text, pos);
    StandsFirst(text, p, literal);
    StandsFirst(text, p, TRUE_TEXT);
    StandsFirst(text, p, FALSE_TEXT);
    StandsFirst(text, p, NULL_TEXT);
  }

  lemma ClosingToken(text: Bytes, pos: nat, p: nat)
    requires SkipBlanks(text, pos) == p
    ensures Scan(text, pos).kind == EndArray ==> At(text, p) == 0x5D
    ensures Scan(text, pos).kind == EndObject ==> At(text, p) == 0x7D
  {
    hide Scan, SkipBlanks, StringEnd, Stands, DigitsEnd, FractionEnd, ExponentEnd;
    ScanIsGrammar(text, pos);
  }
}
