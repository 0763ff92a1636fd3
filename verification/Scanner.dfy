/** The scanner: the automaton that re2c generated for `lexer::scan`, state by state. The number in
    the comment of a state is its label `basic_json_parser_N` in the source. */
module Scanner {
  import opened ByteStrings
  import opened Decimal

  datatype TokenType =
    | LiteralTrue
    | LiteralFalse
    | LiteralNull
    | ValueString
    | ValueUnsigned
    | ValueInteger
    | ValueFloat
    | BeginArray
    | BeginObject
    | EndArray
    | EndObject
    | NameSeparator
    | ValueSeparator
    | ScanError
    | EndOfInput

  datatype State =
    | Start
    | Blank         // 6: inside white space
    | Open          // 9: after the opening quote
    | Minus         // 12: after "-"
    | Zero          // 13: after "0"
    | Digits        // 15: after "1" to "9" and further digits
    | F | N | T     // 23, 24, 25
    | Body          // 30, 31: inside a string
    | Backslash     // 35: after a backslash
    | Tail1         // 36: one continuation byte missing
    | AfterE0       // 37
    | Tail2         // 38: two continuation bytes missing
    | AfterED       // 39
    | AfterF0       // 40
    | Tail3         // 41: three continuation bytes missing
    | AfterF4       // 42
    | MinusZero     // 43: after "-0"
    | MinusDigits   // 45: after "-1" to "-9" and further digits
    | Point         // 47: after the decimal point
    | BadZero       // 48: digits after a leading zero
    | Exponent      // 51: after "e" or "E"
    | Fa | Nu | Tr  // 52, 53, 54
    | Hex1          // 55: after a backslash and "u"
    | Fraction      // 56: digits of the fraction
    | Sign          // 59: after the sign of the exponent
    | ExpDigits     // 60: digits of the exponent
    | Fal | Nul | Tru // 62, 63, 64
    | Hex2          // 65
    | Fals          // 66
    | Hex3          // 71
    | Hex4          // 74

  /** What happens on a byte: move over it into a state, accept a token before it or including it,
      return to the marker, or drop the white space read so far. */
  datatype Move =
    | Enter(state: State)
    | Accept(token: TokenType)
    | AcceptWith(token: TokenType)
    | Fallback
    | Restart

  predicate IsBlank(c: byte) {
    c == 0x20 || c == 0x09 || c == 0x0A || c == 0x0D
  }

  predicate IsHex(c: byte) {
    IsDigit(c) || 0x41 <= c <= 0x46 || 0x61 <= c <= 0x66
  }

  /** The bytes with bit 128 in the table `yybm`: ASCII without controls, quote and backslash. */
  predicate IsPlain(c: byte) {
    0x20 <= c <= 0x7F && c != 0x22 && c != 0x5C
  }

  /** The bytes that may follow a backslash, other than the "u" of a code point. */
  predicate IsEscape(c: byte) {
    c == 0x22 || c == 0x2F || c == 0x5C || c == 0x62 || c == 0x66 || c == 0x6E || c == 0x72 || c == 0x74
  }

  predicate InRange(c: byte, lo: int, hi: int) {
    lo <= c <= hi
  }

  function Step(state: State, c: byte): Move {
    match state
    case Start =>
      if IsBlank(c) then Enter(Blank)
      else if c == 0x00 then AcceptWith(EndOfInput)
      else if c == 0x22 then Enter(Open)
      else if c == 0x2C then AcceptWith(ValueSeparator)
      else if c == 0x2D then Enter(Minus)
      else if c == 0x30 then Enter(Zero)
      else if IsDigit(c) then Enter(Digits)
      else if c == 0x3A then AcceptWith(NameSeparator)
      else if c == 0x5B then AcceptWith(BeginArray)
      else if c == 0x5D then AcceptWith(EndArray)
      else if c == 0x66 then Enter(F)
      else if c == 0x6E then Enter(N)
      else if c == 0x74 then Enter(T)
      else if c == 0x7B then AcceptWith(BeginObject)
      else if c == 0x7D then AcceptWith(EndObject)
      else AcceptWith(ScanError)
    case Blank => if IsBlank(c) then Enter(Blank) else Restart
    case Open =>
      if c <= 0x1F then Accept(ScanError)
      else if c <= 0x7F then InString(c)
      else if c <= 0xC1 then Accept(ScanError)
      else if c <= 0xF4 then InString(c)
      else Accept(ScanError)
    case Minus =>
      if c == 0x30 then Enter(MinusZero)
      else if IsDigit(c) then Enter(MinusDigits)
      else Accept(ScanError)
    case Zero =>
      if c == 0x2E then Enter(Point)
      else if IsDigit(c) then Enter(BadZero)
      else if c == 0x45 || c == 0x65 then Enter(Exponent)
      else Accept(ValueUnsigned)
    case Digits =>
      if IsDigit(c) then Enter(Digits)
      else if c == 0x2E then Enter(Point)
      else if c == 0x45 || c == 0x65 then Enter(Exponent)
      else Accept(ValueUnsigned)
    case F => if c == 0x61 then Enter(Fa) else Accept(ScanError)
    case N => if c == 0x75 then Enter(Nu) else Accept(ScanError)
    case T => if c == 0x72 then Enter(Tr) else Accept(ScanError)
    case Body => InString(c)
    case Backslash =>
      if c == 0x75 then Enter(Hex1)
      else if IsEscape(c) then Enter(Body)
      else Fallback
    case Tail1 => if InRange(c, 0x80, 0xBF) then Enter(Body) else Fallback
    case AfterE0 => if InRange(c, 0xA0, 0xBF) then Enter(Tail1) else Fallback
    case Tail2 => if InRange(c, 0x80, 0xBF) then Enter(Tail1) else Fallback
    case AfterED => if InRange(c, 0x80, 0x9F) then Enter(Tail1) else Fallback
    case AfterF0 => if InRange(c, 0x90, 0xBF) then Enter(Tail2) else Fallback
    case Tail3 => if InRange(c, 0x80, 0xBF) then Enter(Tail2) else Fallback
    case AfterF4 => if InRange(c, 0x80, 0x8F) then Enter(Tail2) else Fallback
    case MinusZero =>
      if c == 0x2E then Enter(Point)
      else if IsDigit(c) then Enter(BadZero)
      else if c == 0x45 || c == 0x65 then Enter(Exponent)
      else Accept(ValueInteger)
    case MinusDigits =>
      if IsDigit(c) then Enter(MinusDigits)
      else if c == 0x2E then Enter(Point)
      else if c == 0x45 || c == 0x65 then Enter(Exponent)
      else Accept(ValueInteger)
    case Point => if IsDigit(c) then Enter(Fraction) else Fallback
    case BadZero => if IsDigit(c) then Enter(BadZero) else Accept(ScanError)
    case Exponent =>
      if c == 0x2B || c == 0x2D then Enter(Sign)
      else if IsDigit(c) then Enter(ExpDigits)
      else Fallback
    case Fa => if c == 0x6C then Enter(Fal) else Fallback
    case Nu => if c == 0x6C then Enter(Nul) else Fallback
    case Tr => if c == 0x75 then Enter(Tru) else Fallback
    case Hex1 => if IsHex(c) then Enter(Hex2) else Fallback
    case Fraction =>
      if IsDigit(c) then Enter(Fraction)
      else if c == 0x45 || c == 0x65 then Enter(Exponent)
      else Accept(ValueFloat)
    case Sign => if IsDigit(c) then Enter(ExpDigits) else Fallback
    case ExpDigits => if IsDigit(c) then Enter(ExpDigits) else Accept(ValueFloat)
    case Fal => if c == 0x73 then Enter(Fals) else Fallback
    case Nul => if c == 0x6C then AcceptWith(LiteralNull) else Fallback
    case Tru => if c == 0x65 then AcceptWith(LiteralTrue) else Fallback
    case Hex2 => if IsHex(c) then Enter(Hex3) else Fallback
    case Fals => if c == 0x65 then AcceptWith(LiteralFalse) else Fallback
    case Hex3 => if IsHex(c) then Enter(Hex4) else Fallback
    case Hex4 => if IsHex(c) then Enter(Body) else Fallback
  }

  /** Label 31: the dispatch on a byte inside a string. */
  function InString(c: byte): Move {
    if IsPlain(c) then Enter(Body)
    else if c == 0x22 then AcceptWith(ValueString)
    else if c == 0x5C then Enter(Backslash)
    else if c <= 0xC1 then Fallback
    else if c <= 0xDF then Enter(Tail1)
    else if c == 0xE0 then Enter(AfterE0)
    else if c == 0xED then Enter(AfterED)
    else if c <= 0xEF then Enter(Tail2)
    else if c == 0xF0 then Enter(AfterF0)
    else if c <= 0xF3 then Enter(Tail3)
    else if c == 0xF4 then Enter(AfterF4)
    else Fallback
  }

  /** The states that set the marker, with what `yyaccept` makes of a return to it. */
  predicate SetsMarker(state: State) {
    state.Open? || state.Zero? || state.Digits? || state.F? || state.N? || state.T?
    || state.MinusZero? || state.MinusDigits? || state.Fraction?
  }

  function OnFallback(state: State): TokenType
    requires SetsMarker(state)
  {
    match state
    case Zero => ValueUnsigned
    case Digits => ValueUnsigned
    case MinusZero => ValueInteger
    case MinusDigits => ValueInteger
    case Fraction => ValueFloat
    case _ => ScanError
  }

  /** The byte at a position; the text is followed by a NUL. */
  function At(text: Bytes, i: nat): byte {
    if i < |text| then text[i] else 0
  }

  datatype Token = Token(kind: TokenType, start: nat, end: nat)

  function Left(text: Bytes, i: nat): nat {
    if i <= |text| then |text| + 1 - i else 0
  }

  /** The automaton from a state on. `marker` and `onFallback` are what the last state that set the
      marker left behind. */
  function Run(text: Bytes, start: nat, cursor: nat, state: State, marker: nat, onFallback: TokenType): (t: Token)
    decreases Left(text, cursor), if state == Blank then 1 else 0
  {
    match Step(state, At(text, cursor))
    case Enter(next) =>
      if cursor >= |text| then Token(ScanError, start, cursor)   // cannot happen: see NulStops
      else if SetsMarker(next) then Run(text, start, cursor + 1, next, cursor + 1, OnFallback(next))
      else Run(text, start, cursor + 1, next, marker, onFallback)
    case Accept(token) => Token(token, start, cursor)
    case AcceptWith(token) => Token(token, start, cursor + 1)
    case Fallback => Token(onFallback, start, marker)
    case Restart => Run(text, cursor, cursor, Start, cursor, ScanError)
  }

  /** `scan`: the next token at or after a position. */
  function Scan(text: Bytes, pos: nat): Token {
    Run(text, pos, pos, Start, pos, ScanError)
  }

  /** No state moves over the NUL that ends the text. */
  lemma NulStops(state: State)
    ensures !Step(state, 0).Enter?
    ensures Step(state, 0).AcceptWith? ==> state == Start
  {
  }

  // ---- one move of the automaton ----

  lemma RunEnter(text: Bytes, start: nat, i: nat, state: State, marker: nat, onFallback: TokenType)
    requires Step(state, At(text, i)).Enter?
    ensures i < |text|
    ensures Run(text, start, i, state, marker, onFallback) ==
            var next := Step(state, At(text, i)).state;
            if SetsMarker(next) then Run(text, start, i + 1, next, i + 1, OnFallback(next))
            else Run(text, start, i + 1, next, marker, onFallback)
  {
    hide Step, SetsMarker, OnFallback;
    NulStops(state);
  }

  lemma RunAccept(text: Bytes, start: nat, i: nat, state: State, marker: nat, onFallback: TokenType)
    requires Step(state, At(text, i)).Accept?
    ensures Run(text, start, i, state, marker, onFallback) == Token(Step(state, At(text, i)).token, start, i)
  {
    hide Step;
  }

  lemma RunAcceptWith(text: Bytes, start: nat, i: nat, state: State, marker: nat, onFallback: TokenType)
    requires Step(state, At(text, i)).AcceptWith?
    ensures Run(text, start, i, state, marker, onFallback) == Token(Step(state, At(text, i)).token, start, i + 1)
  {
    hide Step;
  }

  lemma RunFallback(text: Bytes, start: nat, i: nat, state: State, marker: nat, onFallback: TokenType)
    requires Step(state, At(text, i)).Fallback?
    ensures Run(text, start, i, state, marker, onFallback) == Token(onFallback, start, marker)
  {
    hide Step;
  }

  lemma RunRestart(text: Bytes, start: nat, i: nat, state: State, marker: nat, onFallback: TokenType)
    requires Step(state, At(text, i)).Restart?
    ensures Run(text, start, i, state, marker, onFallback) == Run(text, i, i, Start, i, ScanError)
  {
    hide Step;
  }

  /** One move, whichever it is. */
  lemma OneStep(text: Bytes, start: nat, i: nat, state: State, marker: nat, onFallback: TokenType)
    ensures var m, r := Step(state, At(text, i)), Run(text, start, i, state, marker, onFallback);
            && (m.Enter? ==> i < |text|)
            && (m.Enter? && SetsMarker(m.state) ==>
                  r == Run(text, start, i + 1, m.state, i + 1, OnFallback(m.state)))
            && (m.Enter? && !SetsMarker(m.state) ==> r == Run(text, start, i + 1, m.state, marker, onFallback))
            && (m.Accept? ==> r == Token(m.token, start, i))
            && (m.AcceptWith? ==> r == Token(m.token, start, i + 1))
            && (m.Fallback? ==> r == Token(onFallback, start, marker))
            && (m.Restart? ==> r == Run(text, i, i, Start, i, ScanError))
  {
    hide Step, SetsMarker, OnFallback, Run, At;
    match Step(state, At(text, i))
    case Enter(_) => RunEnter(text, start, i, state, marker, onFallback);
    case Accept(_) => RunAccept(text, start, i, state, marker, onFallback);
    case AcceptWith(_) => RunAcceptWith(text, start, i, state, marker, onFallback);
    case Fallback => RunFallback(text, start, i, state, marker, onFallback);
    case Restart => RunRestart(text, start, i, state, marker, onFallback);
  }
}
