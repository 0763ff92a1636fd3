/** The lexer: the scanner at work on a buffer in memory, which it pads with NUL bytes when the
    automaton wants to look further ahead than the text reaches. */
module Lexer {
  import opened ByteStrings
  import opened Scanner

  /** How many bytes the generated code makes sure of when it enters a state; 0 where it reads
      without asking. */
  function Need(state: State): nat {
    match state
    case Start => 5
    case Digits => 3
    case MinusDigits => 3
    case Fraction => 3
    case Open => 0
    case Minus => 0
    case Zero => 0
    case F => 0
    case N => 0
    case T => 0
    case MinusZero => 0
    case Point => 0
    case Exponent => 0
    case Sign => 0
    case Fa => 0
    case Nu => 0
    case Tr => 0
    case Fal => 0
    case Nul => 0
    case Tru => 0
    case Fals => 0
    case _ => 1
  }

  /** How many bytes are certain to be left in the states that read without asking. */
  function Certain(state: State): nat {
    match state
    case Open => 4
    case Minus => 4
    case Zero => 4
    case F => 4
    case N => 4
    case T => 4
    case MinusZero => 3
    case Fa => 3
    case Nu => 3
    case Tr => 3
    case Point => 2
    case Exponent => 2
    case Fal => 2
    case Nul => 2
    case Tru => 2
    case Sign => 1
    case Fals => 1
    case _ => 0
  }

  function Max(a: nat, b: nat): nat {
    if a < b then b else a
  }

  /** Looking ahead five bytes at the start and three in the loops over digits is enough for the
      states in between, and every state has a byte to read. */
  lemma LookaheadSuffices(state: State, c: byte)
    ensures 1 <= Max(Need(state), Certain(state))
    ensures Step(state, c).Enter? ==> Certain(Step(state, c).state) < Max(Need(state), Certain(state))
  {
  }

  /** `yyaccept` */
  function Accepting(state: State): nat
    requires SetsMarker(state)
  {
    match OnFallback(state)
    case ValueUnsigned => 1
    case ValueInteger => 2
    case ValueFloat => 3
    case _ => 0
  }

  /** Label 32: the token that a return to the marker gives. */
  function Accepted(yyaccept: nat): TokenType {
    if yyaccept == 0 then ScanError
    else if yyaccept == 1 then ValueUnsigned
    else if yyaccept == 2 then ValueInteger
    else ValueFloat
  }

  lemma Markers(state: State, c: byte)
    ensures SetsMarker(state) ==> OnFallback(state) == Accepted(Accepting(state))
    ensures Step(state, c).Fallback? ==> !state.Start? && !state.Blank? && !state.Minus?
    ensures Step(state, c).Restart? ==> state.Blank?
    ensures Step(state, c).Enter? && (state.Start? || state.Blank?) ==>
              SetsMarker(Step(state, c).state) || Step(state, c).state.Blank? || Step(state, c).state.Minus?
    ensures Step(state, c).Enter? && state.Minus? ==> SetsMarker(Step(state, c).state)
  {
  }

  lemma StartCertain()
    ensures Certain(Start) == 0 && Accepted(0) == ScanError
  {
  }

  /** The move as the loop of `scan` makes it, with `yyaccept` for the token of a fallback. */
  lemma ScanMove(text: Bytes, start: nat, i: nat, state: State, marker: nat, yyaccept: nat)
    ensures 1 <= Max(Need(state), Certain(state))
    ensures var c, r := At(text, i), Run(text, start, i, state, marker, Accepted(yyaccept));
            match Step(state, c)
            case Enter(next) =>
              && i < |text|
              && Certain(next) < Max(Need(state), Certain(state))
              && (SetsMarker(next) ==> r == Run(text, start, i + 1, next, i + 1, Accepted(Accepting(next))))
              && (!SetsMarker(next) ==> r == Run(text, start, i + 1, next, marker, Accepted(yyaccept)))
              && (state.Start? || state.Blank? || state.Minus? ==> SetsMarker(next) || next.Blank? || next.Minus?)
            case Accept(token) => r == Token(token, start, i)
            case AcceptWith(token) => r == Token(token, start, i + 1)
            case Fallback =>
              r == Token(Accepted(yyaccept), start, marker) && !state.Start? && !state.Blank? && !state.Minus?
            case Restart => r == Run(text, i, i, Start, i, ScanError) && state.Blank?
  {
    hide Step, SetsMarker, OnFallback, Accepting, Accepted, Need, Certain, Run, At;
    OneStep(text, start, i, state, marker, Accepted(yyaccept));
    LookaheadSuffices(state, At(text, i));
    Markers(state, At(text, i));
    if Step(state, At(text, i)).Enter? {
      Markers(Step(state, At(text, i)).state, 0);
    }
  }

  class Lexer {
    /** The text the lexer was made for. */
    const text: Bytes
    /** The buffer; `m_content` points to its beginning and `m_limit` past its end. */
    var content: Bytes
    var start: nat
    var marker: int // -1 for a null pointer
    var cursor: nat
    /** The number of bytes read. */
    var position: nat
    /** The position in the text that `start` stands for. */
    ghost var origin: nat

    /** The buffer holds, from `start` on, all that is left of the text from `origin` on, and a NUL
        where the text ends if it reaches that far. */
    ghost predicate Valid()
      reads this
    {
      && start <= cursor <= |content|
      && (marker == -1 || start <= marker <= |content|)
      && |text| - origin <= |content| - start
      && forall i | start <= i < |content| && origin + i - start <= |text| :: content[i] == At(text, origin + i - start)
    }

    /** Between tokens. */
    ghost predicate Ready()
      reads this
    {
      Valid() && position == origin + cursor - start
    }

    constructor (text: Bytes)
      ensures Ready() && this.text == text && position == 0
    {
      this.text := text;
      content := text;
      start, cursor, marker, position, origin := 0, 0, -1, 0, 0;
    }

    /** The bytes of the text stay where they are relative to `start`, and the first byte of the padding is
        the NUL behind the text. */
    lemma RefillHolds(before: Bytes, start: nat, padding: Bytes, origin: nat)
      requires start <= |before| && |text| - origin <= |before| - start
      requires forall i | start <= i < |before| && origin + i - start <= |text| ::
                 before[i] == At(text, origin + i - start)
      ensures var c := before[start..] + [0] + padding;
              forall i | 0 <= i < |c| && origin + i <= |text| :: c[i] == At(text, origin + i)
    {
      var c := before[start..] + [0] + padding;
      forall i | 0 <= i < |c| && origin + i <= |text| ensures c[i] == At(text, origin + i) {
        if i < |before| - start {
          assert c[i] == before[start + i];
        }
      }
    }

    /** `fill_line_buffer` for a buffer without a stream: the unread part moves to the front and is
        padded; the pointers keep their distance from `start`. */
    method FillLineBuffer(n: nat)
      requires Valid() && n > 0
      modifies this
      ensures Valid() && start == 0 && position == old(position) && origin == old(origin)
      ensures cursor == old(cursor - start)
      ensures marker == if old(marker) == -1 then 0 else old(marker - start)
      ensures content == old(content[start..]) + [0] + seq(n - 1, _ => 1)
    {
      RefillHolds(content, start, seq(n - 1, _ => 1), origin);
      var offsetMarker := if marker == -1 then 0 else marker - start;
      var offsetCursor := cursor - start;
      content := content[start..] + [0];
      content := content + seq(n - 1, _ => 1);
      start := 0;
      marker := offsetMarker;
      cursor := offsetCursor;
    }

    /** The position in the text that the marker stands for; that of `start` without a marker. */
    ghost function MarkerPosition(): nat
      requires Valid()
      reads this
    {
      if marker == -1 then origin else origin + marker - start
    }

    /** The byte at the cursor, after the refill that the state asks for. */
    method Look(state: State) returns (yych: byte)
      requires Valid() && origin + cursor - start <= |text| && |content| - cursor >= Certain(state)
      modifies this
      ensures Valid() && position == old(position) && origin == old(origin)
      ensures cursor - start == old(cursor - start) && MarkerPosition() == old(MarkerPosition())
      ensures marker == -1 ==> old(marker) == -1
      ensures |content| - cursor >= Max(Need(state), Certain(state))
      ensures yych == At(text, origin + cursor - start)
    {
      LookaheadSuffices(state, 0);
      if |content| - cursor < Need(state) {
        FillLineBuffer(Need(state));
      }
      yych := content[cursor];
    }

    /** What holds whenever the automaton is about to look at a byte. */
    ghost predicate Scanning(state: State)
      reads this
    {
      && Valid() && position == origin && origin + cursor - start <= |text|
      && |content| - cursor >= Certain(state)
      && (marker == -1 ==> state.Start? || state.Blank? || state.Minus?)
    }

    /** The token that the automaton will find. */
    ghost function Outcome(state: State, yyaccept: nat): Token
      requires Valid()
      reads this
    {
      Run(text, origin, origin + cursor - start, state, MarkerPosition(), Accepted(yyaccept))
    }

    /** No marker yet, and the token begins at the cursor. */
    method BeginToken()
      requires Ready()
      modifies this
      ensures Valid() && marker == -1 && start == cursor == old(cursor) && origin == position == old(position)
      ensures content == old(content) && cursor <= |content| && MarkerPosition() == origin
    {
      marker := -1;
      start := cursor;
      origin := position;
    }

    /** `++m_cursor`, and `m_marker = m_cursor` if `mark`. */
    method Advance(mark: bool)
      requires Valid() && cursor < |content|
      modifies this`cursor, this`marker
      ensures Valid() && cursor == old(cursor) + 1
      ensures marker == if mark then cursor else old(marker)
      ensures MarkerPosition() == if mark then origin + cursor - start else old(MarkerPosition())
    {
      cursor := cursor + 1;
      if mark {
        marker := cursor;
      }
    }

    /** `m_cursor = m_marker` */
    method ReturnToMarker()
      requires Valid() && marker != -1
      modifies this`cursor
      ensures cursor == old(marker) && Valid() && origin + cursor - start == MarkerPosition()
    {
      cursor := marker;
    }

    /** White space is behind the cursor: the token begins here. */
    method SkipBlank()
      requires Valid() && position == origin && origin + cursor - start <= |text|
      modifies this
      ensures Scanning(Start) && origin + cursor - start == origin == old(origin + cursor - start)
      ensures Outcome(Start, 0) == Run(text, origin, origin, Start, origin, ScanError)
    {
      hide Run, Certain, Accepted;
      position := position + (cursor - start);
      BeginToken();
      StartCertain();
    }

    /** One round of the automaton: a look at a byte and a jump. */
    method Jump(state: State, yyaccept: nat) returns (done: bool, kind: TokenType, next: State, nextAccept: nat)
      requires Scanning(state)
      modifies this
      ensures Valid()
      ensures done ==> position == origin
                       && old(Outcome(state, yyaccept)) == Token(kind, origin, origin + cursor - start)
      ensures !done ==> Scanning(next) && Outcome(next, nextAccept) == old(Outcome(state, yyaccept))
      ensures !done ==> old(origin + cursor - start) < origin + cursor - start
                        || (old(origin + cursor - start) == origin + cursor - start && state.Blank? && next.Start?)
    {
      hide Step, Run, Need, Certain, SetsMarker, Accepting, At, Max, Valid, Accepted;
      var yych := Look(state);
      ScanMove(text, origin, origin + cursor - start, state, MarkerPosition(), yyaccept);
      done, kind, next, nextAccept := true, ScanError, state, yyaccept;
      match Step(state, yych) {
        case Enter(entered) =>
          Advance(SetsMarker(entered));
          nextAccept := if SetsMarker(entered) then Accepting(entered) else yyaccept;
          next := entered;
          done := false;
        case Accept(token) =>
          kind := token;
        case AcceptWith(token) =>
          Advance(false);
          kind := token;
        case Fallback =>
          ReturnToMarker();
          kind := Accepted(yyaccept);
        case Restart =>
          SkipBlank();
          next := Start;
          nextAccept := 0;
          done := false;
      }
    }

    /** `scan`: puts `start` and `cursor` around the next token of the specification. Every byte the
        automaton looks at lies below the limit of the buffer. */
    method ScanToken() returns (kind: TokenType)
      requires Ready() && position <= |text|
      modifies this
      ensures Ready()
      ensures var t := Scan(text, old(position)); kind == t.kind && origin == t.start && position == t.end
    {
      hide Step, Run, Certain;
      BeginToken();
      var state := Start;
      var yyaccept := 0;
      var done := false;
      kind := ScanError;
      StartCertain();
      while !done
        invariant Valid() && position == origin
        invariant !done ==> Scanning(state) && Outcome(state, yyaccept) == Scan(text, old(position))
        invariant done ==> Scan(text, old(position)) == Token(kind, origin, origin + cursor - start)
        decreases !done, if done then 0 else |text| - (origin + cursor - start), state.Blank?
      {
        done, kind, state, yyaccept := Jump(state, yyaccept);
      }
      position := position + (cursor - start);
    }
  }
}
