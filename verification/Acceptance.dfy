/** Which texts the two parsers accept: the same ones, but for numbers that are out of range. */
module Acceptance {
  import opened ByteStrings
  import opened Decimal
  import opened Json
  import opened Parser
  import opened PrunedParser
  import opened Scanner
  import opened TokenGrammar
  import opened TokenReader
  import opened Tokens

  /** A number token that the full parser reads as an integer, or that does not become an infinity. */
  predicate NumberFits(kind: TokenType, rest: Bytes, length: nat, toDouble: ToDouble) {
    (kind != ValueFloat && IntegerValue(rest, length).Some?) || toDouble(rest, length) != NotFinite
  }

  predicate IsNumberKind(kind: TokenType) {
    kind == ValueUnsigned || kind == ValueInteger || kind == ValueFloat
  }

  /** Every number in the value at `pos` fits. */
  predicate NumbersFit(text: Bytes, pos: nat, toDouble: ToDouble)
    requires pos <= |text|
    decreases |text| - pos, 1
  {
    ScanBounds(text, pos);
    var t := Scan(text, pos);
    if IsNumberKind(t.kind) then NumberFits(t.kind, text[t.start..], t.end - t.start, toDouble)
    else if t.kind == BeginObject then MembersFit(text, t.end, toDouble)
    else if t.kind == BeginArray then ItemsFit(text, t.end, toDouble)
    else true
  }

  predicate MembersFit(text: Bytes, pos: nat, toDouble: ToDouble)
    requires pos <= |text|
    decreases |text| - pos, 0
  {
    ScanBounds(text, pos);
    var name := Scan(text, pos);
    name.kind == ValueString ==>
      (ScanBounds(text, name.end);
       var colon := Scan(text, name.end);
       colon.kind == NameSeparator ==>
         && NumbersFit(text, colon.end, toDouble)
         && (PruneValue(text, colon.end).Ok? ==>
               var end := PruneValue(text, colon.end).value.end;
               ScanBounds(text, end);
               var next := Scan(text, end);
               next.kind == ValueSeparator ==> MembersFit(text, next.end, toDouble)))
  }

  predicate ItemsFit(text: Bytes, pos: nat, toDouble: ToDouble)
    requires pos <= |text|
    decreases |text| - pos, 2
  {
    && NumbersFit(text, pos, toDouble)
    && (PruneValue(text, pos).Ok? ==>
          var end := PruneValue(text, pos).value.end;
          ScanBounds(text, end);
          var next := Scan(text, end);
          next.kind == ValueSeparator ==> ItemsFit(text, next.end, toDouble))
  }

  lemma NumberAccepted(kind: TokenType, rest: Bytes, length: nat, toDouble: ToDouble)
    ensures NumberValue(kind, rest, length, toDouble).Ok? <==> NumberFits(kind, rest, length, toDouble)
  {
  }

  /** Where the pruned parser succeeds, the full one does exactly if the numbers fit. */
  lemma {:induction false} ValueAccepted(text: Bytes, pos: nat, toDouble: ToDouble)
    requires pos <= |text| && PruneValue(text, pos).Ok?
    ensures ParseValue(text, pos, toDouble).Ok? <==> NumbersFit(text, pos, toDouble)
    decreases |text| - pos, 1
  {
    hide Scan, StringValue, NumberValue, NumberFits, ParseMembers, ParseItems, PruneMembers, PruneItems, MembersFit,
         ItemsFit;
    ScanBounds(text, pos);
    var t := Scan(text, pos);
    if IsNumberKind(t.kind) {
      NumberAccepted(t.kind, text[t.start..], t.end - t.start, toDouble);
    } else if t.kind == BeginObject {
      ScanBounds(text, t.end);
      if Scan(text, t.end).kind == EndObject {
        NoMembersFit(text, t.end, toDouble);
      } else {
        MembersAccepted(text, t.end, map[], map[], toDouble);
      }
    } else if t.kind == BeginArray {
      ScanBounds(text, t.end);
      if Scan(text, t.end).kind == EndArray {
        NoItemsFit(text, t.end, toDouble);
      } else {
        ItemsAccepted(text, t.end, [], toDouble);
      }
    } else if t.kind == ValueString {
      StringTokenShape(text, pos);
    }
  }

  lemma NoMembersFit(text: Bytes, pos: nat, toDouble: ToDouble)
    requires pos <= |text| && Scan(text, pos).kind == EndObject
    ensures MembersFit(text, pos, toDouble)
  {
    hide Scan;
  }

  lemma NoItemsFit(text: Bytes, pos: nat, toDouble: ToDouble)
    requires pos <= |text| && Scan(text, pos).kind == EndArray
    ensures ItemsFit(text, pos, toDouble)
  {
    hide Scan;
  }

  lemma {:induction false} MembersAccepted(text: Bytes, pos: nat, full: map<Bytes, Json>, pruned: map<Bytes, Json>,
                                           toDouble: ToDouble)
    requires pos <= |text| && PruneMembers(text, pos, pruned).Ok?
    ensures ParseMembers(text, pos, full, toDouble).Ok? <==> MembersFit(text, pos, toDouble)
    decreases |text| - pos, 0
  {
    hide Scan, StringValue, ParseValue, PruneValue, NumbersFit, Agree;
    ScanBounds(text, pos);
    var name := Scan(text, pos);
    StringTokenShape(text, pos);
    ScanBounds(text, name.end);
    var colon := Scan(text, name.end);
    ValueAccepted(text, colon.end, toDouble);
    ValuesRelated(text, colon.end, toDouble);
    var f, p := ParseValue(text, colon.end, toDouble), PruneValue(text, colon.end);
    if f.Ok? {
      var key := StringValue(text, name).value;
      ScanBounds(text, f.value.end);
      var next := Scan(text, f.value.end);
      if next.kind == ValueSeparator {
        MembersAccepted(text, next.end, if f.value.value.Some? then full[key := f.value.value.value] else full,
                        if p.value.value.Some? then pruned[key := p.value.value.value] else pruned, toDouble);
      }
    }
  }

  lemma {:induction false} ItemsAccepted(text: Bytes, pos: nat, items: seq<Json>, toDouble: ToDouble)
    requires pos <= |text| && PruneItems(text, pos).Ok?
    ensures ParseItems(text, pos, items, toDouble).Ok? <==> ItemsFit(text, pos, toDouble)
    decreases |text| - pos, 2
  {
    hide Scan, ParseValue, PruneValue, NumbersFit, Agree;
    ValueAccepted(text, pos, toDouble);
    ValuesRelated(text, pos, toDouble);
    var f := ParseValue(text, pos, toDouble);
    if f.Ok? {
      ScanBounds(text, f.value.end);
      var next := Scan(text, f.value.end);
      if next.kind == ValueSeparator {
        ItemsAccepted(text, next.end, if f.value.value.Some? then items + [f.value.value.value] else items, toDouble);
      }
    }
  }

  /** The full parser accepts exactly the texts that the pruned one accepts and whose numbers all fit; on
      any other text they report the same error, unless a number is out of range. */
  lemma SameTextsAccepted(text: Bytes, toDouble: ToDouble)
    ensures Parse(text, toDouble).Ok? <==> Prune(text).Ok? && NumbersFit(text, 0, toDouble)
    ensures Parse(text, toDouble).Err? && Prune(text).Err? ==>
              Parse(text, toDouble) == Prune(text) || Parse(text, toDouble) == Err(OutOfRange(406))
  {
    hide ParseValue, PruneValue, Scan, NumbersFit, Agree;
    ValuesRelated(text, 0, toDouble);
    if PruneValue(text, 0).Ok? {
      ValueAccepted(text, 0, toDouble);
    }
  }

  /** `1e999` */
  const HUGE_NUMBER: Bytes := [0x31, 0x65, 0x39, 0x39, 0x39]

  lemma HugeToken()
    ensures Scan(HUGE_NUMBER, 0) == Token(ValueFloat, 0, 5) && Scan(HUGE_NUMBER, 5) == Token(EndOfInput, 5, 6)
  {
    hide Scan, SkipBlanks;
    ScanIsGrammar(HUGE_NUMBER, 0);
    SkipTo(HUGE_NUMBER, 0, 0);
    SkipTo(HUGE_NUMBER, 5, 5);
    Punctuation(HUGE_NUMBER, 5, 5);
    assert DigitsEnd(HUGE_NUMBER, 5) == 5 && DigitsEnd(HUGE_NUMBER, 4) == 5 && DigitsEnd(HUGE_NUMBER, 3) == 5;
    assert DigitsEnd(HUGE_NUMBER, 2) == 5 && DigitsEnd(HUGE_NUMBER, 1) == 1 && DigitsEnd(HUGE_NUMBER, 0) == 1;
  }

  /** A text that one parser accepts and the other rejects, for any conversion that overflows on it. */
  lemma HugeNumberDiffers(toDouble: ToDouble)
    requires toDouble(HUGE_NUMBER, 5) == NotFinite
    ensures Prune(HUGE_NUMBER) == Ok(Null) && Parse(HUGE_NUMBER, toDouble) == Err(OutOfRange(406))
  {
    hide Scan;
    HugeToken();
    assert HUGE_NUMBER[0..] == HUGE_NUMBER;
  }
}
