/** The parser accepts exactly the texts that have a derivation, and gives their meaning. */
module GrammarProof {
  import opened ByteStrings
  import opened Decimal
  import opened Grammar
  import opened Json
  import opened NumberGrammar
  import opened Parser
  import opened Scanner
  import opened StringTokens
  import opened Strings
  import opened TokenGrammar
  import opened TokenReader
  import opened Tokens

  // ---- a derivation is parsed ----

  lemma LiteralParses(text: Bytes, pos: nat, from: nat, to: nat, toDouble: ToDouble)
    requires pos <= |text| && SkipBlanks(text, pos) == from && IsLiteral(text, from, to)
    ensures ParseValue(text, pos, toDouble) == Outcome(ScalarMeaning(text, from, to, toDouble), to)
  {
    hide Ascii, Scan, SkipBlanks, ParseValue, Stands;
    FirstBytes();
    LiteralBounds(text, from);
    var literal :=
      if Stands(text, from, TRUE_TEXT) then TRUE_TEXT
      else if Stands(text, from, FALSE_TEXT) then FALSE_TEXT
      else NULL_TEXT;
    StandsFirst(text, from, TRUE_TEXT);
    StandsFirst(text, from, FALSE_TEXT);
    StandsFirst(text, from, NULL_TEXT);
    Literal(text, pos, from, literal);
    ParseValueUnfold(text, pos, toDouble);
  }

  lemma StringParses(text: Bytes, pos: nat, from: nat, to: nat, toDouble: ToDouble)
    requires pos <= |text| && SkipBlanks(text, pos) == from && IsString(text, from, to)
    ensures ParseValue(text, pos, toDouble) == Outcome(ScalarMeaning(text, from, to, toDouble), to)
    ensures Scan(text, pos) == Token(ValueString, from, to) && from + 2 <= to <= |text|
    ensures StringValue(text, Token(ValueString, from, to)) == NameMeaning(text, from, to)
  {
    hide Ascii, Scan, SkipBlanks, ParseValue, StringEnd, Decode;
    FirstBytes();
    ScanIsGrammar(text, pos);
    StringTokenShape(text, pos);
    NameIsDecoded(text, from, to);
    ParseValueUnfold(text, pos, toDouble);
  }

  lemma NumberParses(text: Bytes, pos: nat, from: nat, to: nat, toDouble: ToDouble)
    requires pos <= |text| && SkipBlanks(text, pos) == from && IsNumber(text, from, to) && Boundary(At(text, to))
    ensures ParseValue(text, pos, toDouble) == Outcome(ScalarMeaning(text, from, to, toDouble), to)
  {
    hide Ascii, Scan, SkipBlanks, ParseValue, NumberToken, IsNumber, NumberValue, NumberMeaning, Stands, StringEnd;
    FirstBytes();
    NumberIsToken(text, from, to);
    NumberBounds(text, from);
    ScanIsGrammar(text, pos);
    var t := NumberToken(text, from);
    NumberTokenMeans(text, from, toDouble);
    ParseValueUnfold(text, pos, toDouble);
  }

  /** A value does not begin with a closing bracket. */
  lemma TreeStarts(text: Bytes, t: Tree)
    requires Derives(text, t)
    ensures At(text, t.from) != 0x5D && At(text, t.from) != 0x7D
  {
    hide StringEnd, Stands, DeriveItems, DeriveMembers;
    StandsFirst(text, t.from, TRUE_TEXT);
    StandsFirst(text, t.from, FALSE_TEXT);
    StandsFirst(text, t.from, NULL_TEXT);
    if IsNumber(text, t.from, t.to) {
      NumberHasBytes(text, t.from, t.to);
      NumberBytes(text, t.from, t.to, t.from);
    }
  }

  lemma BoundaryBefore(text: Bytes, i: nat)
    requires var c := At(text, SkipBlanks(text, i)); c == 0x2C || c == 0x5D || c == 0x7D || c == 0
    ensures Boundary(At(text, i))
  {
    assert SkipBlanks(text, i) == i || IsBlank(At(text, i));
  }

  lemma EndToken(text: Bytes, pos: nat, c: byte, to: nat)
    requires Ends(text, pos, c, to) && (c == 0x5D || c == 0x7D)
    ensures Scan(text, pos) == Token(Single(c), to - 1, to) && Boundary(At(text, pos)) && pos < to <= |text|
  {
    hide Scan;
    Punctuation(text, pos, to - 1);
    BoundaryBefore(text, pos);
  }

  /** The parser reads a derivation and gives its meaning, or the first error in it. */
  lemma {:induction false} TreeParses(text: Bytes, pos: nat, t: Tree, toDouble: ToDouble)
    requires pos <= |text| && SkipBlanks(text, pos) == t.from && Derives(text, t) && Boundary(At(text, t.to))
    ensures ParseValue(text, pos, toDouble) == Outcome(Meaning(text, t, toDouble), t.to)
    decreases t, 2
  {
    hide Scan, SkipBlanks, ParseValue, ParseItems, ParseMembers, DeriveItems, DeriveMembers, ItemsMeaning,
         MembersMeaning, ScalarMeaning, IsNumber, StringEnd, Ends, Boundary, IsLiteral, At;
    match t
    case Scalar(from, to) =>
      if IsLiteral(text, from, to) {
        LiteralParses(text, pos, from, to, toDouble);
      } else if IsString(text, from, to) {
        StringParses(text, pos, from, to, toDouble);
      } else {
        NumberParses(text, pos, from, to, toDouble);
      }
    case Array(from, items, to) =>
      Punctuation(text, pos, from);
      OpenUnfold(text, pos, from, toDouble);
      if items == [] {
        EndToken(text, from + 1, 0x5D, to);
        NothingMeant(text, t, toDouble);
      } else {
        FirstItemStarts(text, t, from + 1);
        ItemsParse(text, t, 0, from + 1, [], toDouble);
      }
    case Object(from, members, to) =>
      Punctuation(text, pos, from);
      OpenUnfold(text, pos, from, toDouble);
      if members == [] {
        EndToken(text, from + 1, 0x7D, to);
        NothingMeant(text, t, toDouble);
      } else {
        FirstMemberStarts(text, t, from + 1);
        MembersParse(text, t, 0, from + 1, map[], toDouble);
      }
  }

  lemma NothingMeant(text: Bytes, t: Tree, toDouble: ToDouble)
    ensures t.Array? && t.items == [] ==> ItemsMeaning(text, t, 0, [], toDouble) == Ok([])
    ensures t.Object? && t.members == [] ==> MembersMeaning(text, t, 0, map[], toDouble) == Ok(map[])
  {
  }

  lemma FirstItemStarts(text: Bytes, t: Tree, pos: nat)
    requires t.Array? && t.items != [] && DeriveItems(text, t, 0, pos)
    ensures Scan(text, pos).kind != EndArray
  {
    hide Scan, SkipBlanks, Derives;
    TreeStarts(text, t.items[0]);
    ClosingToken(text, pos, t.items[0].from);
  }

  lemma FirstMemberStarts(text: Bytes, t: Tree, pos: nat)
    requires t.Object? && t.members != [] && DeriveMembers(text, t, 0, pos)
    ensures Scan(text, pos).kind != EndObject
  {
    hide Scan, SkipBlanks, Derives, StringEnd;
    assert DeriveMember(text, t.members[0], pos);
    ClosingToken(text, pos, t.members[0].nameFrom);
  }

  lemma CommaFollows(text: Bytes, pos: nat, comma: nat)
    requires comma == SkipBlanks(text, pos) && At(text, comma) == 0x2C
    ensures Scan(text, pos) == Token(ValueSeparator, comma, comma + 1) && Boundary(At(text, pos))
    ensures pos <= comma < |text|
  {
    hide Scan;
    Punctuation(text, pos, comma);
    BoundaryBefore(text, pos);
  }

  lemma {:induction false} ItemsParse(text: Bytes, t: Tree, k: nat, pos: nat, before: seq<Json>, toDouble: ToDouble)
    requires t.Array? && k < |t.items| && pos <= |text| && DeriveItems(text, t, k, pos)
    ensures ParseItems(text, pos, before, toDouble) ==
            var a := ItemsMeaning(text, t, k, before, toDouble);
            if a.Ok? then Ok(ParsedValue(Some(Arr(a.value)), t.to)) else Err(a.error)
    decreases t, 1, |t.items| - k
  {
    hide Scan, SkipBlanks, ParseValue, ParseItems, Meaning, Derives, Ends, Boundary, At;
    var v := t.items[k];
    ParseItemsUnfold(text, pos, before, toDouble);
    var d := Meaning(text, v, toDouble);
    var added := if d.Ok? && d.value.Some? then before + [d.value.value] else before;
    if k + 1 == |t.items| {
      EndToken(text, v.to, 0x5D, t.to);
      TreeParses(text, pos, v, toDouble);
    } else {
      var comma := SkipBlanks(text, v.to);
      CommaFollows(text, v.to, comma);
      TreeParses(text, pos, v, toDouble);
      ItemsParse(text, t, k + 1, comma + 1, added, toDouble);
    }
  }

  lemma ColonFollows(text: Bytes, pos: nat, colon: nat)
    requires colon == SkipBlanks(text, pos) && At(text, colon) == 0x3A
    ensures Scan(text, pos) == Token(NameSeparator, colon, colon + 1) && colon < |text|
  {
    hide Scan;
    Punctuation(text, pos, colon);
  }

  /** One member: its name, its colon, its value. */
  lemma {:induction false} MemberParses(text: Bytes, m: Member, pos: nat, before: map<Bytes, Json>, toDouble: ToDouble)
    requires pos <= |text| && DeriveMember(text, m, pos) && Boundary(At(text, m.value.to)) && m.value.to <= |text|
    ensures var added := MemberMeaning(text, m, before, toDouble);
            ParseMembers(text, pos, before, toDouble) ==
            if added.Ok? then MoreMembers(text, m.value.to, added.value, toDouble) else Err(added.error)
    decreases m.value, 3
  {
    hide Scan, SkipBlanks, ParseValue, ParseMembers, MoreMembers, Meaning, Derives, Ends, Boundary, At, IsString,
         NameMeaning, StringValue;
    var colon := SkipBlanks(text, m.nameTo);
    StringParses(text, pos, m.nameFrom, m.nameTo, toDouble);
    ColonFollows(text, m.nameTo, colon);
    ParseMembersUnfold(text, pos, before, toDouble);
    TreeParses(text, colon + 1, m.value, toDouble);
  }

  /** What comes after a member. */
  lemma MemberFollows(text: Bytes, t: Tree, k: nat, pos: nat)
    requires t.Object? && k < |t.members| && DeriveMembers(text, t, k, pos)
    ensures DeriveMember(text, t.members[k], pos)
    ensures var end := t.members[k].value.to;
            Boundary(At(text, end)) && end <= |text|
            && if k + 1 == |t.members| then Scan(text, end) == Token(EndObject, t.to - 1, t.to) && t.to > 0
               else
                 var comma := SkipBlanks(text, end);
                 Scan(text, end) == Token(ValueSeparator, comma, comma + 1) && comma < |text|
                 && DeriveMembers(text, t, k + 1, comma + 1)
  {
    hide Scan, SkipBlanks, DeriveMember, Ends, Boundary, At;
    var end := t.members[k].value.to;
    if k + 1 == |t.members| {
      EndToken(text, end, 0x7D, t.to);
    } else {
      CommaFollows(text, end, SkipBlanks(text, end));
    }
  }

  lemma {:induction false} MembersParse(text: Bytes, t: Tree, k: nat, pos: nat, before: map<Bytes, Json>,
                                        toDouble: ToDouble)
    requires t.Object? && k < |t.members| && pos <= |text| && DeriveMembers(text, t, k, pos)
    ensures ParseMembers(text, pos, before, toDouble) ==
            var m := MembersMeaning(text, t, k, before, toDouble);
            if m.Ok? then Ok(ParsedValue(Some(Obj(m.value)), t.to)) else Err(m.error)
    decreases t, 1, |t.members| - k
  {
    hide Scan, SkipBlanks, ParseMembers, MoreMembers, DeriveMember, DeriveMembers, Boundary, At, MemberMeaning;
    var m := t.members[k];
    MemberFollows(text, t, k, pos);
    MemberParses(text, m, pos, before, toDouble);
    var added := MemberMeaning(text, m, before, toDouble);
    if added.Ok? {
      MoreMembersUnfold(text, m.value.to, added.value, toDouble);
      if k + 1 < |t.members| {
        MembersParse(text, t, k + 1, SkipBlanks(text, m.value.to) + 1, added.value, toDouble);
      }
    }
  }

  // ---- what is parsed has a derivation ----

  /** What stands in the text for a token that the scanner returned. */
  lemma TokenStands(text: Bytes, pos: nat)
    requires pos <= |text|
    ensures var t, p := Scan(text, pos), SkipBlanks(text, pos);
            && t.start == p
            && (t.kind == BeginArray ==> At(text, p) == 0x5B && t.end == p + 1)
            && (t.kind == BeginObject ==> At(text, p) == 0x7B && t.end == p + 1)
            && (t.kind == EndArray ==> Ends(text, pos, 0x5D, t.end))
            && (t.kind == EndObject ==> Ends(text, pos, 0x7D, t.end))
            && (t.kind == NameSeparator ==> At(text, p) == 0x3A && t.end == p + 1)
            && (t.kind == ValueSeparator ==> At(text, p) == 0x2C && t.end == p + 1)
            && (t.kind == EndOfInput ==> At(text, p) == 0)
            && (t.kind == ValueString ==> IsString(text, p, t.end))
  {
    hide Scan, SkipBlanks, StringEnd, Stands, NumberToken, IsNumber, At;
    ScanIsGrammar(text, pos);
    var p := SkipBlanks(text, pos);
    if At(text, p) == MINUS || IsDigit(At(text, p)) {
      NumberBounds(text, p);
    }
  }

  /** What stands in the text for a literal or a number. */
  lemma ScalarStands(text: Bytes, pos: nat)
    requires pos <= |text|
    ensures var t, p := Scan(text, pos), SkipBlanks(text, pos);
            && (t.kind == LiteralTrue || t.kind == LiteralFalse || t.kind == LiteralNull ==> IsLiteral(text, p, t.end))
            && (t.kind == LiteralTrue ==> At(text, p) == TRUE_TEXT[0])
            && (t.kind == LiteralFalse ==> At(text, p) == FALSE_TEXT[0])
            && (t.kind == LiteralNull ==> At(text, p) == NULL_TEXT[0])
            && (t.kind == ValueUnsigned || t.kind == ValueInteger || t.kind == ValueFloat ==>
                  && (At(text, p) == MINUS || IsDigit(At(text, p)))
                  && t == NumberToken(text, p) && IsNumber(text, p, t.end))
  {
    hide Scan, SkipBlanks, StringEnd, Stands, NumberToken, IsNumber, At;
    ScanIsGrammar(text, pos);
    var p := SkipBlanks(text, pos);
    StandsFirst(text, p, TRUE_TEXT);
    StandsFirst(text, p, FALSE_TEXT);
    StandsFirst(text, p, NULL_TEXT);
    if At(text, p) == MINUS || IsDigit(At(text, p)) {
      NumberBounds(text, p);
      if NumberToken(text, p).kind != ScanError {
        NumberTokenIsNumber(text, p);
      }
    }
  }

  lemma ScalarKind(text: Bytes, pos: nat, toDouble: ToDouble)
    requires pos <= |text| && ParseValue(text, pos, toDouble).Ok?
    requires Scan(text, pos).kind != BeginArray && Scan(text, pos).kind != BeginObject
    ensures Scan(text, pos).kind in {LiteralTrue, LiteralFalse, LiteralNull, ValueString, ValueUnsigned, ValueInteger,
                                     ValueFloat}
  {
    hide Scan, NumberParsed, StringValue;
  }

  lemma ScalarUnfold(text: Bytes, from: nat, to: nat, toDouble: ToDouble)
    ensures Derives(text, Scalar(from, to)) ==
            (IsLiteral(text, from, to) || IsString(text, from, to) || IsNumber(text, from, to))
    ensures Meaning(text, Scalar(from, to), toDouble) == ScalarMeaning(text, from, to, toDouble)
  {
    hide IsLiteral, IsString, IsNumber, ScalarMeaning;
  }

  lemma NumberDerived(text: Bytes, pos: nat, toDouble: ToDouble)
    requires pos <= |text| && Scan(text, pos).kind in {ValueUnsigned, ValueInteger, ValueFloat}
    ensures var t := Scan(text, pos);
            ParseValue(text, pos, toDouble) == Outcome(ScalarMeaning(text, t.start, t.end, toDouble), t.end)
  {
    hide Ascii, Scan, SkipBlanks, ParseValue, NumberToken, IsNumber, NumberValue, NumberMeaning, At;
    FirstBytes();
    TokenStands(text, pos);
    ScalarStands(text, pos);
    ScanBounds(text, pos);
    ParseValueUnfold(text, pos, toDouble);
    var t := Scan(text, pos);
    NumberTokenMeans(text, t.start, toDouble);
  }

  lemma ScalarDerived(text: Bytes, pos: nat, toDouble: ToDouble)
    requires pos <= |text| && ParseValue(text, pos, toDouble).Ok?
    requires Scan(text, pos).kind != BeginArray && Scan(text, pos).kind != BeginObject
    ensures var v := ParseValue(text, pos, toDouble).value;
            var t := Scalar(SkipBlanks(text, pos), v.end);
            Derives(text, t) && Meaning(text, t, toDouble) == Ok(v.value)
  {
    hide Ascii, Scan, SkipBlanks, ParseValue, Derives, Meaning, IsNumber, IsLiteral, NumberToken, NumberValue,
         NumberMeaning, NameMeaning, StringEnd, Decode, At;
    FirstBytes();
    TokenStands(text, pos);
    ScalarStands(text, pos);
    ScalarKind(text, pos, toDouble);
    ScanBounds(text, pos);
    var t := Scan(text, pos);
    ScalarUnfold(text, t.start, t.end, toDouble);
    if t.kind == ValueUnsigned || t.kind == ValueInteger || t.kind == ValueFloat {
      NumberDerived(text, pos, toDouble);
    } else {
      ParseValueUnfold(text, pos, toDouble);
      if t.kind == ValueString {
        StringTokenShape(text, pos);
        NameIsDecoded(text, t.start, t.end);
      }
    }
  }

  /** What the parser accepts has a derivation with the meaning that the parser gives it. */
  lemma {:induction false} ValueDerived(text: Bytes, pos: nat, toDouble: ToDouble) returns (t: Tree)
    requires pos <= |text| && ParseValue(text, pos, toDouble).Ok?
    ensures var v := ParseValue(text, pos, toDouble).value;
            && t.from == SkipBlanks(text, pos) && t.to == v.end
            && Derives(text, t) && Meaning(text, t, toDouble) == Ok(v.value)
    decreases |text| - pos, 1
  {
    hide Scan, SkipBlanks, Derives, ParseValue, Meaning;
    if Scan(text, pos).kind == BeginArray {
      t := ArrayDerived(text, pos, toDouble);
    } else if Scan(text, pos).kind == BeginObject {
      t := ObjectDerived(text, pos, toDouble);
    } else {
      t := Scalar(SkipBlanks(text, pos), ParseValue(text, pos, toDouble).value.end);
      ScalarDerived(text, pos, toDouble);
    }
  }

  lemma {:induction false} ArrayDerived(text: Bytes, pos: nat, toDouble: ToDouble) returns (t: Tree)
    requires pos <= |text| && ParseValue(text, pos, toDouble).Ok? && Scan(text, pos).kind == BeginArray
    ensures var v := ParseValue(text, pos, toDouble).value;
            && t.from == SkipBlanks(text, pos) && t.to == v.end
            && Derives(text, t) && Meaning(text, t, toDouble) == Ok(v.value)
    decreases |text| - pos, 0
  {
    hide Scan, SkipBlanks, IsNumber, NumberToken, IsLiteral, IsString, ParseItems, Ends, Derives, DeriveItems,
         ItemsMeaning, ParseValue, Meaning, At;
    ScanBounds(text, pos);
    TokenStands(text, pos);
    var from := SkipBlanks(text, pos);
    OpenUnfold(text, pos, from, toDouble);
    TokenStands(text, from + 1);
    if Scan(text, from + 1).kind == EndArray {
      t := Array(from, [], ParseValue(text, pos, toDouble).value.end);
      NothingMeant(text, t, toDouble);
    } else {
      t := ItemsDerived(text, from + 1, [], toDouble, from, []);
    }
    WholeDerived(text, t, toDouble);
  }

  lemma {:induction false} ObjectDerived(text: Bytes, pos: nat, toDouble: ToDouble) returns (t: Tree)
    requires pos <= |text| && ParseValue(text, pos, toDouble).Ok? && Scan(text, pos).kind == BeginObject
    ensures var v := ParseValue(text, pos, toDouble).value;
            && t.from == SkipBlanks(text, pos) && t.to == v.end
            && Derives(text, t) && Meaning(text, t, toDouble) == Ok(v.value)
    decreases |text| - pos, 0
  {
    hide Scan, SkipBlanks, IsNumber, NumberToken, IsLiteral, IsString, ParseMembers, Ends, Derives, DeriveMembers,
         MembersMeaning, ParseValue, Meaning, At;
    ScanBounds(text, pos);
    TokenStands(text, pos);
    var from := SkipBlanks(text, pos);
    OpenUnfold(text, pos, from, toDouble);
    TokenStands(text, from + 1);
    if Scan(text, from + 1).kind == EndObject {
      t := Object(from, [], ParseValue(text, pos, toDouble).value.end);
      NothingMeant(text, t, toDouble);
    } else {
      t := MembersDerived(text, from + 1, map[], toDouble, from, []);
    }
    WholeDerived(text, t, toDouble);
  }

  lemma WholeDerived(text: Bytes, t: Tree, toDouble: ToDouble)
    ensures t.Array? && At(text, t.from) == 0x5B
            && (if t.items == [] then Ends(text, t.from + 1, 0x5D, t.to) else DeriveItems(text, t, 0, t.from + 1)) ==>
              Derives(text, t)
    ensures t.Object? && At(text, t.from) == 0x7B
            && (if t.members == [] then Ends(text, t.from + 1, 0x7D, t.to)
                else DeriveMembers(text, t, 0, t.from + 1)) ==>
              Derives(text, t)
    ensures t.Array? ==>
              var a := ItemsMeaning(text, t, 0, [], toDouble);
              a.Ok? ==> Meaning(text, t, toDouble) == Ok(Some(Arr(a.value)))
    ensures t.Object? ==>
              var m := MembersMeaning(text, t, 0, map[], toDouble);
              m.Ok? ==> Meaning(text, t, toDouble) == Ok(Some(Obj(m.value)))
  {
    hide DeriveItems, DeriveMembers, ItemsMeaning, MembersMeaning, Ends;
  }

  /** The elements that are parsed from `pos` on, behind those in `front`. */
  lemma {:induction false} ItemsDerived(text: Bytes, pos: nat, before: seq<Json>, toDouble: ToDouble, from: nat,
                                        front: seq<Tree>)
    returns (t: Tree)
    requires pos <= |text| && ParseItems(text, pos, before, toDouble).Ok?
    ensures t.Array? && t.from == from && |front| < |t.items| && t.items[..|front|] == front
    ensures var v := ParseItems(text, pos, before, toDouble).value;
            var a := ItemsMeaning(text, t, |front|, before, toDouble);
            t.to == v.end && DeriveItems(text, t, |front|, pos) && a.Ok? && v.value == Some(Arr(a.value))
    decreases |text| - pos, 2
  {
    hide Scan, SkipBlanks, IsNumber, NumberToken, IsLiteral, IsString, ParseValue, ParseItems, Ends, Derives, Meaning,
         At;
    ParseItemsUnfold(text, pos, before, toDouble);
    var v := ParseValue(text, pos, toDouble).value;
    var x := ValueDerived(text, pos, toDouble);
    TokenStands(text, v.end);
    ScanBounds(text, v.end);
    var next := Scan(text, v.end);
    if next.kind == ValueSeparator {
      var added := if v.value.Some? then before + [v.value.value] else before;
      t := ItemsDerived(text, next.end, added, toDouble, from, front + [x]);
      assert t.items[|front|] == t.items[..|front| + 1][|front|] == x;
      assert t.items[..|front|] == t.items[..|front| + 1][..|front|];
    } else {
      t := Array(from, front + [x], next.end);
      assert t.items[..|front|] == front;
    }
  }

  /** The first member that is parsed from `pos` on. */
  lemma {:induction false} MemberDerived(text: Bytes, pos: nat, before: map<Bytes, Json>, toDouble: ToDouble)
    returns (m: Member, added: map<Bytes, Json>)
    requires pos <= |text| && ParseMembers(text, pos, before, toDouble).Ok?
    ensures DeriveMember(text, m, pos) && MemberMeaning(text, m, before, toDouble) == Ok(added)
            && pos < m.value.to <= |text|
    ensures ParseMembers(text, pos, before, toDouble) == MoreMembers(text, m.value.to, added, toDouble)
    decreases |text| - pos, 0
  {
    hide Scan, SkipBlanks, IsNumber, NumberToken, IsLiteral, ParseValue, ParseMembers, MoreMembers, Derives, Meaning,
         At, IsString, NameMeaning, StringEnd, Decode;
    TokenStands(text, pos);
    ScanBounds(text, pos);
    var name := Scan(text, pos);
    ParseMembersUnfold(text, pos, before, toDouble);
    NameIsDecoded(text, name.start, name.end);
    StringTokenShape(text, pos);
    TokenStands(text, name.end);
    ScanBounds(text, name.end);
    MemberShape(text, pos, before, toDouble);
    var colon := Scan(text, name.end);
    var v := ParseValue(text, colon.end, toDouble).value;
    var x := ValueDerived(text, colon.end, toDouble);
    m := Member(name.start, name.end, x);
    added := if v.value.Some? then before[StringValue(text, name).value := v.value.value] else before;
  }

  lemma MemberShape(text: Bytes, pos: nat, before: map<Bytes, Json>, toDouble: ToDouble)
    requires pos <= |text| && ParseMembers(text, pos, before, toDouble).Ok?
    ensures Scan(text, pos).kind == ValueString && Scan(text, Scan(text, pos).end).kind == NameSeparator
    ensures var colon := Scan(text, Scan(text, pos).end);
            colon.end <= |text| && ParseValue(text, colon.end, toDouble).Ok?
  {
    hide Scan, ParseValue, StringValue, MoreMembers;
    ScanBounds(text, pos);
    StringTokenShape(text, pos);
    ScanBounds(text, Scan(text, pos).end);
  }

  lemma MembersFold(text: Bytes, t: Tree, k: nat, pos: nat, before: map<Bytes, Json>, added: map<Bytes, Json>,
                    toDouble: ToDouble)
    requires t.Object? && k < |t.members| && DeriveMember(text, t.members[k], pos)
    requires MemberMeaning(text, t.members[k], before, toDouble) == Ok(added)
    ensures var end := t.members[k].value.to;
            DeriveMembers(text, t, k, pos) ==
            if k + 1 == |t.members| then Ends(text, end, 0x7D, t.to)
            else
              var comma := SkipBlanks(text, end);
              At(text, comma) == 0x2C && DeriveMembers(text, t, k + 1, comma + 1)
    ensures MembersMeaning(text, t, k, before, toDouble) ==
            if k + 1 == |t.members| then Ok(added) else MembersMeaning(text, t, k + 1, added, toDouble)
  {
    hide SkipBlanks, DeriveMember, MemberMeaning, At, Ends;
    if k + 1 == |t.members| {
      assert MembersMeaning(text, t, k + 1, added, toDouble) == Ok(added);
    }
  }

  lemma {:induction false} MembersDerived(text: Bytes, pos: nat, before: map<Bytes, Json>, toDouble: ToDouble,
                                          from: nat, front: seq<Member>) returns (t: Tree)
    requires pos <= |text| && ParseMembers(text, pos, before, toDouble).Ok?
    ensures t.Object? && t.from == from && |front| < |t.members| && t.members[..|front|] == front
    ensures var v := ParseMembers(text, pos, before, toDouble).value;
            var m := MembersMeaning(text, t, |front|, before, toDouble);
            t.to == v.end && DeriveMembers(text, t, |front|, pos) && m.Ok? && v.value == Some(Obj(m.value))
    decreases |text| - pos, 1
  {
    hide Scan, SkipBlanks, IsNumber, NumberToken, IsLiteral, IsString, ParseMembers, MoreMembers, Ends, DeriveMember,
         DeriveMembers, MemberMeaning, MembersMeaning, At;
    var member, added := MemberDerived(text, pos, before, toDouble);
    var end := member.value.to;
    MoreMembersUnfold(text, end, added, toDouble);
    TokenStands(text, end);
    ScanBounds(text, end);
    var next := Scan(text, end);
    if next.kind == ValueSeparator {
      t := MembersDerived(text, next.end, added, toDouble, from, front + [member]);
      PrefixGives(t.members, front, member);
    } else {
      t := Object(from, front + [member], next.end);
      PrefixGives(t.members, front, member);
    }
    MembersFold(text, t, |front|, pos, before, added, toDouble);
  }

  lemma PrefixGives<T>(s: seq<T>, front: seq<T>, x: T)
    requires |front| < |s| && s[..|front| + 1] == front + [x]
    ensures s[|front|] == x && s[..|front|] == front
  {
    assert s[|front|] == s[..|front| + 1][|front|];
    assert s[..|front|] == s[..|front| + 1][..|front|];
  }

  // ---- whole texts ----

  /** `JSON-text = ws value ws`, up to the end of the text or a NUL in it. */
  ghost predicate DerivesText(text: Bytes, t: Tree) {
    t.from == SkipBlanks(text, 0) && Derives(text, t) && At(text, SkipBlanks(text, t.to)) == 0
  }

  /** A derivation of the text decides what `parse` gives: its meaning, or the first error in it. */
  lemma TextParses(text: Bytes, t: Tree, toDouble: ToDouble)
    requires DerivesText(text, t)
    ensures Parse(text, toDouble) ==
            var m := Meaning(text, t, toDouble);
            if m.Err? then Err(m.error) else Ok(if m.value.Some? then m.value.value else Null)
  {
    hide ParseValue, Scan, SkipBlanks, Derives, Meaning, Boundary, At;
    BoundaryBefore(text, t.to);
    TreeParses(text, 0, t, toDouble);
    Punctuation(text, t.to, SkipBlanks(text, t.to));
    SingleNul();
  }

  lemma SingleNul()
    ensures Single(0) == EndOfInput
  {
  }

  /** `parse` accepts exactly the JSON texts of RFC 7159 whose strings decode and whose numbers convert,
      and gives the document that they denote. */
  lemma ParseAcceptsGrammar(text: Bytes, toDouble: ToDouble)
    ensures Parse(text, toDouble).Ok? <==> exists t :: DerivesText(text, t) && Meaning(text, t, toDouble).Ok?
    ensures forall t | DerivesText(text, t) && Meaning(text, t, toDouble).Ok? ::
              var m := Meaning(text, t, toDouble).value; Parse(text, toDouble) == Ok(if m.Some? then m.value else Null)
  {
    hide ParseValue, Scan, SkipBlanks, Derives, Meaning, At;
    forall t | DerivesText(text, t) ensures Parse(text, toDouble).Ok? <==> Meaning(text, t, toDouble).Ok?
      ensures Meaning(text, t, toDouble).Ok? ==>
                var m := Meaning(text, t, toDouble).value;
                Parse(text, toDouble) == Ok(if m.Some? then m.value else Null)
    {
      TextParses(text, t, toDouble);
    }
    if Parse(text, toDouble).Ok? {
      var t := ValueDerived(text, 0, toDouble);
      TokenStands(text, t.to);
      assert DerivesText(text, t);
    }
  }
}
