/** When exactly the pruned parser gives the projection of the full document: a dropped value does not
    replace an earlier value with the same key, which then survives although it is out of date. */
module StaleMembers {
  import opened ByteStrings
  import opened Json
  import opened Parser
  import opened PrunedParser
  import opened Scanner
  import opened Serializer
  import opened Strings
  import opened StringTokens
  import opened TextProof
  import opened TokenGrammar
  import opened TokenReader
  import opened Tokens

  /** The last value of a key in an object: where it begins, and whether this or an earlier value of the
      same key is of a kind that the pruned parser keeps. */
  datatype Last = Last(at: nat, everKept: bool)

  function Noted(last: map<Bytes, Last>, key: Bytes, at: nat, v: Option<Json>): map<Bytes, Last> {
    if v.None? then last
    else last[key := Last(at, Kept(v.value) || (key in last && last[key].everKept))]
  }

  /** The last values of the members from `pos` on, after those noted already. */
  function Lasts(text: Bytes, pos: nat, last: map<Bytes, Last>, toDouble: ToDouble): map<Bytes, Last>
    requires pos <= |text|
    decreases |text| - pos
  {
    ScanBounds(text, pos);
    var name := Scan(text, pos);
    if name.kind != ValueString then last
    else
      StringTokenShape(text, pos);
      ScanBounds(text, name.end);
      var key, colon := StringValue(text, name), Scan(text, name.end);
      if key.Err? || colon.kind != NameSeparator then last
      else
        var v := ParseValue(text, colon.end, toDouble);
        if v.Err? then last
        else
          var noted := Noted(last, key.value, colon.end, v.value.value);
          ScanBounds(text, v.value.end);
          var next := Scan(text, v.value.end);
          if next.kind == ValueSeparator then Lasts(text, next.end, noted, toDouble) else noted
  }

  lemma {:induction false} LastsLater(text: Bytes, pos: nat, last: map<Bytes, Last>, toDouble: ToDouble)
    requires pos <= |text|
    ensures var r := Lasts(text, pos, last, toDouble);
            forall k | k in r :: (k in last && r[k].at == last[k].at) || pos < r[k].at <= |text|
    decreases |text| - pos
  {
    hide Scan, StringValue, ParseValue;
    ScanBounds(text, pos);
    var name := Scan(text, pos);
    if name.kind == ValueString {
      StringTokenShape(text, pos);
      ScanBounds(text, name.end);
      var key, colon := StringValue(text, name), Scan(text, name.end);
      if key.Ok? && colon.kind == NameSeparator {
        var v := ParseValue(text, colon.end, toDouble);
        if v.Ok? {
          ScanBounds(text, v.value.end);
          var next := Scan(text, v.value.end);
          if next.kind == ValueSeparator {
            LastsLater(text, next.end, Noted(last, key.value, colon.end, v.value.value), toDouble);
          }
        }
      }
    }
  }

  /** In the object at `pos`, every key with a value of a kind that is kept has such a value last, and the
      same holds inside that value. */
  predicate NoStaleMember(text: Bytes, pos: nat, toDouble: ToDouble)
    requires pos <= |text|
    decreases |text| - pos
  {
    ScanBounds(text, pos);
    var t := Scan(text, pos);
    t.kind == BeginObject ==>
      (LastsLater(text, t.end, map[], toDouble);
       var last := Lasts(text, t.end, map[], toDouble);
       forall k | k in last && last[k].everKept ::
         KeptAt(text, last[k].at) && NoStaleMember(text, last[k].at, toDouble))
  }

  /** The value at `pos` is an object, a string or null. */
  predicate KeptAt(text: Bytes, pos: nat) {
    var kind := Scan(text, pos).kind;
    kind == BeginObject || kind == ValueString || kind == LiteralNull
  }

  /** The first token of a value decides whether the pruned parser keeps it. */
  lemma KeptByFirstToken(text: Bytes, pos: nat)
    requires pos <= |text| && PruneValue(text, pos).Ok?
    ensures PruneValue(text, pos).value.value.Some? <==> KeptAt(text, pos)
  {
    hide Scan, StringValue, PruneMembers, PruneItems;
    ScanBounds(text, pos);
    var t := Scan(text, pos);
    if t.kind == BeginObject && Scan(text, t.end).kind != EndObject {
      MembersKept(text, t.end, map[]);
    } else if t.kind == BeginArray && Scan(text, t.end).kind != EndArray {
      ItemsDropped(text, t.end);
    } else if t.kind == ValueString {
      StringTokenShape(text, pos);
    }
  }

  lemma {:induction false} MembersKept(text: Bytes, pos: nat, members: map<Bytes, Json>)
    requires pos <= |text| && PruneMembers(text, pos, members).Ok?
    ensures PruneMembers(text, pos, members).value.value.Some?
    decreases |text| - pos
  {
    hide Scan, StringValue, PruneValue;
    ScanBounds(text, pos);
    var name := Scan(text, pos);
    StringTokenShape(text, pos);
    ScanBounds(text, name.end);
    var colon := Scan(text, name.end);
    var v := PruneValue(text, colon.end);
    ScanBounds(text, v.value.end);
    var next := Scan(text, v.value.end);
    if next.kind == ValueSeparator {
      var key := StringValue(text, name).value;
      MembersKept(text, next.end, if v.value.value.Some? then members[key := v.value.value.value] else members);
    }
  }

  lemma {:induction false} ItemsDropped(text: Bytes, pos: nat)
    requires pos <= |text| && PruneItems(text, pos).Ok?
    ensures PruneItems(text, pos).value.value.None?
    decreases |text| - pos
  {
    hide Scan, PruneValue;
    var v := PruneValue(text, pos);
    ScanBounds(text, v.value.end);
    var next := Scan(text, v.value.end);
    if next.kind == ValueSeparator {
      ItemsDropped(text, next.end);
    }
  }

  /** What the notes say about the members read so far. */
  predicate Notes(text: Bytes, full: map<Bytes, Json>, pruned: map<Bytes, Json>, last: map<Bytes, Last>,
                  toDouble: ToDouble) {
    && full.Keys == last.Keys
    && (forall k | k in last :: NoteOf(text, k, full[k], pruned, last[k], toDouble))
    && pruned.Keys <= last.Keys
  }

  predicate NoteOf(text: Bytes, key: Bytes, full: Json, pruned: map<Bytes, Json>, last: Last, toDouble: ToDouble) {
    && last.at <= |text|
    && last.everKept == (key in pruned)
    && ParseValue(text, last.at, toDouble).Ok?
    && ParseValue(text, last.at, toDouble).value.value == Some(full)
    && (Kept(full) ==> key in pruned && PruneValue(text, last.at).Ok?
                       && PruneValue(text, last.at).value.value == Some(pruned[key]))
  }

  lemma NotesStep(text: Bytes, full: map<Bytes, Json>, pruned: map<Bytes, Json>, last: map<Bytes, Last>, key: Bytes,
                  at: nat, toDouble: ToDouble)
    requires Notes(text, full, pruned, last, toDouble) && at <= |text| && ParseValue(text, at, toDouble).Ok?
    ensures PruneValue(text, at).Ok?
    ensures var f, p := ParseValue(text, at, toDouble).value.value, PruneValue(text, at).value.value;
            Notes(text, if f.Some? then full[key := f.value] else full,
                  if p.Some? then pruned[key := p.value] else pruned,
                  Noted(last, key, at, f), toDouble)
  {
    hide ParseValue, PruneValue, Agree;
    ValuesRelated(text, at, toDouble);
  }

  lemma {:induction false} MembersNoted(text: Bytes, pos: nat, full: map<Bytes, Json>, pruned: map<Bytes, Json>,
                                        last: map<Bytes, Last>, toDouble: ToDouble)
    requires pos <= |text| && Notes(text, full, pruned, last, toDouble)
    requires ParseMembers(text, pos, full, toDouble).Ok?
    ensures var f, p := ParseMembers(text, pos, full, toDouble), PruneMembers(text, pos, pruned);
            && p.Ok? && f.value.value.Some? && p.value.value.Some?
            && f.value.value.value.Obj? && p.value.value.value.Obj?
            && Notes(text, f.value.value.value.members, p.value.value.value.members, Lasts(text, pos, last, toDouble),
                     toDouble)
    decreases |text| - pos
  {
    hide Scan, StringValue, ParseValue, PruneValue, Notes, Noted;
    ScanBounds(text, pos);
    var name := Scan(text, pos);
    StringTokenShape(text, pos);
    ScanBounds(text, name.end);
    var colon := Scan(text, name.end);
    var key := StringValue(text, name).value;
    NotesStep(text, full, pruned, last, key, colon.end, toDouble);
    ValuesRelated(text, colon.end, toDouble);
    var f, p := ParseValue(text, colon.end, toDouble), PruneValue(text, colon.end);
    ScanBounds(text, f.value.end);
    var next := Scan(text, f.value.end);
    if next.kind == ValueSeparator {
      MembersNoted(text, next.end, if f.value.value.Some? then full[key := f.value.value.value] else full,
                   if p.value.value.Some? then pruned[key := p.value.value.value] else pruned,
                   Noted(last, key, colon.end, f.value.value), toDouble);
    }
  }

  /** The pruned value is the projection of the full one exactly if no member of it is stale. */
  lemma {:induction false} ProjectedIff(text: Bytes, pos: nat, toDouble: ToDouble)
    requires pos <= |text| && ParseValue(text, pos, toDouble).Ok?
    ensures PruneValue(text, pos).Ok?
    ensures PruneValue(text, pos).value.value == ProjectionOption(ParseValue(text, pos, toDouble).value.value)
            <==> NoStaleMember(text, pos, toDouble)
    decreases |text| - pos, 1
  {
    hide Scan, StringValue, NumberValue, ParseMembers, ParseItems, PruneMembers, PruneItems, Lasts, Agree, Notes,
         Projection, ParseValue, PruneValue, NoStaleMember;
    ValuesRelated(text, pos, toDouble);
    ScanBounds(text, pos);
    var t := Scan(text, pos);
    if t.kind == BeginObject {
      ObjectProjectedIff(text, pos, toDouble);
    } else {
      OtherProjected(text, pos, toDouble);
    }
  }

  lemma OtherProjected(text: Bytes, pos: nat, toDouble: ToDouble)
    requires pos <= |text| && ParseValue(text, pos, toDouble).Ok? && Scan(text, pos).kind != BeginObject
    ensures PruneValue(text, pos).Ok? && NoStaleMember(text, pos, toDouble)
    ensures PruneValue(text, pos).value.value == ProjectionOption(ParseValue(text, pos, toDouble).value.value)
  {
    hide Scan, StringValue, NumberValue, ParseMembers, ParseItems, PruneMembers, PruneItems, Lasts, Agree;
    ValuesRelated(text, pos, toDouble);
    ScanBounds(text, pos);
    var t := Scan(text, pos);
    if t.kind == ValueUnsigned || t.kind == ValueInteger || t.kind == ValueFloat {
      NumberDropped(t.kind, text[t.start..], t.end - t.start, toDouble);
    } else if t.kind == BeginArray && Scan(text, t.end).kind != EndArray {
      ItemsGiveArray(text, t.end, [], toDouble);
    }
  }

  lemma {:induction false} ItemsGiveArray(text: Bytes, pos: nat, items: seq<Json>, toDouble: ToDouble)
    requires pos <= |text| && ParseItems(text, pos, items, toDouble).Ok?
    ensures ParseItems(text, pos, items, toDouble).value.value.Some?
            && ParseItems(text, pos, items, toDouble).value.value.value.Arr?
    decreases |text| - pos
  {
    hide Scan, ParseValue;
    var v := ParseValue(text, pos, toDouble);
    ScanBounds(text, v.value.end);
    var next := Scan(text, v.value.end);
    if next.kind == ValueSeparator {
      ItemsGiveArray(text, next.end, if v.value.value.Some? then items + [v.value.value.value] else items, toDouble);
    }
  }

  lemma {:induction false} ObjectProjectedIff(text: Bytes, pos: nat, toDouble: ToDouble)
    requires pos <= |text| && ParseValue(text, pos, toDouble).Ok? && Scan(text, pos).kind == BeginObject
    ensures PruneValue(text, pos).Ok?
    ensures PruneValue(text, pos).value.value == ProjectionOption(ParseValue(text, pos, toDouble).value.value)
            <==> NoStaleMember(text, pos, toDouble)
    decreases |text| - pos, 0
  {
    hide Scan, StringValue, NumberValue, ParseMembers, PruneMembers, Lasts, Agree, NoteOf, Projection;
    ScanBounds(text, pos);
    var t := Scan(text, pos);
    ScanBounds(text, t.end);
    var last := Lasts(text, t.end, map[], toDouble);
    if Scan(text, t.end).kind == EndObject {
      NothingProjected();
      NoMembers(text, t.end, toDouble);
    } else {
      MembersNoted(text, t.end, map[], map[], map[], toDouble);
      var f, p := ParseValue(text, pos, toDouble).value.value.value.members,
          PruneValue(text, pos).value.value.value.members;
      NotesGive(text, f, p, last, toDouble);
      LastsLater(text, t.end, map[], toDouble);
      forall k | k in last && last[k].everKept
        ensures last[k].at <= |text|
        ensures Kept(f[k]) && p[k] == Projection(f[k])
                <==> KeptAt(text, last[k].at) && NoStaleMember(text, last[k].at, toDouble)
      {
        MemberIff(text, k, f[k], p, last[k], toDouble);
      }
      ProjectionOfMembers(f, p, last);
    }
  }

  lemma NoMembers(text: Bytes, pos: nat, toDouble: ToDouble)
    requires pos <= |text| && Scan(text, pos).kind == EndObject
    ensures Lasts(text, pos, map[], toDouble) == map[]
  {
    hide Scan;
  }

  lemma {:induction false} MemberIff(text: Bytes, key: Bytes, full: Json, pruned: map<Bytes, Json>, last: Last,
                                     toDouble: ToDouble)
    requires NoteOf(text, key, full, pruned, last, toDouble) && last.everKept
    ensures Kept(full) && pruned[key] == Projection(full)
            <==> KeptAt(text, last.at) && NoStaleMember(text, last.at, toDouble)
    decreases |text| - last.at, 2
  {
    hide ParseValue, PruneValue, NoStaleMember, Projection, Agree, KeptAt;
    ValuesRelated(text, last.at, toDouble);
    KeptByFirstToken(text, last.at);
    if Kept(full) {
      ProjectedIff(text, last.at, toDouble);
    }
  }

  lemma NotesGive(text: Bytes, full: map<Bytes, Json>, pruned: map<Bytes, Json>, last: map<Bytes, Last>,
                  toDouble: ToDouble)
    requires Notes(text, full, pruned, last, toDouble)
    ensures full.Keys == last.Keys && pruned.Keys <= last.Keys
    ensures forall k | k in last :: NoteOf(text, k, full[k], pruned, last[k], toDouble)
    ensures forall k | k in last :: last[k].everKept == (k in pruned) && (Kept(full[k]) ==> k in pruned)
  {
    hide ParseValue, PruneValue;
  }

  lemma ProjectionOfMembers(full: map<Bytes, Json>, pruned: map<Bytes, Json>, last: map<Bytes, Last>)
    requires full.Keys == last.Keys && pruned.Keys <= last.Keys
    requires forall k | k in last :: last[k].everKept == (k in pruned) && (Kept(full[k]) ==> k in pruned)
    ensures Obj(pruned) == Projection(Obj(full)) <==>
            forall k | k in last && last[k].everKept :: Kept(full[k]) && pruned[k] == Projection(full[k])
  {
    var projected := Projection(Obj(full)).members;
    if forall k | k in last && last[k].everKept :: Kept(full[k]) && pruned[k] == Projection(full[k]) {
      assert pruned == projected;
    } else {
      var k :| k in last && last[k].everKept && !(Kept(full[k]) && pruned[k] == Projection(full[k]));
      assert k in pruned && (k !in projected || projected[k] != pruned[k]);
    }
  }

  lemma NothingProjected()
    ensures Projection(Obj(map[])) == Obj(map[])
  {
    assert Projection(Obj(map[])).members == map[];
  }

  /** Where the full parser succeeds, the pruned one gives exactly the projection if and only if no member
      is stale. */
  lemma PrunedIsProjectionIff(text: Bytes, toDouble: ToDouble)
    requires Parse(text, toDouble).Ok?
    ensures var full := Parse(text, toDouble).value;
            Prune(text) == Ok(if Kept(full) then Projection(full) else Null) <==> NoStaleMember(text, 0, toDouble)
  {
    hide ParseValue, PruneValue, Scan, NoStaleMember, Projection, Agree;
    ValuesRelated(text, 0, toDouble);
    ProjectedIff(text, 0, toDouble);
    NullProjected();
  }

  lemma NullProjected()
    ensures Projection(Null) == Null
  {
  }

  // ---- repeated keys ----

  predicate UniqueNote(text: Bytes, last: Last, toDouble: ToDouble) {
    last.at <= |text| && UniqueValue(text, last.at) && (last.everKept ==> KeptAt(text, last.at))
  }

  predicate UniqueNotes(text: Bytes, last: map<Bytes, Last>, toDouble: ToDouble) {
    forall k | k in last :: UniqueNote(text, last[k], toDouble)
  }

  lemma {:induction false} UniqueLasts(text: Bytes, pos: nat, last: map<Bytes, Last>, seen: set<Bytes>,
                                       toDouble: ToDouble)
    requires pos <= |text| && UniqueMembers(text, pos, seen) && last.Keys <= seen
    requires UniqueNotes(text, last, toDouble)
    ensures UniqueNotes(text, Lasts(text, pos, last, toDouble), toDouble)
    decreases |text| - pos
  {
    hide Scan, StringValue, ParseValue, PruneValue, UniqueValue, Agree, KeptAt;
    ScanBounds(text, pos);
    var name := Scan(text, pos);
    if name.kind == ValueString {
      StringTokenShape(text, pos);
      ScanBounds(text, name.end);
      var key, colon := StringValue(text, name), Scan(text, name.end);
      if key.Ok? && colon.kind == NameSeparator {
        var v := ParseValue(text, colon.end, toDouble);
        ValuesRelated(text, colon.end, toDouble);
        if v.Ok? {
          KeptByFirstToken(text, colon.end);
          ScanBounds(text, v.value.end);
          var next := Scan(text, v.value.end);
          if next.kind == ValueSeparator {
            UniqueLasts(text, next.end, Noted(last, key.value, colon.end, v.value.value), seen + {key.value}, toDouble);
          }
        }
      }
    }
  }

  lemma {:induction false} UniqueIsNotStale(text: Bytes, pos: nat, toDouble: ToDouble)
    requires pos <= |text| && UniqueValue(text, pos)
    ensures NoStaleMember(text, pos, toDouble)
    decreases |text| - pos
  {
    hide Scan, ParseValue, PruneValue, UniqueMembers, Lasts, KeptAt;
    ScanBounds(text, pos);
    var t := Scan(text, pos);
    if t.kind == BeginObject {
      UniqueLasts(text, t.end, map[], {}, toDouble);
      LastsLater(text, t.end, map[], toDouble);
      var last := Lasts(text, t.end, map[], toDouble);
      forall k | k in last && last[k].everKept ensures NoStaleMember(text, last[k].at, toDouble) {
        UniqueIsNotStale(text, last[k].at, toDouble);
      }
    }
  }

  /** On a text in which no object repeats a key the pruned parser gives exactly the projection. */
  lemma PrunedIsProjection(text: Bytes, toDouble: ToDouble)
    requires UniqueValue(text, 0) && Parse(text, toDouble).Ok?
    ensures var full := Parse(text, toDouble).value; Prune(text) == Ok(if Kept(full) then Projection(full) else Null)
  {
    hide Parse, Prune, UniqueValue, NoStaleMember, Projection;
    UniqueIsNotStale(text, 0, toDouble);
    PrunedIsProjectionIff(text, toDouble);
  }

  /** `{"":null,"":true}`: the pruned parser keeps the null, which the full parser has replaced. */
  const REPEATED_KEY: Bytes := [0x7B, 0x22, 0x22, 0x3A, 0x6E, 0x75, 0x6C, 0x6C, 0x2C, 0x22, 0x22, 0x3A, 0x74, 0x72,
                                0x75, 0x65, 0x7D]

  lemma RepeatedKeyMarks()
    ensures Scan(REPEATED_KEY, 0) == Token(BeginObject, 0, 1) && Scan(REPEATED_KEY, 3) == Token(NameSeparator, 3, 4)
    ensures Scan(REPEATED_KEY, 8) == Token(ValueSeparator, 8, 9)
            && Scan(REPEATED_KEY, 11) == Token(NameSeparator, 11, 12)
    ensures Scan(REPEATED_KEY, 16) == Token(EndObject, 16, 17) && Scan(REPEATED_KEY, 17) == Token(EndOfInput, 17, 18)
  {
    hide Scan, SkipBlanks;
    forall k | k in [0, 3, 8, 11, 16, 17]
      ensures Scan(REPEATED_KEY, k) == Token(Single(At(REPEATED_KEY, k)), k, k + 1)
    {
      SkipTo(REPEATED_KEY, k, k);
      Punctuation(REPEATED_KEY, k, k);
    }
  }

  lemma LiteralThere(p: nat, literal: Bytes)
    requires (p == 4 && literal == NULL_TEXT) || (p == 12 && literal == TRUE_TEXT)
    ensures Stands(REPEATED_KEY, p, literal)
  {
    hide Stands;
    assert |literal| == 4;
    assert At(REPEATED_KEY, p) == literal[0] && At(REPEATED_KEY, p + 1) == literal[1];
    assert At(REPEATED_KEY, p + 2) == literal[2] && At(REPEATED_KEY, p + 3) == literal[3];
    StandsBytes(REPEATED_KEY, p, literal);
  }

  lemma RepeatedKeyValues()
    ensures Scan(REPEATED_KEY, 1) == Token(ValueString, 1, 3)
            && StringValue(REPEATED_KEY, Token(ValueString, 1, 3)) == Ok([])
    ensures Scan(REPEATED_KEY, 9) == Token(ValueString, 9, 11)
            && StringValue(REPEATED_KEY, Token(ValueString, 9, 11)) == Ok([])
    ensures Scan(REPEATED_KEY, 4) == Token(LiteralNull, 4, 8) && Scan(REPEATED_KEY, 12) == Token(LiteralTrue, 12, 16)
  {
    hide Scan, SkipBlanks, Decode;
    var text := REPEATED_KEY;
    LiteralThere(4, NULL_TEXT);
    LiteralThere(12, TRUE_TEXT);
    assert StringText([]) == [QUOTE, QUOTE];
    assert text[1] == text[2] == text[9] == text[10] == QUOTE;
    forall k | k in [1, 4, 9, 12] ensures SkipBlanks(text, k) == k {
      SkipTo(text, k, k);
    }
    WrittenString(text, 1, 1, []);
    WrittenString(text, 9, 9, []);
    Literal(text, 4, 4, NULL_TEXT);
    Literal(text, 12, 12, TRUE_TEXT);
  }

  lemma StaleMemberSurvives(toDouble: ToDouble)
    ensures Parse(REPEATED_KEY, toDouble) == Ok(Obj(map[[] := Bool(true)]))
    ensures Prune(REPEATED_KEY) == Ok(Obj(map[[] := Null]))
  {
    hide Scan, StringValue;
    RepeatedKeyMarks();
    RepeatedKeyValues();
    var text := REPEATED_KEY;
    var first: map<Bytes, Json> := map[[] := Null];
    var second: map<Bytes, Json> := map[[] := Bool(true)];
    assert first[[] := Bool(true)] == second && map[][[] := Null] == first;
    assert MoreMembers(text, 16, second, toDouble) == Ok(ParsedValue(Some(Obj(second)), 17));
    assert ParseMembers(text, 9, first, toDouble) == MoreMembers(text, 16, second, toDouble);
    assert MoreMembers(text, 8, first, toDouble) == ParseMembers(text, 9, first, toDouble);
    assert ParseMembers(text, 1, map[], toDouble) == MoreMembers(text, 8, first, toDouble);
    assert MorePruned(text, 16, first) == Ok(ParsedValue(Some(Obj(first)), 17));
    assert PruneMembers(text, 9, first) == MorePruned(text, 16, first);
    assert MorePruned(text, 8, first) == PruneMembers(text, 9, first);
    assert PruneMembers(text, 1, map[]) == MorePruned(text, 8, first);
  }
}
