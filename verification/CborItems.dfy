/** The data items of RFC 7049 that stand for JSON documents: how they are written, in every width and form,
    what they mean, and the proof that the decoder accepts exactly them. */
module CborItems {
  import opened Binary
  import opened ByteStrings
  import opened Cbor
  import opened Json

  /** A data item. `width` is the number of bytes that follow the initial byte for the argument. */
  datatype Item =
    | Unsigned(width: nat, n: nat)
    | Negative(width: nat, n: nat)
    | Text(width: nat, s: Bytes)
    | Chunks(chunks: seq<Item>)
    | Array(width: nat, items: seq<Item>)
    | OpenArray(items: seq<Item>)
    | Object(width: nat, members: seq<Member>)
    | OpenObject(members: seq<Member>)
    | FalseItem
    | TrueItem
    | NullItem
    | Half(bits: nat)
    | Single(bits: nat)
    | Double(bits: nat)

  datatype Member = Member(key: Item, value: Item)

  // ---- how items are written, sections 2.1 to 2.3 of RFC 7049 ----

  /** The argument fits: up to 23 in the initial byte, otherwise in 1, 2, 4 or 8 bytes. */
  predicate Fits(width: nat, n: nat) {
    || (width == 0 && n <= 23)
    || (width == 1 && n < 0x100)
    || (width == 2 && n < 0x1_0000)
    || (width == 4 && n < 0x1_0000_0000)
    || (width == 8 && n < 0x1_0000_0000_0000_0000)
  }

  /** The initial byte, from the first one of its major type on, and the argument. */
  function Argument(first: byte, width: nat, n: nat): Bytes
    requires first <= 0xE0 && Fits(width, n)
  {
    if width == 0 then [first + n]
    else [first + (if width == 1 then 24 else if width == 2 then 25 else if width == 4 then 26 else 27)]
         + BigEndian(n, width)
  }

  predicate IsText(t: Item) {
    t.Text? || t.Chunks?
  }

  predicate WellFormed(t: Item) {
    match t
    case Unsigned(width, n) => Fits(width, n)
    case Negative(width, n) => Fits(width, n)
    case Text(width, s) => Fits(width, |s|)
    case Chunks(chunks) => forall k | 0 <= k < |chunks| :: IsText(chunks[k]) && WellFormed(chunks[k])
    case Array(width, items) => Fits(width, |items|) && forall k | 0 <= k < |items| :: WellFormed(items[k])
    case OpenArray(items) => forall k | 0 <= k < |items| :: WellFormed(items[k])
    case Object(width, members) =>
      Fits(width, |members|) && forall k | 0 <= k < |members| :: WellFormedMember(members[k])
    case OpenObject(members) => forall k | 0 <= k < |members| :: WellFormedMember(members[k])
    case Half(bits) => bits < 0x1_0000
    case Single(bits) => bits < 0x1_0000_0000
    case Double(bits) => bits < 0x1_0000_0000_0000_0000
    case _ => true
  }

  /** A member has a text for its key. */
  predicate WellFormedMember(m: Member) {
    IsText(m.key) && WellFormed(m.key) && WellFormed(m.value)
  }

  function Written(t: Item): Bytes
    requires WellFormed(t)
  {
    match t
    case Unsigned(width, n) => Argument(0x00, width, n)
    case Negative(width, n) => Argument(0x20, width, n)
    case Text(width, s) => Argument(0x60, width, |s|) + s
    case Chunks(chunks) => [0x7F] + (WrittenItems(chunks) + [0xFF])
    case Array(width, items) => Argument(0x80, width, |items|) + WrittenItems(items)
    case OpenArray(items) => [0x9F] + (WrittenItems(items) + [0xFF])
    case Object(width, members) => Argument(0xA0, width, |members|) + WrittenMembers(members)
    case OpenObject(members) => [0xBF] + (WrittenMembers(members) + [0xFF])
    case FalseItem => [0xF4]
    case TrueItem => [0xF5]
    case NullItem => [0xF6]
    case Half(bits) => [0xF9] + BigEndian(bits, 2)
    case Single(bits) => [0xFA] + BigEndian(bits, 4)
    case Double(bits) => [0xFB] + BigEndian(bits, 8)
  }

  function WrittenItems(items: seq<Item>): Bytes
    requires forall k | 0 <= k < |items| :: WellFormed(items[k])
  {
    if items == [] then [] else Written(items[0]) + WrittenItems(items[1..])
  }

  function WrittenMember(m: Member): Bytes
    requires WellFormedMember(m)
  {
    Written(m.key) + Written(m.value)
  }

  function WrittenMembers(members: seq<Member>): Bytes
    requires forall k | 0 <= k < |members| :: WellFormedMember(members[k])
  {
    if members == [] then [] else WrittenMember(members[0]) + WrittenMembers(members[1..])
  }

  // ---- what items mean ----

  /** Negative numbers count down from -1. The argument is converted to a signed number first, so that one from
      2^63 on means what is left of it modulo 2^64. */
  function Meaning(t: Item): Json
    requires WellFormed(t)
  {
    match t
    case Unsigned(_, n) => Uint(n)
    case Negative(_, n) => Int(if n < 0x8000_0000_0000_0000 then -1 - n else 0xFFFF_FFFF_FFFF_FFFF - n)
    case Text(_, s) => Str(s)
    case Chunks(chunks) => Str(TextOf(t))
    case Array(_, items) => Arr(Meanings(items))
    case OpenArray(items) => Arr(Meanings(items))
    case Object(_, members) => Obj(Members(members, map[]))
    case OpenObject(members) => Obj(Members(members, map[]))
    case FalseItem => Bool(false)
    case TrueItem => Bool(true)
    case NullItem => Null
    case Half(bits) => Float(HalfToDouble(bits))
    case Single(bits) => Float(SingleToDouble(bits))
    case Double(bits) => Float(bits)
  }

  /** The chunks of a text are joined. */
  function TextOf(t: Item): Bytes
    requires IsText(t) && WellFormed(t)
  {
    match t
    case Text(_, s) => s
    case Chunks(chunks) => Joined(chunks)
  }

  function Joined(chunks: seq<Item>): Bytes
    requires forall k | 0 <= k < |chunks| :: IsText(chunks[k]) && WellFormed(chunks[k])
  {
    if chunks == [] then [] else TextOf(chunks[0]) + Joined(chunks[1..])
  }

  function Meanings(items: seq<Item>): seq<Json>
    requires forall k | 0 <= k < |items| :: WellFormed(items[k])
  {
    if items == [] then [] else [Meaning(items[0])] + Meanings(items[1..])
  }

  function MemberValue(m: Member): Json
    requires WellFormedMember(m)
  {
    Meaning(m.value)
  }

  function KeyOf(m: Member): Bytes
    requires WellFormedMember(m)
  {
    TextOf(m.key)
  }

  /** Of members with the same key the last one counts. */
  function Members(members: seq<Member>, before: map<Bytes, Json>): map<Bytes, Json>
    requires forall k | 0 <= k < |members| :: WellFormedMember(members[k])
    decreases members
  {
    if members == [] then before
    else Members(members[1..], before[KeyOf(members[0]) := MemberValue(members[0])])
  }

  // ---- every item is decoded ----

  lemma ArgumentThere(v: Vector, idx: nat, first: byte, width: nat, n: nat)
    requires first <= 0xE0 && first % 0x20 == 0 && Fits(width, n) && Stands(v, idx, Argument(first, width, n))
    ensures idx < |v| && first <= v[idx] <= first + 0x1B && v[idx] / 0x20 == first / 0x20 && v[idx] % 0x20 <= 0x1B
    ensures ReadArgument(v, idx) == Ok(Parsed(n, idx + |Argument(first, width, n)|))
    ensures LengthOk(|v|, 1, idx)
  {
    hide BigEndian, Capacity, ReadNumber;
    Capacities();
    assert v[idx..idx + |Argument(first, width, n)|][0] == v[idx];
    LengthOkMeansInside(|v|, 1, idx);
    if width > 0 {
      ReadBack(v, idx, v[idx], n, width, 0);
    }
  }

  lemma DecodeNumber(v: Vector, idx: nat, n: Parsed<nat>)
    requires idx < |v| && v[idx] % 0x20 <= 0x1B && ReadArgument(v, idx) == Ok(n)
    ensures v[idx] <= 0x1B ==> Decode(v, idx) == Ok(Parsed(Uint(n.value), n.next))
    ensures 0x20 <= v[idx] <= 0x3B ==> Decode(v, idx) == Ok(Parsed(Int(-1 - ToInt64(n.value)), n.next))
    ensures 0x60 <= v[idx] <= 0x7B ==>
              Decode(v, idx) ==
              if LengthOk(|v|, n.value, n.next) then Ok(Parsed(Str(v[n.next..n.next + n.value]), n.next + n.value))
              else Err(ParseError(110))
    ensures 0x80 <= v[idx] <= 0x9B ==>
              var a := DecodeItems(v, n.next, n.value);
              Decode(v, idx) == if a.Ok? then Ok(Parsed(Arr(a.value.value), a.value.next)) else Err(a.error)
    ensures 0xA0 <= v[idx] <= 0xBB ==>
              var m := DecodeMembers(v, n.next, n.value, map[]);
              Decode(v, idx) == if m.Ok? then Ok(Parsed(Obj(m.value.value), m.value.next)) else Err(m.error)
  {
    hide ReadArgument, DecodeItems, DecodeMembers;
    LengthOkMeansInside(|v|, 1, idx);
  }

  lemma DecodeOpen(v: Vector, idx: nat)
    requires idx < |v|
    ensures v[idx] == 0x7F ==>
              var s := DecodeChunks(v, idx + 1);
              Decode(v, idx) == if s.Ok? then Ok(Parsed(Str(s.value.value), s.value.next)) else Err(s.error)
    ensures v[idx] == 0x9F ==>
              var a := DecodeOpenItems(v, idx + 1);
              Decode(v, idx) == if a.Ok? then Ok(Parsed(Arr(a.value.value), a.value.next)) else Err(a.error)
    ensures v[idx] == 0xBF ==>
              var m := DecodeOpenMembers(v, idx + 1, map[]);
              Decode(v, idx) == if m.Ok? then Ok(Parsed(Obj(m.value.value), m.value.next)) else Err(m.error)
  {
    hide ReadArgument, DecodeChunks, DecodeOpenItems, DecodeOpenMembers;
    LengthOkMeansInside(|v|, 1, idx);
  }

  lemma DecodeSimple(v: Vector, idx: nat)
    requires idx < |v|
    ensures v[idx] == 0xF4 ==> Decode(v, idx) == Ok(Parsed(Bool(false), idx + 1))
    ensures v[idx] == 0xF5 ==> Decode(v, idx) == Ok(Parsed(Bool(true), idx + 1))
    ensures v[idx] == 0xF6 ==> Decode(v, idx) == Ok(Parsed(Null, idx + 1))
    ensures 0xF9 <= v[idx] <= 0xFB ==> Decode(v, idx) == DecodeFloat(v, idx)
  {
    hide ReadArgument, DecodeFloat;
    LengthOkMeansInside(|v|, 1, idx);
  }

  lemma FloatThere(v: Vector, idx: nat, first: byte, width: nat, bits: nat)
    requires (first == 0xF9 && width == 2) || (first == 0xFA && width == 4) || (first == 0xFB && width == 8)
    requires bits < Capacity(width) && Stands(v, idx, [first] + BigEndian(bits, width))
    ensures idx < |v| && v[idx] == first && ReadNumber(v, idx, width) == Ok(bits)
  {
    hide BigEndian, Capacity;
    FirstThere(v, idx, first, BigEndian(bits, width));
    ReadBack(v, idx, first, bits, width, 0);
  }

  /** Wherever an item stands in a vector, the decoder gives its meaning and stops behind it. */
  lemma {:induction false} ItemDecodes(t: Item, v: Vector, idx: nat)
    requires WellFormed(t) && Stands(v, idx, Written(t))
    ensures Decode(v, idx) == Ok(Parsed(Meaning(t), idx + |Written(t)|))
    decreases t, 1
  {
    hide Decode, Argument, ReadArgument, ReadNumber, Stands, BigEndian, Capacity, HalfToDouble, SingleToDouble,
         WrittenItems, WrittenMembers, Members, Meanings, Joined;
    match t
    case Unsigned(width, n) =>
      ArgumentThere(v, idx, 0x00, width, n);
      DecodeNumber(v, idx, ReadArgument(v, idx).value);
    case Negative(width, n) =>
      ArgumentThere(v, idx, 0x20, width, n);
      DecodeNumber(v, idx, ReadArgument(v, idx).value);
    case Text(width, s) =>
      StandsParts(v, idx, Argument(0x60, width, |s|), s);
      ArgumentThere(v, idx, 0x60, width, |s|);
      DecodeNumber(v, idx, ReadArgument(v, idx).value);
      TextThere(v, ReadArgument(v, idx).value.next, s);
    case Chunks(_) => OpenDecodes(t, v, idx);
    case Array(_, _) => ContainerDecodes(t, v, idx);
    case OpenArray(_) => OpenDecodes(t, v, idx);
    case Object(_, _) => ContainerDecodes(t, v, idx);
    case OpenObject(_) => OpenDecodes(t, v, idx);
    case FalseItem => SimpleThere(v, idx, 0xF4);
    case TrueItem => SimpleThere(v, idx, 0xF5);
    case NullItem => SimpleThere(v, idx, 0xF6);
    case _ => FloatDecodes(t, v, idx);
  }

  lemma {:induction false} ContainerDecodes(t: Item, v: Vector, idx: nat)
    requires (t.Array? || t.Object?) && WellFormed(t) && Stands(v, idx, Written(t))
    ensures Decode(v, idx) == Ok(Parsed(Meaning(t), idx + |Written(t)|))
    decreases t, 0
  {
    hide Decode, Argument, ReadArgument, Stands, WrittenItems, WrittenMembers, Members, Meanings;
    match t
    case Array(width, items) =>
      StandsParts(v, idx, Argument(0x80, width, |items|), WrittenItems(items));
      ArgumentThere(v, idx, 0x80, width, |items|);
      DecodeNumber(v, idx, ReadArgument(v, idx).value);
      ItemsDecode(items, v, ReadArgument(v, idx).value.next);
    case Object(width, members) =>
      StandsParts(v, idx, Argument(0xA0, width, |members|), WrittenMembers(members));
      ArgumentThere(v, idx, 0xA0, width, |members|);
      DecodeNumber(v, idx, ReadArgument(v, idx).value);
      MembersDecode(members, v, ReadArgument(v, idx).value.next, map[]);
  }

  lemma {:induction false} OpenDecodes(t: Item, v: Vector, idx: nat)
    requires (t.Chunks? || t.OpenArray? || t.OpenObject?) && WellFormed(t) && Stands(v, idx, Written(t))
    ensures Decode(v, idx) == Ok(Parsed(Meaning(t), idx + |Written(t)|))
    decreases t, 0
  {
    hide Decode, Stands, WrittenItems, WrittenMembers, Members, Meanings, Joined;
    match t
    case Chunks(chunks) =>
      FirstThere(v, idx, 0x7F, WrittenItems(chunks) + [0xFF]);
      DecodeOpen(v, idx);
      ChunksDecode(chunks, v, idx + 1);
    case OpenArray(items) =>
      FirstThere(v, idx, 0x9F, WrittenItems(items) + [0xFF]);
      DecodeOpen(v, idx);
      OpenItemsDecode(items, v, idx + 1);
    case OpenObject(members) =>
      FirstThere(v, idx, 0xBF, WrittenMembers(members) + [0xFF]);
      DecodeOpen(v, idx);
      OpenMembersDecode(members, v, idx + 1, map[]);
  }

  lemma FloatDecodes(t: Item, v: Vector, idx: nat)
    requires (t.Half? || t.Single? || t.Double?) && WellFormed(t) && Stands(v, idx, Written(t))
    ensures Decode(v, idx) == Ok(Parsed(Meaning(t), idx + |Written(t)|))
  {
    hide Decode, ReadNumber, Stands, BigEndian, Capacity, HalfToDouble, SingleToDouble;
    Capacities();
    match t
    case Half(bits) =>
      FloatThere(v, idx, 0xF9, 2, bits);
      DecodeSimple(v, idx);
    case Single(bits) =>
      FloatThere(v, idx, 0xFA, 4, bits);
      DecodeSimple(v, idx);
    case Double(bits) =>
      FloatThere(v, idx, 0xFB, 8, bits);
      DecodeSimple(v, idx);
  }

  lemma SimpleThere(v: Vector, idx: nat, first: byte)
    requires Stands(v, idx, [first])
    ensures idx < |v| && v[idx] == first
    ensures first == 0xF4 ==> Decode(v, idx) == Ok(Parsed(Bool(false), idx + 1))
    ensures first == 0xF5 ==> Decode(v, idx) == Ok(Parsed(Bool(true), idx + 1))
    ensures first == 0xF6 ==> Decode(v, idx) == Ok(Parsed(Null, idx + 1))
  {
    hide Decode;
    assert v[idx..idx + 1][0] == v[idx];
    DecodeSimple(v, idx);
  }

  lemma BreakThere(v: Vector, idx: nat)
    requires Stands(v, idx, [0xFF])
    ensures idx < |v| && v[idx] == 0xFF && LengthOk(|v|, 1, idx)
  {
    assert v[idx..idx + 1][0] == v[idx];
  }

  lemma {:induction false} ItemsDecode(items: seq<Item>, v: Vector, idx: nat)
    requires (forall k | 0 <= k < |items| :: WellFormed(items[k])) && Stands(v, idx, WrittenItems(items))
    ensures idx <= |v| && DecodeItems(v, idx, |items|) == Ok(Parsed(Meanings(items), idx + |WrittenItems(items)|))
    decreases items
  {
    hide Decode, Written, Meaning, WellFormed, Stands;
    Inside(v, idx, WrittenItems(items));
    if items != [] {
      var first, rest := Written(items[0]), WrittenItems(items[1..]);
      StandsParts(v, idx, first, rest);
      ItemDecodes(items[0], v, idx);
      ItemsDecode(items[1..], v, idx + |first|);
    }
  }

  lemma {:induction false} OpenItemsDecode(items: seq<Item>, v: Vector, idx: nat)
    requires (forall k | 0 <= k < |items| :: WellFormed(items[k])) && Stands(v, idx, WrittenItems(items) + [0xFF])
    ensures idx <= |v|
    ensures DecodeOpenItems(v, idx) == Ok(Parsed(Meanings(items), idx + |WrittenItems(items)| + 1))
    decreases items
  {
    hide Decode, Written, Meaning, WellFormed, Stands;
    if items == [] {
      assert [] + [0xFF] == [0xFF];
      BreakThere(v, idx);
    } else {
      var first, rest := Written(items[0]), WrittenItems(items[1..]);
      assert first + rest + [0xFF] == first + (rest + [0xFF]);
      StandsParts(v, idx, first, rest + [0xFF]);
      ItemDecodes(items[0], v, idx);
      NoBreak(v, idx);
      OpenItemsDecode(items[1..], v, idx + |first|);
    }
  }

  /** Nothing that is decoded begins with the break byte. */
  lemma NoBreak(v: Vector, idx: nat)
    requires Decode(v, idx).Ok?
    ensures idx < |v| && v[idx] != 0xFF && LengthOk(|v|, 1, idx)
  {
    hide ReadArgument, DecodeItems, DecodeMembers, DecodeChunks, DecodeOpenItems, DecodeOpenMembers, DecodeFloat;
    LengthOkMeansInside(|v|, 1, idx);
  }

  lemma {:induction false} ChunksDecode(chunks: seq<Item>, v: Vector, idx: nat)
    requires forall k | 0 <= k < |chunks| :: IsText(chunks[k]) && WellFormed(chunks[k])
    requires Stands(v, idx, WrittenItems(chunks) + [0xFF])
    ensures idx <= |v| && DecodeChunks(v, idx) == Ok(Parsed(Joined(chunks), idx + |WrittenItems(chunks)| + 1))
    decreases chunks
  {
    hide Decode, Written, Meaning, WellFormed, TextOf, Stands;
    if chunks == [] {
      assert [] + [0xFF] == [0xFF];
      BreakThere(v, idx);
    } else {
      var first, rest := Written(chunks[0]), WrittenItems(chunks[1..]);
      assert first + rest + [0xFF] == first + (rest + [0xFF]);
      StandsParts(v, idx, first, rest + [0xFF]);
      ItemDecodes(chunks[0], v, idx);
      TextMeaning(chunks[0]);
      NoBreak(v, idx);
      ChunksDecode(chunks[1..], v, idx + |first|);
    }
  }

  lemma TextMeaning(t: Item)
    requires IsText(t) && WellFormed(t)
    ensures Meaning(t) == Str(TextOf(t))
  {
  }

  /** A text as a key. */
  lemma {:induction false} KeyDecodes(t: Item, v: Vector, idx: nat)
    requires IsText(t) && WellFormed(t) && Stands(v, idx, Written(t))
    ensures idx <= |v| && DecodeKey(v, idx) == Ok(Parsed(TextOf(t), idx + |Written(t)|))
    ensures idx < |v| && v[idx] != 0xFF && LengthOk(|v|, 1, idx)
    decreases t, 2
  {
    hide Decode, Written, Meaning, TextOf;
    ItemDecodes(t, v, idx);
    TextMeaning(t);
    NoBreak(v, idx);
    TextFirst(t, v, idx);
  }

  lemma TextFirst(t: Item, v: Vector, idx: nat)
    requires IsText(t) && WellFormed(t) && Stands(v, idx, Written(t))
    ensures idx < |v| && (0x60 <= v[idx] <= 0x7B || v[idx] == 0x7F)
  {
    hide BigEndian, WrittenItems;
    assert v[idx..idx + |Written(t)|][0] == v[idx];
  }

  lemma {:induction false} MembersDecode(members: seq<Member>, v: Vector, idx: nat, before: map<Bytes, Json>)
    requires (forall k | 0 <= k < |members| :: WellFormedMember(members[k])) && Stands(v, idx, WrittenMembers(members))
    ensures idx <= |v|
    ensures DecodeMembers(v, idx, |members|, before) ==
            Ok(Parsed(Members(members, before), idx + |WrittenMembers(members)|))
    decreases members
  {
    hide Decode, DecodeKey, WrittenMember, KeyOf, MemberValue, WellFormedMember, Stands;
    Inside(v, idx, WrittenMembers(members));
    if members != [] {
      var first, rest := WrittenMember(members[0]), WrittenMembers(members[1..]);
      StandsParts(v, idx, first, rest);
      MemberDecodes(members[0], v, idx);
      MembersDecode(members[1..], v, idx + |first|, before[KeyOf(members[0]) := MemberValue(members[0])]);
    }
  }

  lemma {:induction false} OpenMembersDecode(members: seq<Member>, v: Vector, idx: nat, before: map<Bytes, Json>)
    requires forall k | 0 <= k < |members| :: WellFormedMember(members[k])
    requires Stands(v, idx, WrittenMembers(members) + [0xFF])
    ensures idx <= |v|
    ensures DecodeOpenMembers(v, idx, before) ==
            Ok(Parsed(Members(members, before), idx + |WrittenMembers(members)| + 1))
    decreases members
  {
    hide Decode, DecodeKey, WrittenMember, KeyOf, MemberValue, WellFormedMember, Stands;
    if members == [] {
      assert [] + [0xFF] == [0xFF];
      BreakThere(v, idx);
    } else {
      var first, rest := WrittenMember(members[0]), WrittenMembers(members[1..]);
      assert first + rest + [0xFF] == first + (rest + [0xFF]);
      StandsParts(v, idx, first, rest + [0xFF]);
      MemberDecodes(members[0], v, idx);
      OpenMembersDecode(members[1..], v, idx + |first|, before[KeyOf(members[0]) := MemberValue(members[0])]);
    }
  }

  lemma {:induction false} MemberDecodes(m: Member, v: Vector, idx: nat)
    requires WellFormedMember(m) && Stands(v, idx, WrittenMember(m))
    ensures idx < |v| && v[idx] != 0xFF && LengthOk(|v|, 1, idx)
    ensures var k := DecodeKey(v, idx);
            && k.Ok? && k.value.value == KeyOf(m)
            && Decode(v, k.value.next) == Ok(Parsed(MemberValue(m), idx + |WrittenMember(m)|))
    decreases m
  {
    hide Decode, DecodeKey, Written, TextOf, Meaning, WellFormed, Stands;
    StandsParts(v, idx, Written(m.key), Written(m.value));
    KeyDecodes(m.key, v, idx);
    ItemDecodes(m.value, v, idx + |Written(m.key)|);
  }

  // ---- everything that is decoded is an item ----

  /** The argument that is read is written in one of the widths. */
  lemma ArgumentRead(v: Vector, idx: nat, first: byte) returns (width: nat)
    requires idx < |v| && first <= 0xE0 && first % 0x20 == 0 && first <= v[idx] <= first + 0x1B
    requires ReadArgument(v, idx).Ok?
    ensures var n := ReadArgument(v, idx).value;
            && Fits(width, n.value) && Stands(v, idx, Argument(first, width, n.value))
            && n.next == idx + |Argument(first, width, n.value)|
  {
    hide BigEndian, Capacity, ReadNumber;
    Capacities();
    var info := v[idx] % 0x20;
    assert v[idx] == first + info;
    if info <= 23 {
      width := 0;
      OneStands(v, idx);
    } else {
      width := Width(info);
      NumberRead(v, idx, width);
    }
  }

  lemma {:induction false} DecodedItem(v: Vector, idx: nat) returns (t: Item)
    requires Decode(v, idx).Ok?
    ensures WellFormed(t) && Stands(v, idx, Written(t))
    ensures Decode(v, idx) == Ok(Parsed(Meaning(t), idx + |Written(t)|))
    decreases Left(v, idx), 1
  {
    hide Decode, Argument, ReadArgument, Stands, WrittenItems, WrittenMembers, Members, Meanings, Joined;
    FirstByteKinds(v, idx);
    var first := v[idx];
    if first <= 0x3B {
      t := NumberItem(v, idx);
    } else if first <= 0x7F {
      t := TextItem(v, idx);
    } else if first <= 0x9F {
      t := ArrayItem(v, idx);
    } else if first <= 0xBF {
      t := ObjectItem(v, idx);
    } else {
      t := SimpleItem(v, idx);
    }
  }

  /** The first bytes of what is decoded. */
  lemma FirstByteKinds(v: Vector, idx: nat)
    requires Decode(v, idx).Ok?
    ensures idx < |v|
    ensures var first := v[idx];
            || first <= 0x1B || 0x20 <= first <= 0x3B || 0x60 <= first <= 0x7B || first == 0x7F
            || 0x80 <= first <= 0x9B || first == 0x9F || 0xA0 <= first <= 0xBB || first == 0xBF
            || 0xF4 <= first <= 0xF6 || 0xF9 <= first <= 0xFB
    ensures v[idx] <= 0x3B || 0x60 <= v[idx] <= 0x7B || 0x80 <= v[idx] <= 0x9B || 0xA0 <= v[idx] <= 0xBB ==>
              v[idx] % 0x20 <= 0x1B && ReadArgument(v, idx).Ok?
  {
    hide ReadArgument, DecodeItems, DecodeMembers, DecodeChunks, DecodeOpenItems, DecodeOpenMembers, DecodeFloat;
    LengthOkMeansInside(|v|, 1, idx);
  }

  lemma NumberItem(v: Vector, idx: nat) returns (t: Item)
    requires idx < |v| && Decode(v, idx).Ok? && (v[idx] <= 0x1B || 0x20 <= v[idx] <= 0x3B)
    requires ReadArgument(v, idx).Ok?
    ensures WellFormed(t) && Stands(v, idx, Written(t))
    ensures Decode(v, idx) == Ok(Parsed(Meaning(t), idx + |Written(t)|))
  {
    hide Decode, Argument, ReadArgument, Stands;
    var n := ReadArgument(v, idx).value;
    DecodeNumber(v, idx, n);
    if v[idx] <= 0x1B {
      var width := ArgumentRead(v, idx, 0x00);
      t := Unsigned(width, n.value);
    } else {
      var width := ArgumentRead(v, idx, 0x20);
      t := Negative(width, n.value);
    }
  }

  lemma {:induction false} TextItem(v: Vector, idx: nat) returns (t: Item)
    requires idx < |v| && Decode(v, idx).Ok? && (0x60 <= v[idx] <= 0x7B || v[idx] == 0x7F)
    requires v[idx] <= 0x7B ==> ReadArgument(v, idx).Ok?
    ensures WellFormed(t) && Stands(v, idx, Written(t)) && IsText(t)
    ensures Decode(v, idx) == Ok(Parsed(Meaning(t), idx + |Written(t)|))
    decreases Left(v, idx), 0
  {
    hide Decode, Argument, ReadArgument, Stands, WrittenItems, Joined;
    if v[idx] <= 0x7B {
      var n := ReadArgument(v, idx).value;
      DecodeNumber(v, idx, n);
      var width := ArgumentRead(v, idx, 0x60);
      LengthOkMeansInside(|v|, n.value, n.next);
      var s := v[n.next..n.next + n.value];
      JoinStands(v, idx, Argument(0x60, width, n.value), s);
      t := Text(width, s);
    } else {
      DecodeOpen(v, idx);
      var chunks := ChunksRead(v, idx + 1);
      FirstJoins(v, idx, 0x7F, WrittenItems(chunks) + [0xFF]);
      t := Chunks(chunks);
    }
  }

  lemma {:induction false} ArrayItem(v: Vector, idx: nat) returns (t: Item)
    requires idx < |v| && Decode(v, idx).Ok? && (0x80 <= v[idx] <= 0x9B || v[idx] == 0x9F)
    requires v[idx] <= 0x9B ==> ReadArgument(v, idx).Ok?
    ensures WellFormed(t) && Stands(v, idx, Written(t))
    ensures Decode(v, idx) == Ok(Parsed(Meaning(t), idx + |Written(t)|))
    decreases Left(v, idx), 0
  {
    hide Decode, Argument, ReadArgument, Stands, WrittenItems, Meanings;
    if v[idx] <= 0x9B {
      var n := ReadArgument(v, idx).value;
      DecodeNumber(v, idx, n);
      var width := ArgumentRead(v, idx, 0x80);
      var items := ItemsRead(v, n.next, n.value);
      JoinStands(v, idx, Argument(0x80, width, n.value), WrittenItems(items));
      t := Array(width, items);
    } else {
      DecodeOpen(v, idx);
      var items := OpenItemsRead(v, idx + 1);
      FirstJoins(v, idx, 0x9F, WrittenItems(items) + [0xFF]);
      t := OpenArray(items);
    }
  }

  lemma {:induction false} ObjectItem(v: Vector, idx: nat) returns (t: Item)
    requires idx < |v| && Decode(v, idx).Ok? && (0xA0 <= v[idx] <= 0xBB || v[idx] == 0xBF)
    requires v[idx] <= 0xBB ==> ReadArgument(v, idx).Ok?
    ensures WellFormed(t) && Stands(v, idx, Written(t))
    ensures Decode(v, idx) == Ok(Parsed(Meaning(t), idx + |Written(t)|))
    decreases Left(v, idx), 0
  {
    hide Decode, Argument, ReadArgument, Stands, WrittenMembers, Members;
    if v[idx] <= 0xBB {
      var n := ReadArgument(v, idx).value;
      DecodeNumber(v, idx, n);
      var width := ArgumentRead(v, idx, 0xA0);
      var members := MembersRead(v, n.next, n.value, map[]);
      JoinStands(v, idx, Argument(0xA0, width, n.value), WrittenMembers(members));
      t := Object(width, members);
    } else {
      DecodeOpen(v, idx);
      var members := OpenMembersRead(v, idx + 1, map[]);
      FirstJoins(v, idx, 0xBF, WrittenMembers(members) + [0xFF]);
      t := OpenObject(members);
    }
  }

  lemma SimpleItem(v: Vector, idx: nat) returns (t: Item)
    requires idx < |v| && Decode(v, idx).Ok? && (0xF4 <= v[idx] <= 0xF6 || 0xF9 <= v[idx] <= 0xFB)
    ensures WellFormed(t) && Stands(v, idx, Written(t))
    ensures Decode(v, idx) == Ok(Parsed(Meaning(t), idx + |Written(t)|))
  {
    hide Decode, BigEndian, Capacity, ReadNumber, HalfToDouble, SingleToDouble;
    Capacities();
    DecodeSimple(v, idx);
    OneStands(v, idx);
    if v[idx] == 0xF4 {
      t := FalseItem;
    } else if v[idx] == 0xF5 {
      t := TrueItem;
    } else if v[idx] == 0xF6 {
      t := NullItem;
    } else {
      var width := if v[idx] == 0xF9 then 2 else if v[idx] == 0xFA then 4 else 8;
      NumberRead(v, idx, width);
      var bits := ReadNumber(v, idx, width).value;
      t := if width == 2 then Half(bits) else if width == 4 then Single(bits) else Double(bits);
    }
  }

  lemma {:induction false} ItemsRead(v: Vector, idx: nat, n: nat) returns (items: seq<Item>)
    requires idx <= |v| && DecodeItems(v, idx, n).Ok?
    ensures |items| == n && (forall k | 0 <= k < |items| :: WellFormed(items[k])) && Stands(v, idx, WrittenItems(items))
    ensures DecodeItems(v, idx, n) == Ok(Parsed(Meanings(items), idx + |WrittenItems(items)|))
    decreases Left(v, idx), 2, n
  {
    hide Decode, Written, Meaning, WellFormed, Stands;
    if n == 0 {
      items := [];
      NothingStands(v, idx);
    } else {
      var t := DecodedItem(v, idx);
      var rest := ItemsRead(v, Decode(v, idx).value.next, n - 1);
      items := [t] + rest;
      assert items[1..] == rest;
      JoinStands(v, idx, Written(t), WrittenItems(rest));
    }
  }

  lemma {:induction false} OpenItemsRead(v: Vector, idx: nat) returns (items: seq<Item>)
    requires idx <= |v| && DecodeOpenItems(v, idx).Ok?
    ensures (forall k | 0 <= k < |items| :: WellFormed(items[k])) && Stands(v, idx, WrittenItems(items) + [0xFF])
    ensures DecodeOpenItems(v, idx) == Ok(Parsed(Meanings(items), idx + |WrittenItems(items)| + 1))
    decreases Left(v, idx), 2
  {
    hide Decode, Written, Meaning, WellFormed, Stands;
    BreakInside(v, idx);
    if v[idx] == 0xFF {
      items := [];
      BreakStands(v, idx);
    } else {
      var t := DecodedItem(v, idx);
      var rest := OpenItemsRead(v, Decode(v, idx).value.next);
      items := [t] + rest;
      assert items[1..] == rest;
      JoinStands(v, idx, Written(t), WrittenItems(rest) + [0xFF]);
      assert Written(t) + (WrittenItems(rest) + [0xFF]) == WrittenItems(items) + [0xFF];
    }
  }

  lemma BreakInside(v: Vector, idx: nat)
    requires idx <= |v|
    ensures LengthOk(|v|, 1, idx) <==> idx < |v|
  {
    LengthOkMeansInside(|v|, 1, idx);
  }

  lemma BreakStands(v: Vector, idx: nat)
    requires idx < |v| && v[idx] == 0xFF
    ensures Stands(v, idx, [0xFF]) && [] + [0xFF] == [0xFF]
  {
    OneStands(v, idx);
  }

  lemma {:induction false} ChunksRead(v: Vector, idx: nat) returns (chunks: seq<Item>)
    requires idx <= |v| && DecodeChunks(v, idx).Ok?
    ensures forall k | 0 <= k < |chunks| :: IsText(chunks[k]) && WellFormed(chunks[k])
    ensures Stands(v, idx, WrittenItems(chunks) + [0xFF])
    ensures DecodeChunks(v, idx) == Ok(Parsed(Joined(chunks), idx + |WrittenItems(chunks)| + 1))
    decreases Left(v, idx), 2
  {
    hide Decode, Written, Meaning, WellFormed, Stands, TextOf;
    BreakInside(v, idx);
    if v[idx] == 0xFF {
      chunks := [];
      BreakStands(v, idx);
    } else {
      var t := DecodedItem(v, idx);
      MeansText(t);
      TextMeaning(t);
      var rest := ChunksRead(v, Decode(v, idx).value.next);
      chunks := [t] + rest;
      assert chunks[1..] == rest;
      JoinStands(v, idx, Written(t), WrittenItems(rest) + [0xFF]);
      assert Written(t) + (WrittenItems(rest) + [0xFF]) == WrittenItems(chunks) + [0xFF];
    }
  }

  lemma MeansText(t: Item)
    requires WellFormed(t) && Meaning(t).Str?
    ensures IsText(t)
  {
  }

  lemma {:induction false} MemberRead(v: Vector, idx: nat) returns (m: Member)
    requires idx <= |v| && DecodeKey(v, idx).Ok? && Decode(v, DecodeKey(v, idx).value.next).Ok?
    ensures WellFormedMember(m) && Stands(v, idx, WrittenMember(m)) && DecodeKey(v, idx).value.value == KeyOf(m)
    ensures Decode(v, DecodeKey(v, idx).value.next) == Ok(Parsed(MemberValue(m), idx + |WrittenMember(m)|))
    decreases Left(v, idx), 2
  {
    hide Decode, Written, Meaning, WellFormed, Stands, TextOf;
    KeyIsText(v, idx);
    var key := DecodedItem(v, idx);
    MeansText(key);
    TextMeaning(key);
    var value := DecodedItem(v, Decode(v, idx).value.next);
    m := Member(key, value);
    JoinStands(v, idx, Written(key), Written(value));
  }

  lemma KeyIsText(v: Vector, idx: nat)
    requires idx <= |v| && DecodeKey(v, idx).Ok?
    ensures Decode(v, idx).Ok? && Decode(v, idx).value.value == Str(DecodeKey(v, idx).value.value)
    ensures Decode(v, idx).value.next == DecodeKey(v, idx).value.next && idx < |v| && v[idx] != 0xFF
  {
    hide Decode;
    LengthOkMeansInside(|v|, 1, idx);
  }

  lemma {:induction false} MembersRead(v: Vector, idx: nat, n: nat, before: map<Bytes, Json>)
    returns (members: seq<Member>)
    requires idx <= |v| && DecodeMembers(v, idx, n, before).Ok?
    ensures |members| == n && (forall k | 0 <= k < |members| :: WellFormedMember(members[k]))
    ensures Stands(v, idx, WrittenMembers(members))
    ensures DecodeMembers(v, idx, n, before) ==
            Ok(Parsed(Members(members, before), idx + |WrittenMembers(members)|))
    decreases Left(v, idx), 3, n
  {
    hide Decode, DecodeKey, WrittenMember, KeyOf, MemberValue, WellFormedMember, Stands;
    if n == 0 {
      members := [];
      NothingStands(v, idx);
    } else {
      var m := MemberRead(v, idx);
      var x := Decode(v, DecodeKey(v, idx).value.next).value;
      var rest := MembersRead(v, x.next, n - 1, before[KeyOf(m) := MemberValue(m)]);
      members := [m] + rest;
      assert members[1..] == rest;
      JoinStands(v, idx, WrittenMember(m), WrittenMembers(rest));
    }
  }

  lemma {:induction false} OpenMembersRead(v: Vector, idx: nat, before: map<Bytes, Json>)
    returns (members: seq<Member>)
    requires idx <= |v| && DecodeOpenMembers(v, idx, before).Ok?
    ensures forall k | 0 <= k < |members| :: WellFormedMember(members[k])
    ensures Stands(v, idx, WrittenMembers(members) + [0xFF])
    ensures DecodeOpenMembers(v, idx, before) ==
            Ok(Parsed(Members(members, before), idx + |WrittenMembers(members)| + 1))
    decreases Left(v, idx), 3
  {
    hide Decode, DecodeKey, WrittenMember, KeyOf, MemberValue, WellFormedMember, Stands;
    BreakInside(v, idx);
    if v[idx] == 0xFF {
      members := [];
      BreakStands(v, idx);
    } else {
      var m := MemberRead(v, idx);
      var x := Decode(v, DecodeKey(v, idx).value.next).value;
      var rest := OpenMembersRead(v, x.next, before[KeyOf(m) := MemberValue(m)]);
      members := [m] + rest;
      assert members[1..] == rest;
      JoinStands(v, idx, WrittenMember(m), WrittenMembers(rest) + [0xFF]);
      assert WrittenMember(m) + (WrittenMembers(rest) + [0xFF]) == WrittenMembers(members) + [0xFF];
    }
  }

  /** `from_cbor` accepts exactly the items: a decoder at an index gives a document and the index behind it if and
      only if an item with that meaning stands between them. */
  lemma DecodeIff(v: Vector, idx: nat, j: Json, next: nat)
    ensures Decode(v, idx) == Ok(Parsed(j, next)) <==> exists t :: Denotes(v, idx, t, j, next)
  {
    hide Decode, Written, Meaning, WellFormed, Stands;
    if Decode(v, idx) == Ok(Parsed(j, next)) {
      var t := DecodedItem(v, idx);
      assert Denotes(v, idx, t, j, next);
    }
    if t :| Denotes(v, idx, t, j, next) {
      ItemDecodes(t, v, idx);
    }
  }

  /** An item stands from `idx` up to `next` and means `j`. */
  predicate Denotes(v: Vector, idx: nat, t: Item, j: Json, next: nat) {
    WellFormed(t) && Stands(v, idx, Written(t)) && next == idx + |Written(t)| && Meaning(t) == j
  }

  // ---- the encoder writes items ----

  /** The smallest width that an argument fits. */
  function Shortest(n: nat): nat {
    if n <= 23 then 0
    else if n < 0x100 then 1
    else if n < 0x1_0000 then 2
    else if n < 0x1_0000_0000 then 4
    else 8
  }

  /** The item that is written for a document: no width is larger than it has to be, every number is a double, and
      the members of an object come in key order. */
  function ItemOf(j: Json): Item
    decreases j, 1, 0
  {
    match j
    case Null => NullItem
    case Bool(b) => if b then TrueItem else FalseItem
    case Int(i) => if i >= 0 then Unsigned(Shortest(i), i) else Negative(Shortest(-1 - i), -1 - i)
    case Uint(u) => Unsigned(Shortest(u), u)
    case Float(bits) => Double(bits)
    case Str(s) => Text(Shortest(|s|), s)
    case Arr(a) => Array(Shortest(|a|), ItemsOf(j, |a|))
    case Obj(m) => Object(Shortest(|m|), MembersOf(j, SortedKeys(m.Keys)))
  }

  function ItemsOf(j: Json, n: nat): (items: seq<Item>)
    requires j.Arr? && n <= |j.items|
    ensures |items| == n
    decreases j, 0, n
  {
    if n == 0 then [] else ItemsOf(j, n - 1) + [ItemOf(j.items[n - 1])]
  }

  function MembersOf(j: Json, keys: seq<Bytes>): (members: seq<Member>)
    requires j.Obj? && forall k | k in keys :: k in j.members
    ensures |members| == |keys|
    decreases j, 0, |keys|
  {
    if keys == [] then []
    else
      var key := keys[|keys| - 1];
      MembersOf(j, keys[..|keys| - 1]) + [Member(Text(Shortest(|key|), key), ItemOf(j.members[key]))]
  }

  lemma HeaderIsArgument(major: nat, n: nat)
    requires major <= 5 && n < TWO_TO_THE_64
    ensures Fits(Shortest(n), n) && Header(major, n) == Argument(0x20 * major, Shortest(n), n)
  {
    hide BigEndian;
  }

  lemma TextIsItem(s: Bytes)
    requires |s| < TWO_TO_THE_64
    ensures var t := Text(Shortest(|s|), s); WellFormed(t) && Written(t) == EncodeText(s)
  {
    hide BigEndian, Header, Argument;
    HeaderIsArgument(TEXT, |s|);
  }

  lemma {:induction false} WrittenSnoc(items: seq<Item>, t: Item)
    requires (forall k | 0 <= k < |items| :: WellFormed(items[k])) && WellFormed(t)
    ensures forall k | 0 <= k < |items + [t]| :: WellFormed((items + [t])[k])
    ensures WrittenItems(items + [t]) == WrittenItems(items) + Written(t)
    decreases |items|
  {
    hide Written, WellFormed;
    if items == [] {
      assert [] + [t] == [t] && [t][1..] == [];
    } else {
      assert (items + [t])[1..] == items[1..] + [t];
      WrittenSnoc(items[1..], t);
    }
  }

  lemma {:induction false} WrittenMembersSnoc(members: seq<Member>, m: Member)
    requires (forall k | 0 <= k < |members| :: WellFormedMember(members[k])) && WellFormedMember(m)
    ensures forall k | 0 <= k < |members + [m]| :: WellFormedMember((members + [m])[k])
    ensures WrittenMembers(members + [m]) == WrittenMembers(members) + WrittenMember(m)
    decreases |members|
  {
    hide WrittenMember, WellFormedMember;
    if members == [] {
      assert [] + [m] == [m] && [m][1..] == [];
    } else {
      assert (members + [m])[1..] == members[1..] + [m];
      WrittenMembersSnoc(members[1..], m);
    }
  }

  /** The bytes of a document are those of its item. */
  lemma {:induction false} WritesItem(j: Json)
    requires |Encode(j)| < TWO_TO_THE_64
    ensures WellFormed(ItemOf(j)) && Written(ItemOf(j)) == Encode(j)
    decreases j, 1, 0
  {
    hide Header, Argument, BigEndian, EncodeItems, EncodeMembers, ItemsOf, MembersOf, SortedKeys, WrittenItems,
         WrittenMembers;
    match j
    case Int(i) => HeaderIsArgument(if i >= 0 then UNSIGNED else NEGATIVE, if i >= 0 then i else -1 - i);
    case Uint(u) => HeaderIsArgument(UNSIGNED, u);
    case Str(s) => TextIsItem(s);
    case Arr(a) =>
      EncodeItemsLong(j, |a|);
      HeaderIsArgument(ARRAY, |a|);
      WritesItems(j, |a|);
    case Obj(m) =>
      var keys := SortedKeys(m.Keys);
      EncodeMembersLong(j, keys);
      HeaderIsArgument(MAP, |m|);
      WritesMembers(j, keys);
    case _ =>
  }

  lemma {:induction false} EncodeMembersLong(j: Json, keys: seq<Bytes>)
    requires j.Obj? && forall k | k in keys :: k in j.members
    ensures |keys| <= |EncodeMembers(j, keys)|
    decreases |keys|
  {
    hide Encode, EncodeText;
    if keys != [] {
      EncodeMembersLong(j, keys[..|keys| - 1]);
      EncodeNotEmpty(j.members[keys[|keys| - 1]]);
    }
  }

  lemma {:induction false} WritesItems(j: Json, n: nat)
    requires j.Arr? && n <= |j.items| && |EncodeItems(j, n)| < TWO_TO_THE_64
    ensures forall k | 0 <= k < n :: WellFormed(ItemsOf(j, n)[k])
    ensures WrittenItems(ItemsOf(j, n)) == EncodeItems(j, n)
    decreases j, 0, n
  {
    hide Encode, Written, WellFormed, ItemOf;
    ItemsSnoc(j, n);
    if n > 0 {
      WritesItems(j, n - 1);
      WritesItem(j.items[n - 1]);
      WrittenSnoc(ItemsOf(j, n - 1), ItemOf(j.items[n - 1]));
    }
  }

  lemma {:induction false} WritesMembers(j: Json, keys: seq<Bytes>)
    requires j.Obj? && (forall k | k in keys :: k in j.members) && |EncodeMembers(j, keys)| < TWO_TO_THE_64
    ensures forall k | 0 <= k < |keys| :: WellFormedMember(MembersOf(j, keys)[k])
    ensures WrittenMembers(MembersOf(j, keys)) == EncodeMembers(j, keys)
    decreases j, 0, |keys|
  {
    hide Encode, EncodeText, Written, WellFormed, ItemOf;
    MembersSnoc(j, keys);
    if keys != [] {
      var key := keys[|keys| - 1];
      var front := keys[..|keys| - 1];
      WritesMembers(j, front);
      WritesItem(j.members[key]);
      KeyFits(key);
      TextIsItem(key);
      WrittenMembersSnoc(MembersOf(j, front), Member(Text(Shortest(|key|), key), ItemOf(j.members[key])));
    }
  }

  lemma KeyFits(key: Bytes)
    ensures |key| <= |EncodeText(key)|
  {
    hide Header;
  }

  /** `to_cbor` writes the item of a document, in the smallest widths, and the item means the document. */
  lemma EncodesItem(j: Json)
    requires |Encode(j)| < TWO_TO_THE_63
    ensures WellFormed(ItemOf(j)) && Written(ItemOf(j)) == Encode(j) && Meaning(ItemOf(j)) == Canonical(j)
  {
    hide Encode, Decode, Written, WellFormed, Meaning, Canonical, ItemOf;
    WritesItem(j);
    StandsWithin([], Encode(j), []);
    assert [] + Encode(j) + [] == Encode(j);
    ItemDecodes(ItemOf(j), Encode(j), 0);
    DecodeEncode(j, Encode(j), 0);
  }

  // ---- first bytes ----

  /** The first byte of an encoding tells the type of the document and the sign of an integer. */
  lemma EncodedFirst(j: Json)
    requires |Encode(j)| < TWO_TO_THE_64
    ensures Encode(j) != []
    ensures var first := Encode(j)[0];
            && (0x00 <= first <= 0x1B <==> j.Uint? || (j.Int? && j.i >= 0))
            && (0x20 <= first <= 0x3B <==> j.Int? && j.i < 0)
            && (0x60 <= first <= 0x7B <==> j.Str?)
            && (0x80 <= first <= 0x9B <==> j.Arr?)
            && (0xA0 <= first <= 0xBB <==> j.Obj?)
            && (first == 0xF4 <==> j == Bool(false)) && (first == 0xF5 <==> j == Bool(true))
            && (first == 0xF6 <==> j.Null?) && (first == 0xFB <==> j.Float?)
  {
    hide BigEndian, EncodeItems, EncodeMembers, SortedKeys;
  }

  /** The first byte of what is decoded tells its type. */
  lemma DecodedFirst(v: Vector, idx: nat)
    requires Decode(v, idx).Ok?
    ensures idx < |v|
    ensures var first, j := v[idx], Decode(v, idx).value.value;
            && (j.Uint? <==> first <= 0x1B) && (j.Int? <==> 0x20 <= first <= 0x3B)
            && (j.Str? <==> 0x60 <= first <= 0x7B || first == 0x7F)
            && (j.Arr? <==> 0x80 <= first <= 0x9B || first == 0x9F)
            && (j.Obj? <==> 0xA0 <= first <= 0xBB || first == 0xBF)
            && (j.Bool? <==> first == 0xF4 || first == 0xF5) && (j.Null? <==> first == 0xF6)
            && (j.Float? <==> first == 0xF9 || first == 0xFA || first == 0xFB)
  {
    hide ReadArgument, DecodeItems, DecodeMembers, DecodeChunks, DecodeOpenItems, DecodeOpenMembers, DecodeFloat,
         Decode;
    FirstByteKinds(v, idx);
    if v[idx] % 0x20 <= 0x1B && ReadArgument(v, idx).Ok? {
      DecodeNumber(v, idx, ReadArgument(v, idx).value);
    }
    DecodeOpen(v, idx);
    DecodeSimple(v, idx);
    FloatIsFloat(v, idx);
  }

  lemma FloatIsFloat(v: Vector, idx: nat)
    requires idx < |v|
    ensures 0xF9 <= v[idx] <= 0xFB && DecodeFloat(v, idx).Ok? ==> DecodeFloat(v, idx).value.value.Float?
  {
  }
}
