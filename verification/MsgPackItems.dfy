/** The MessagePack values that stand for JSON documents: how they are written, in every width, what they mean,
    and the proof that the decoder accepts exactly them. */
module MsgPackItems {
  import opened Binary
  import opened ByteStrings
  import opened Json
  import opened MsgPack

  /** A value. `width` is the number of bytes of a number or a length behind the first byte; a width of zero means
      that the first byte holds it. */
  datatype Item =
    | PositiveFixint(n: nat)
    | NegativeFixint(n: nat)
    | Unsigned(width: nat, n: nat)
    | Signed(width: nat, i: int)
    | Single(bits: nat)
    | Double(bits: nat)
    | Text(width: nat, s: Bytes)
    | Sequence(width: nat, items: seq<Item>)
    | Object(width: nat, members: seq<Member>)
    | Nil
    | FalseItem
    | TrueItem

  datatype Member = Member(key: Item, value: Item)

  // ---- how values are written ----

  /** The number fits the bytes it is written in. */
  predicate Fits(width: nat, n: nat) {
    || (width == 1 && n < 0x100)
    || (width == 2 && n < 0x1_0000)
    || (width == 4 && n < 0x1_0000_0000)
    || (width == 8 && n < 0x1_0000_0000_0000_0000)
  }

  /** Two's complement. */
  predicate SignedFits(width: nat, i: int) {
    || (width == 1 && -0x80 <= i < 0x80)
    || (width == 2 && -0x8000 <= i < 0x8000)
    || (width == 4 && -0x8000_0000 <= i < 0x8000_0000)
    || (width == 8 && -0x8000_0000_0000_0000 <= i < 0x8000_0000_0000_0000)
  }

  predicate TextFits(width: nat, n: nat) {
    (width == 0 && n < 32) || (width != 8 && Fits(width, n))
  }

  predicate SequenceFits(width: nat, n: nat) {
    (width == 0 && n < 16) || ((width == 2 || width == 4) && Fits(width, n))
  }

  predicate WellFormed(t: Item) {
    match t
    case PositiveFixint(n) => n < 0x80
    case NegativeFixint(n) => 1 <= n <= 32
    case Unsigned(width, n) => Fits(width, n)
    case Signed(width, i) => SignedFits(width, i)
    case Single(bits) => bits < 0x1_0000_0000
    case Double(bits) => bits < 0x1_0000_0000_0000_0000
    case Text(width, s) => TextFits(width, |s|)
    case Sequence(width, items) => SequenceFits(width, |items|) && forall k | 0 <= k < |items| :: WellFormed(items[k])
    case Object(width, members) =>
      SequenceFits(width, |members|) && forall k | 0 <= k < |members| :: WellFormedMember(members[k])
    case _ => true
  }

  /** A member has a text for its key. */
  predicate WellFormedMember(m: Member) {
    m.key.Text? && WellFormed(m.key) && WellFormed(m.value)
  }

  function TextHead(width: nat, n: nat): Bytes
    requires TextFits(width, n)
  {
    if width == 0 then [0xA0 + n]
    else [if width == 1 then 0xD9 else if width == 2 then 0xDA else 0xDB] + BigEndian(n, width)
  }

  function SequenceHead(width: nat, n: nat): Bytes
    requires SequenceFits(width, n)
  {
    if width == 0 then [0x90 + n] else [if width == 2 then 0xDC else 0xDD] + BigEndian(n, width)
  }

  function ObjectHead(width: nat, n: nat): Bytes
    requires SequenceFits(width, n)
  {
    if width == 0 then [0x80 + n] else [if width == 2 then 0xDE else 0xDF] + BigEndian(n, width)
  }

  function Written(t: Item): Bytes
    requires WellFormed(t)
  {
    match t
    case PositiveFixint(n) => [n]
    case NegativeFixint(n) => [0x100 - n]
    case Unsigned(width, n) =>
      [if width == 1 then 0xCC else if width == 2 then 0xCD else if width == 4 then 0xCE else 0xCF]
      + BigEndian(n, width)
    case Signed(width, i) =>
      [if width == 1 then 0xD0 else if width == 2 then 0xD1 else if width == 4 then 0xD2 else 0xD3]
      + BigEndian(i, width)
    case Single(bits) => [0xCA] + BigEndian(bits, 4)
    case Double(bits) => [0xCB] + BigEndian(bits, 8)
    case Text(width, s) => TextHead(width, |s|) + s
    case Sequence(width, items) => SequenceHead(width, |items|) + WrittenItems(items)
    case Object(width, members) => ObjectHead(width, |members|) + WrittenMembers(members)
    case Nil => [0xC0]
    case FalseItem => [0xC2]
    case TrueItem => [0xC3]
  }

  function WrittenItems(items: seq<Item>): Bytes
    requires forall k | 0 <= k < |items| :: WellFormed(items[k])
  {
    if items == [] then [] else Written(items[0]) + WrittenItems(items[1..])
  }

  function WrittenMember(m: Member): Bytes
    requires WellFormedMember(m)
  {
    Written(m.key) + Written(m.value)
  }

  function WrittenMembers(members: seq<Member>): Bytes
    requires forall k | 0 <= k < |members| :: WellFormedMember(members[k])
  {
    if members == [] then [] else WrittenMember(members[0]) + WrittenMembers(members[1..])
  }

  // ---- what values mean ----

  function Meaning(t: Item): Json
    requires WellFormed(t)
  {
    match t
    case PositiveFixint(n) => Uint(n)
    case NegativeFixint(n) => Int(-1 * n)
    case Unsigned(_, n) => Uint(n)
    case Signed(_, i) => Int(i)
    case Single(bits) => Float(SingleToDouble(bits))
    case Double(bits) => Float(bits)
    case Text(_, s) => Str(s)
    case Sequence(_, items) => Arr(Meanings(items))
    case Object(_, members) => Obj(Members(members, map[]))
    case Nil => Null
    case FalseItem => Bool(false)
    case TrueItem => Bool(true)
  }

  function Meanings(items: seq<Item>): seq<Json>
    requires forall k | 0 <= k < |items| :: WellFormed(items[k])
  {
    if items == [] then [] else [Meaning(items[0])] + Meanings(items[1..])
  }

  function MemberValue(m: Member): Json
    requires WellFormedMember(m)
  {
    Meaning(m.value)
  }

  function KeyOf(m: Member): Bytes
    requires WellFormedMember(m)
  {
    m.key.s
  }

  /** Of members with the same key the last one counts. */
  function Members(members: seq<Member>, before: map<Bytes, Json>): map<Bytes, Json>
    requires forall k | 0 <= k < |members| :: WellFormedMember(members[k])
    decreases members
  {
    if members == [] then before
    else Members(members[1..], before[KeyOf(members[0]) := MemberValue(members[0])])
  }

  // ---- what the first byte makes of the rest ----

  lemma DecodeSmallNumber(v: Vector, idx: nat)
    requires idx < |v|
    ensures v[idx] <= 0x7F ==> Decode(v, idx) == Ok(Parsed(Uint(v[idx]), idx + 1))
    ensures v[idx] >= 0xE0 ==> Decode(v, idx) == Ok(Parsed(Int(v[idx] as int - 0x100), idx + 1))
    ensures v[idx] == 0xC0 ==> Decode(v, idx) == Ok(Parsed(Null, idx + 1))
    ensures v[idx] == 0xC2 ==> Decode(v, idx) == Ok(Parsed(Bool(false), idx + 1))
    ensures v[idx] == 0xC3 ==> Decode(v, idx) == Ok(Parsed(Bool(true), idx + 1))
    ensures 0xCA <= v[idx] <= 0xD3 ==> Decode(v, idx) == DecodeNumber(v, idx)
  {
    hide ReadLength, DecodeNumber, DecodeItems, DecodeMembers;
    Capacities();
    LengthOkMeansInside(|v|, 1, idx);
  }

  lemma DecodeLong(v: Vector, idx: nat, n: Parsed<nat>)
    requires idx < |v| && (IsText(v[idx]) || IsArray(v[idx]) || IsMap(v[idx])) && ReadLength(v, idx) == Ok(n)
    ensures IsText(v[idx]) ==>
              Decode(v, idx) ==
              if LengthOk(|v|, n.value, n.next) then Ok(Parsed(Str(v[n.next..n.next + n.value]), n.next + n.value))
              else Err(ParseError(110))
    ensures IsArray(v[idx]) ==>
              var a := DecodeItems(v, n.next, n.value);
              Decode(v, idx) == if a.Ok? then Ok(Parsed(Arr(a.value.value), a.value.next)) else Err(a.error)
    ensures IsMap(v[idx]) ==>
              var m := DecodeMembers(v, n.next, n.value, map[]);
              Decode(v, idx) == if m.Ok? then Ok(Parsed(Obj(m.value.value), m.value.next)) else Err(m.error)
  {
    hide ReadLength, DecodeItems, DecodeMembers;
    LengthOkMeansInside(|v|, 1, idx);
  }

  /** The first bytes of what is decoded. */
  lemma FirstByteKinds(v: Vector, idx: nat)
    requires Decode(v, idx).Ok?
    ensures idx < |v| && LengthOk(|v|, 1, idx)
    ensures var first := v[idx];
            || first <= 0x7F || first >= 0xE0 || first == 0xC0 || first == 0xC2 || first == 0xC3
            || 0xCA <= first <= 0xD3 || 0x80 <= first <= 0xBF || 0xD9 <= first <= 0xDF
    ensures 0x80 <= v[idx] <= 0xBF || 0xD9 <= v[idx] <= 0xDF ==>
              (IsText(v[idx]) || IsArray(v[idx]) || IsMap(v[idx])) && ReadLength(v, idx).Ok?
  {
    hide ReadLength, DecodeNumber, DecodeItems, DecodeMembers;
    LengthOkMeansInside(|v|, 1, idx);
  }

  // ---- every value is decoded ----

  lemma LengthThere(v: Vector, idx: nat, first: byte, width: nat, n: nat)
    requires Fits(width, n) && width != 8 && first >= 0xC0 && Width(first) == width
    requires IsText(first) || IsArray(first) || IsMap(first)
    requires Stands(v, idx, [first] + BigEndian(n, width))
    ensures idx < |v| && v[idx] == first && ReadLength(v, idx) == Ok(Parsed(n, idx + 1 + width))
  {
    hide BigEndian, Capacity, ReadNumber;
    Capacities();
    FirstThere(v, idx, first, BigEndian(n, width));
    ReadBack(v, idx, first, n, width, 0);
  }

  lemma TextHeadThere(v: Vector, idx: nat, width: nat, n: nat)
    requires TextFits(width, n) && Stands(v, idx, TextHead(width, n))
    ensures idx < |v| && IsText(v[idx]) && ReadLength(v, idx) == Ok(Parsed(n, idx + |TextHead(width, n)|))
  {
    hide BigEndian, Capacity, ReadNumber;
    if width == 0 {
      assert v[idx..idx + 1][0] == v[idx];
    } else {
      LengthThere(v, idx, if width == 1 then 0xD9 else if width == 2 then 0xDA else 0xDB, width, n);
    }
  }

  lemma SequenceHeadThere(v: Vector, idx: nat, width: nat, n: nat)
    requires SequenceFits(width, n) && Stands(v, idx, SequenceHead(width, n))
    ensures idx < |v| && IsArray(v[idx]) && ReadLength(v, idx) == Ok(Parsed(n, idx + |SequenceHead(width, n)|))
  {
    hide BigEndian, Capacity, ReadNumber;
    if width == 0 {
      assert v[idx..idx + 1][0] == v[idx];
    } else {
      LengthThere(v, idx, if width == 2 then 0xDC else 0xDD, width, n);
    }
  }

  lemma ObjectHeadThere(v: Vector, idx: nat, width: nat, n: nat)
    requires SequenceFits(width, n) && Stands(v, idx, ObjectHead(width, n))
    ensures idx < |v| && IsMap(v[idx]) && ReadLength(v, idx) == Ok(Parsed(n, idx + |ObjectHead(width, n)|))
  {
    hide BigEndian, Capacity, ReadNumber;
    if width == 0 {
      assert v[idx..idx + 1][0] == v[idx];
    } else {
      LengthThere(v, idx, if width == 2 then 0xDE else 0xDF, width, n);
    }
  }

  lemma SimpleDecodes(t: Item, v: Vector, idx: nat)
    requires t.PositiveFixint? || t.NegativeFixint? || t.Nil? || t.FalseItem? || t.TrueItem?
    requires WellFormed(t) && Stands(v, idx, Written(t))
    ensures Decode(v, idx) == Ok(Parsed(Meaning(t), idx + |Written(t)|))
  {
    hide Decode;
    assert v[idx..idx + 1][0] == v[idx];
    DecodeSmallNumber(v, idx);
  }

  lemma NumberDecodes(t: Item, v: Vector, idx: nat)
    requires t.Unsigned? || t.Signed? || t.Single? || t.Double?
    requires WellFormed(t) && Stands(v, idx, Written(t))
    ensures Decode(v, idx) == Ok(Parsed(Meaning(t), idx + |Written(t)|))
  {
    hide Decode, BigEndian, Capacity, ReadNumber, Stands, SingleToDouble;
    Capacities();
    match t
    case Unsigned(width, n) =>
      var first := if width == 1 then 0xCC else if width == 2 then 0xCD else if width == 4 then 0xCE else 0xCF;
      NumberThere(v, idx, first, width, n, 0);
      DecodeSmallNumber(v, idx);
    case Signed(width, i) =>
      var first := if width == 1 then 0xD0 else if width == 2 then 0xD1 else if width == 4 then 0xD2 else 0xD3;
      NumberThere(v, idx, first, width, i, if i < 0 then 1 else 0);
      DecodeSmallNumber(v, idx);
    case Single(bits) =>
      NumberThere(v, idx, 0xCA, 4, bits, 0);
      DecodeSmallNumber(v, idx);
    case Double(bits) =>
      NumberThere(v, idx, 0xCB, 8, bits, 0);
      DecodeSmallNumber(v, idx);
  }

  /** Wherever a value stands in a vector, the decoder gives its meaning and stops behind it. */
  lemma {:induction false} ItemDecodes(t: Item, v: Vector, idx: nat)
    requires WellFormed(t) && Stands(v, idx, Written(t))
    ensures Decode(v, idx) == Ok(Parsed(Meaning(t), idx + |Written(t)|))
    decreases t, 1
  {
    hide Decode, TextHead, SequenceHead, ObjectHead, ReadLength, Stands, WrittenItems, WrittenMembers, Members,
         Meanings;
    match t
    case Text(_, _) => TextDecodes(t, v, idx);
    case Sequence(_, _) => ContainerDecodes(t, v, idx);
    case Object(_, _) => ContainerDecodes(t, v, idx);
    case _ =>
      if t.Unsigned? || t.Signed? || t.Single? || t.Double? {
        NumberDecodes(t, v, idx);
      } else {
        SimpleDecodes(t, v, idx);
      }
  }

  lemma TextDecodes(t: Item, v: Vector, idx: nat)
    requires t.Text? && WellFormed(t) && Stands(v, idx, Written(t))
    ensures Decode(v, idx) == Ok(Parsed(Meaning(t), idx + |Written(t)|))
  {
    hide Decode, TextHead, ReadLength, Stands;
    StandsParts(v, idx, TextHead(t.width, |t.s|), t.s);
    TextHeadThere(v, idx, t.width, |t.s|);
    DecodeLong(v, idx, ReadLength(v, idx).value);
    TextThere(v, ReadLength(v, idx).value.next, t.s);
  }

  lemma {:induction false} ContainerDecodes(t: Item, v: Vector, idx: nat)
    requires (t.Sequence? || t.Object?) && WellFormed(t) && Stands(v, idx, Written(t))
    ensures Decode(v, idx) == Ok(Parsed(Meaning(t), idx + |Written(t)|))
    decreases t, 0
  {
    hide Decode, SequenceHead, ObjectHead, ReadLength, Stands, WrittenItems, WrittenMembers, Members, Meanings;
    match t
    case Sequence(width, items) =>
      StandsParts(v, idx, SequenceHead(width, |items|), WrittenItems(items));
      SequenceHeadThere(v, idx, width, |items|);
      DecodeLong(v, idx, ReadLength(v, idx).value);
      ItemsDecode(items, v, ReadLength(v, idx).value.next);
    case Object(width, members) =>
      StandsParts(v, idx, ObjectHead(width, |members|), WrittenMembers(members));
      ObjectHeadThere(v, idx, width, |members|);
      DecodeLong(v, idx, ReadLength(v, idx).value);
      MembersDecode(members, v, ReadLength(v, idx).value.next, map[]);
  }

  lemma {:induction false} ItemsDecode(items: seq<Item>, v: Vector, idx: nat)
    requires (forall k | 0 <= k < |items| :: WellFormed(items[k])) && Stands(v, idx, WrittenItems(items))
    ensures idx <= |v| && DecodeItems(v, idx, |items|) == Ok(Parsed(Meanings(items), idx + |WrittenItems(items)|))
    decreases items
  {
    hide Decode, Written, Meaning, WellFormed, Stands;
    Inside(v, idx, WrittenItems(items));
    if items != [] {
      var first, rest := Written(items[0]), WrittenItems(items[1..]);
      StandsParts(v, idx, first, rest);
      ItemDecodes(items[0], v, idx);
      ItemsDecode(items[1..], v, idx + |first|);
    }
  }

  /** A text as a key. */
  lemma {:induction false} KeyDecodes(t: Item, v: Vector, idx: nat)
    requires t.Text? && WellFormed(t) && Stands(v, idx, Written(t))
    ensures idx <= |v| && DecodeKey(v, idx) == Ok(Parsed(t.s, idx + |Written(t)|))
    decreases t, 2
  {
    hide Decode, Written;
    ItemDecodes(t, v, idx);
    TextFirst(t, v, idx);
  }

  lemma TextFirst(t: Item, v: Vector, idx: nat)
    requires t.Text? && WellFormed(t) && Stands(v, idx, Written(t))
    ensures idx < |v| && IsText(v[idx]) && LengthOk(|v|, 1, idx)
  {
    hide TextHead, ReadLength;
    StandsParts(v, idx, TextHead(t.width, |t.s|), t.s);
    TextHeadThere(v, idx, t.width, |t.s|);
    LengthOkMeansInside(|v|, 1, idx);
  }

  lemma {:induction false} MembersDecode(members: seq<Member>, v: Vector, idx: nat, before: map<Bytes, Json>)
    requires (forall k | 0 <= k < |members| :: WellFormedMember(members[k])) && Stands(v, idx, WrittenMembers(members))
    ensures idx <= |v|
    ensures DecodeMembers(v, idx, |members|, before) ==
            Ok(Parsed(Members(members, before), idx + |WrittenMembers(members)|))
    decreases members
  {
    hide Decode, DecodeKey, WrittenMember, KeyOf, MemberValue, WellFormedMember, Stands;
    Inside(v, idx, WrittenMembers(members));
    if members != [] {
      var first, rest := WrittenMember(members[0]), WrittenMembers(members[1..]);
      StandsParts(v, idx, first, rest);
      MemberDecodes(members[0], v, idx);
      MembersDecode(members[1..], v, idx + |first|, before[KeyOf(members[0]) := MemberValue(members[0])]);
    }
  }

  lemma {:induction false} MemberDecodes(m: Member, v: Vector, idx: nat)
    requires WellFormedMember(m) && Stands(v, idx, WrittenMember(m))
    ensures var k := DecodeKey(v, idx);
            && k.Ok? && k.value.value == KeyOf(m)
            && Decode(v, k.value.next) == Ok(Parsed(MemberValue(m), idx + |WrittenMember(m)|))
    decreases m
  {
    hide Decode, DecodeKey, Written, Meaning, WellFormed, Stands;
    StandsParts(v, idx, Written(m.key), Written(m.value));
    KeyDecodes(m.key, v, idx);
    ItemDecodes(m.value, v, idx + |Written(m.key)|);
  }

  // ---- everything that is decoded is a value ----

  lemma LengthRead(v: Vector, idx: nat)
    requires idx < |v| && v[idx] >= 0xC0 && (IsText(v[idx]) || IsArray(v[idx]) || IsMap(v[idx]))
    requires ReadLength(v, idx).Ok?
    ensures var n, width := ReadLength(v, idx).value, Width(v[idx]);
            && Fits(width, n.value) && n.next == idx + 1 + width && Stands(v, idx, [v[idx]] + BigEndian(n.value, width))
  {
    hide BigEndian, Capacity, ReadNumber;
    Capacities();
    NumberRead(v, idx, Width(v[idx]));
  }

  lemma {:induction false} DecodedItem(v: Vector, idx: nat) returns (t: Item)
    requires Decode(v, idx).Ok?
    ensures WellFormed(t) && Stands(v, idx, Written(t))
    ensures Decode(v, idx) == Ok(Parsed(Meaning(t), idx + |Written(t)|))
    ensures IsText(v[idx]) ==> t.Text?
    decreases Left(v, idx), 1
  {
    hide Decode, ReadLength, Stands, Written, WellFormed, Meaning;
    FirstByteKinds(v, idx);
    if IsText(v[idx]) {
      t := TextItem(v, idx);
    } else if IsArray(v[idx]) {
      t := SequenceItem(v, idx);
    } else if IsMap(v[idx]) {
      t := ObjectItem(v, idx);
    } else if 0xCA <= v[idx] <= 0xD3 {
      t := NumberItem(v, idx);
    } else {
      t := SimpleItem(v, idx);
    }
  }

  lemma SimpleItem(v: Vector, idx: nat) returns (t: Item)
    requires idx < |v| && (v[idx] <= 0x7F || v[idx] >= 0xE0 || v[idx] == 0xC0 || v[idx] == 0xC2 || v[idx] == 0xC3)
    ensures WellFormed(t) && Stands(v, idx, Written(t))
    ensures Decode(v, idx) == Ok(Parsed(Meaning(t), idx + |Written(t)|))
  {
    hide Decode;
    DecodeSmallNumber(v, idx);
    OneStands(v, idx);
    t := if v[idx] <= 0x7F then PositiveFixint(v[idx])
         else if v[idx] == 0xC0 then Nil
         else if v[idx] == 0xC2 then FalseItem
         else if v[idx] == 0xC3 then TrueItem
         else NegativeFixint(0x100 - v[idx]);
  }

  lemma NumberItem(v: Vector, idx: nat) returns (t: Item)
    requires idx < |v| && 0xCA <= v[idx] <= 0xD3 && Decode(v, idx).Ok?
    ensures WellFormed(t) && Stands(v, idx, Written(t))
    ensures Decode(v, idx) == Ok(Parsed(Meaning(t), idx + |Written(t)|))
  {
    hide Decode, BigEndian, Capacity, ReadNumber, SingleToDouble;
    Capacities();
    DecodeSmallNumber(v, idx);
    var first := v[idx];
    var width := Width(first);
    NumberRead(v, idx, width);
    var n := ReadNumber(v, idx, width).value;
    if first <= 0xCF {
      t := if first == 0xCA then Single(n) else if first == 0xCB then Double(n) else Unsigned(width, n);
    } else {
      SignedBytes(n, width);
      t := Signed(width, FromTwos(n, width));
    }
  }

  /** The bytes of a number in two's complement are those of the number that they stand for. */
  lemma SignedBytes(n: nat, width: nat)
    requires IsWidth(width) && n < Capacity(width)
    ensures BigEndian(FromTwos(n, width), width) == BigEndian(n, width)
  {
    hide BigEndian, Capacity;
    SameLowBytes(n, if FromTwos(n, width) == n then 0 else -1, width);
  }

  lemma {:induction false} SameLowBytes(n: int, k: int, width: nat)
    ensures BigEndian(n + k * Capacity(width), width) == BigEndian(n, width)
    decreases width
  {
    if width > 0 {
      var c := Capacity(width - 1);
      ShiftedByte(n, k * c);
      assert k * (256 * c) == 256 * (k * c);
      SameLowBytes(n / 256, k, width - 1);
    }
  }

  lemma ShiftedByte(n: int, m: int)
    ensures (n + 256 * m) / 256 == n / 256 + m && (n + 256 * m) % 256 == n % 256
  {
  }

  lemma TextHeadRead(v: Vector, idx: nat) returns (width: nat)
    requires idx < |v| && IsText(v[idx]) && ReadLength(v, idx).Ok?
    ensures var n := ReadLength(v, idx).value;
            && TextFits(width, n.value) && Stands(v, idx, TextHead(width, n.value))
            && n.next == idx + |TextHead(width, n.value)|
  {
    hide BigEndian, Capacity, ReadNumber;
    if v[idx] <= 0xBF {
      width := 0;
      OneStands(v, idx);
    } else {
      width := Width(v[idx]);
      LengthRead(v, idx);
    }
  }

  lemma SequenceHeadRead(v: Vector, idx: nat) returns (width: nat)
    requires idx < |v| && IsArray(v[idx]) && ReadLength(v, idx).Ok?
    ensures var n := ReadLength(v, idx).value;
            && SequenceFits(width, n.value) && Stands(v, idx, SequenceHead(width, n.value))
            && n.next == idx + |SequenceHead(width, n.value)|
  {
    hide BigEndian, Capacity, ReadNumber;
    if v[idx] <= 0x9F {
      width := 0;
      OneStands(v, idx);
    } else {
      width := Width(v[idx]);
      LengthRead(v, idx);
    }
  }

  lemma ObjectHeadRead(v: Vector, idx: nat) returns (width: nat)
    requires idx < |v| && IsMap(v[idx]) && ReadLength(v, idx).Ok?
    ensures var n := ReadLength(v, idx).value;
            && SequenceFits(width, n.value) && Stands(v, idx, ObjectHead(width, n.value))
            && n.next == idx + |ObjectHead(width, n.value)|
  {
    hide BigEndian, Capacity, ReadNumber;
    if v[idx] <= 0x8F {
      width := 0;
      OneStands(v, idx);
    } else {
      width := Width(v[idx]);
      LengthRead(v, idx);
    }
  }

  lemma TextItem(v: Vector, idx: nat) returns (t: Item)
    requires idx < |v| && Decode(v, idx).Ok? && IsText(v[idx]) && ReadLength(v, idx).Ok?
    ensures WellFormed(t) && Stands(v, idx, Written(t)) && t.Text?
    ensures Decode(v, idx) == Ok(Parsed(Meaning(t), idx + |Written(t)|))
  {
    hide Decode, Stands, ReadLength, TextHead, TextFits;
    var n := ReadLength(v, idx).value;
    DecodeLong(v, idx, n);
    LengthOkMeansInside(|v|, n.value, n.next);
    var s := v[n.next..n.next + n.value];
    TextStands(v, n.next, n.next + n.value);
    var width := TextHeadRead(v, idx);
    JoinStands(v, idx, TextHead(width, n.value), s);
    t := Text(width, s);
  }

  lemma TextStands(v: Vector, from: nat, to: nat)
    requires from <= to <= |v|
    ensures Stands(v, from, v[from..to])
  {
  }

  lemma {:induction false} SequenceItem(v: Vector, idx: nat) returns (t: Item)
    requires idx < |v| && Decode(v, idx).Ok? && IsArray(v[idx]) && ReadLength(v, idx).Ok?
    ensures WellFormed(t) && Stands(v, idx, Written(t))
    ensures Decode(v, idx) == Ok(Parsed(Meaning(t), idx + |Written(t)|))
    decreases Left(v, idx), 0
  {
    hide Decode, Stands, ReadLength, SequenceHead, SequenceFits, WrittenItems, Meanings;
    var n := ReadLength(v, idx).value;
    DecodeLong(v, idx, n);
    var items := ItemsRead(v, n.next, n.value);
    var width := SequenceHeadRead(v, idx);
    JoinStands(v, idx, SequenceHead(width, n.value), WrittenItems(items));
    t := Sequence(width, items);
  }

  lemma {:induction false} ObjectItem(v: Vector, idx: nat) returns (t: Item)
    requires idx < |v| && Decode(v, idx).Ok? && IsMap(v[idx]) && ReadLength(v, idx).Ok?
    ensures WellFormed(t) && Stands(v, idx, Written(t))
    ensures Decode(v, idx) == Ok(Parsed(Meaning(t), idx + |Written(t)|))
    decreases Left(v, idx), 0
  {
    hide Decode, Stands, ReadLength, ObjectHead, SequenceFits, WrittenMembers, Members;
    var n := ReadLength(v, idx).value;
    DecodeLong(v, idx, n);
    var members := MembersRead(v, n.next, n.value, map[]);
    var width := ObjectHeadRead(v, idx);
    JoinStands(v, idx, ObjectHead(width, n.value), WrittenMembers(members));
    t := Object(width, members);
  }

  lemma {:induction false} ItemsRead(v: Vector, idx: nat, n: nat) returns (items: seq<Item>)
    requires idx <= |v| && DecodeItems(v, idx, n).Ok?
    ensures |items| == n && (forall k | 0 <= k < |items| :: WellFormed(items[k])) && Stands(v, idx, WrittenItems(items))
    ensures DecodeItems(v, idx, n) == Ok(Parsed(Meanings(items), idx + |WrittenItems(items)|))
    decreases Left(v, idx), 2, n
  {
    hide Decode, Written, Meaning, WellFormed, Stands;
    if n == 0 {
      items := [];
      NothingStands(v, idx);
    } else {
      var t := DecodedItem(v, idx);
      var rest := ItemsRead(v, Decode(v, idx).value.next, n - 1);
      items := [t] + rest;
      assert items[1..] == rest;
      JoinStands(v, idx, Written(t), WrittenItems(rest));
    }
  }

  lemma {:induction false} MemberRead(v: Vector, idx: nat) returns (m: Member)
    requires idx <= |v| && DecodeKey(v, idx).Ok? && Decode(v, DecodeKey(v, idx).value.next).Ok?
    ensures WellFormedMember(m) && Stands(v, idx, WrittenMember(m)) && DecodeKey(v, idx).value.value == KeyOf(m)
    ensures Decode(v, DecodeKey(v, idx).value.next) == Ok(Parsed(MemberValue(m), idx + |WrittenMember(m)|))
    decreases Left(v, idx), 2
  {
    hide Decode, Written, Stands, Meaning;
    KeyIsText(v, idx);
    var key := DecodedItem(v, idx);
    TextMeans(key);
    var value := DecodedItem(v, Decode(v, idx).value.next);
    m := Member(key, value);
    JoinStands(v, idx, Written(key), Written(value));
  }

  lemma TextMeans(t: Item)
    requires t.Text? && WellFormed(t)
    ensures Meaning(t) == Str(t.s)
  {
  }

  lemma KeyIsText(v: Vector, idx: nat)
    requires idx <= |v| && DecodeKey(v, idx).Ok?
    ensures Decode(v, idx).Ok? && Decode(v, idx).value.value == Str(DecodeKey(v, idx).value.value)
    ensures Decode(v, idx).value.next == DecodeKey(v, idx).value.next && idx < |v| && IsText(v[idx])
  {
    hide Decode;
    LengthOkMeansInside(|v|, 1, idx);
  }

  lemma {:induction false} MembersRead(v: Vector, idx: nat, n: nat, before: map<Bytes, Json>)
    returns (members: seq<Member>)
    requires idx <= |v| && DecodeMembers(v, idx, n, before).Ok?
    ensures |members| == n && (forall k | 0 <= k < |members| :: WellFormedMember(members[k]))
    ensures Stands(v, idx, WrittenMembers(members))
    ensures DecodeMembers(v, idx, n, before) ==
            Ok(Parsed(Members(members, before), idx + |WrittenMembers(members)|))
    decreases Left(v, idx), 3, n
  {
    hide Decode, DecodeKey, WrittenMember, KeyOf, MemberValue, WellFormedMember, Stands;
    if n == 0 {
      members := [];
      NothingStands(v, idx);
    } else {
      var m := MemberRead(v, idx);
      var x := Decode(v, DecodeKey(v, idx).value.next).value;
      var rest := MembersRead(v, x.next, n - 1, before[KeyOf(m) := MemberValue(m)]);
      members := [m] + rest;
      assert members[1..] == rest;
      JoinStands(v, idx, WrittenMember(m), WrittenMembers(rest));
    }
  }

  /** `from_msgpack` accepts exactly the values: a decoder at an index gives a document and the index behind it if and
      only if a value with that meaning stands between them. */
  lemma DecodeIff(v: Vector, idx: nat, j: Json, next: nat)
    ensures Decode(v, idx) == Ok(Parsed(j, next)) <==> exists t :: Denotes(v, idx, t, j, next)
  {
    hide Decode, Written, Meaning, WellFormed, Stands;
    if Decode(v, idx) == Ok(Parsed(j, next)) {
      var t := DecodedItem(v, idx);
      assert Denotes(v, idx, t, j, next);
    }
    if t :| Denotes(v, idx, t, j, next) {
      ItemDecodes(t, v, idx);
    }
  }

  /** A value stands from `idx` up to `next` and means `j`. */
  predicate Denotes(v: Vector, idx: nat, t: Item, j: Json, next: nat) {
    WellFormed(t) && Stands(v, idx, Written(t)) && next == idx + |Written(t)| && Meaning(t) == j
  }

  // ---- the encoder writes values ----

  function ShortestText(n: nat): nat {
    if n < 32 then 0 else if n < 0x100 then 1 else if n < 0x1_0000 then 2 else 4
  }

  function ShortestSequence(n: nat): nat {
    if n < 16 then 0 else if n < 0x1_0000 then 2 else 4
  }

  function ShortestNumber(n: nat): Item {
    if n < 0x80 then PositiveFixint(n)
    else Unsigned(if n < 0x100 then 1 else if n < 0x1_0000 then 2 else if n < 0x1_0000_0000 then 4 else 8, n)
  }

  function ShortestNegative(i: int): Item
    requires i < 0
  {
    if i >= -32 then NegativeFixint(-1 * i)
    else Signed(if i >= -0x80 then 1 else if i >= -0x8000 then 2 else if i >= -0x8000_0000 then 4 else 8, i)
  }

  /** The value that is written for a document: no width is larger than it has to be, every number is a double, and
      the members of an object come in key order. */
  function ItemOf(j: Json): Item
    decreases j, 1, 0
  {
    match j
    case Null => Nil
    case Bool(b) => if b then TrueItem else FalseItem
    case Int(i) => if i >= 0 then ShortestNumber(i) else ShortestNegative(i)
    case Uint(u) => ShortestNumber(u)
    case Float(bits) => Double(bits)
    case Str(s) => Text(ShortestText(|s|), s)
    case Arr(a) => Sequence(ShortestSequence(|a|), ItemsOf(j, |a|))
    case Obj(m) => Object(ShortestSequence(|m|), MembersOf(j, SortedKeys(m.Keys)))
  }

  function ItemsOf(j: Json, n: nat): (items: seq<Item>)
    requires j.Arr? && n <= |j.items|
    ensures |items| == n
    decreases j, 0, n
  {
    if n == 0 then [] else ItemsOf(j, n - 1) + [ItemOf(j.items[n - 1])]
  }

  function MembersOf(j: Json, keys: seq<Bytes>): (members: seq<Member>)
    requires j.Obj? && forall k | k in keys :: k in j.members
    ensures |members| == |keys|
    decreases j, 0, |keys|
  {
    if keys == [] then []
    else
      var key := keys[|keys| - 1];
      MembersOf(j, keys[..|keys| - 1]) + [Member(Text(ShortestText(|key|), key), ItemOf(j.members[key]))]
  }

  lemma NumberIsItem(n: uint64)
    ensures WellFormed(ShortestNumber(n)) && Written(ShortestNumber(n)) == UnsignedBytes(n)
  {
    OneByte(n);
    hide BigEndian;
  }

  lemma NegativeIsItem(i: int64)
    requires i < 0
    ensures WellFormed(ShortestNegative(i)) && Written(ShortestNegative(i)) == NegativeBytes(i)
  {
    OneByte(i);
    hide BigEndian;
  }

  lemma TextIsItem(s: Bytes)
    requires |s| <= MAX_SIZE
    ensures var t := Text(ShortestText(|s|), s); WellFormed(t) && Written(t) == EncodeText(s)
  {
    hide BigEndian;
  }

  lemma HeaderIsHead(n: nat)
    requires n <= MAX_SIZE
    ensures SequenceFits(ShortestSequence(n), n)
    ensures SequenceHead(ShortestSequence(n), n) == ContainerHeader(Array, n)
    ensures ObjectHead(ShortestSequence(n), n) == ContainerHeader(Map, n)
  {
    hide BigEndian;
  }

  lemma {:induction false} WrittenSnoc(items: seq<Item>, t: Item)
    requires (forall k | 0 <= k < |items| :: WellFormed(items[k])) && WellFormed(t)
    ensures forall k | 0 <= k < |items + [t]| :: WellFormed((items + [t])[k])
    ensures WrittenItems(items + [t]) == WrittenItems(items) + Written(t)
    decreases |items|
  {
    hide Written, WellFormed;
    if items == [] {
      assert [] + [t] == [t] && [t][1..] == [];
    } else {
      assert (items + [t])[1..] == items[1..] + [t];
      WrittenSnoc(items[1..], t);
    }
  }

  lemma {:induction false} WrittenMembersSnoc(members: seq<Member>, m: Member)
    requires (forall k | 0 <= k < |members| :: WellFormedMember(members[k])) && WellFormedMember(m)
    ensures forall k | 0 <= k < |members + [m]| :: WellFormedMember((members + [m])[k])
    ensures WrittenMembers(members + [m]) == WrittenMembers(members) + WrittenMember(m)
    decreases |members|
  {
    hide WrittenMember, WellFormedMember;
    if members == [] {
      assert [] + [m] == [m] && [m][1..] == [];
    } else {
      assert (members + [m])[1..] == members[1..] + [m];
      WrittenMembersSnoc(members[1..], m);
    }
  }

  /** The bytes of a document are those of its value. */
  lemma {:induction false} WritesItem(j: Json)
    requires Small(j)
    ensures WellFormed(ItemOf(j)) && Written(ItemOf(j)) == Encode(j)
    decreases j, 1, 0
  {
    hide ContainerHeader, TextHeader, UnsignedBytes, NegativeBytes, SequenceHead, ObjectHead, ShortestNumber,
         ShortestNegative, BigEndian, EncodeItems, EncodeMembers, ItemsOf, MembersOf, SortedKeys, WrittenItems,
         WrittenMembers;
    match j
    case Int(i) =>
      if i >= 0 {
        NumberIsItem(i);
      } else {
        NegativeIsItem(i);
      }
    case Uint(u) => NumberIsItem(u);
    case Str(s) => TextIsItem(s);
    case Arr(a) =>
      HeaderIsHead(|a|);
      WritesItems(j, |a|);
    case Obj(m) =>
      HeaderIsHead(|m|);
      WritesMembers(j, SortedKeys(m.Keys));
    case _ =>
  }

  lemma {:induction false} WritesItems(j: Json, n: nat)
    requires j.Arr? && n <= |j.items| && Small(j)
    ensures forall k | 0 <= k < n :: WellFormed(ItemsOf(j, n)[k])
    ensures WrittenItems(ItemsOf(j, n)) == EncodeItems(j, n)
    decreases j, 0, n
  {
    hide Encode, Written, WellFormed, ItemOf, Small;
    ItemsSnoc(j, n);
    if n > 0 {
      SmallItem(j, n - 1);
      WritesItems(j, n - 1);
      WritesItem(j.items[n - 1]);
      WrittenSnoc(ItemsOf(j, n - 1), ItemOf(j.items[n - 1]));
    }
  }

  lemma {:induction false} WritesMembers(j: Json, keys: seq<Bytes>)
    requires j.Obj? && (forall k | k in keys :: k in j.members) && Small(j)
    ensures forall k | 0 <= k < |keys| :: WellFormedMember(MembersOf(j, keys)[k])
    ensures WrittenMembers(MembersOf(j, keys)) == EncodeMembers(j, keys)
    decreases j, 0, |keys|
  {
    hide Encode, EncodeText, Written, WellFormed, ItemOf, Small;
    MembersSnoc(j, keys);
    if keys != [] {
      var key := keys[|keys| - 1];
      var front := keys[..|keys| - 1];
      SmallMember(j, key);
      WritesMembers(j, front);
      WritesItem(j.members[key]);
      TextIsItem(key);
      WrittenMembersSnoc(MembersOf(j, front), Member(Text(ShortestText(|key|), key), ItemOf(j.members[key])));
    }
  }

  /** `to_msgpack` writes the value of a document, in the smallest widths, and the value means the document. */
  lemma EncodesItem(j: Json)
    requires Small(j) && |Encode(j)| < TWO_TO_THE_63
    ensures WellFormed(ItemOf(j)) && Written(ItemOf(j)) == Encode(j) && Meaning(ItemOf(j)) == Canonical(j)
  {
    hide Encode, Decode, Written, WellFormed, Meaning, Canonical, ItemOf, Small;
    WritesItem(j);
    StandsWithin([], Encode(j), []);
    assert [] + Encode(j) + [] == Encode(j);
    ItemDecodes(ItemOf(j), Encode(j), 0);
    DecodeEncode(j, Encode(j), 0);
  }
}
