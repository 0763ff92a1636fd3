/** MessagePack: `to_msgpack_internal` and `from_msgpack_internal`. */
module MsgPack {
  import opened Binary
  import opened ByteStrings
  import opened Json

  const MAX_SIZE := 0xFFFF_FFFF

  // ---- encoding ----

  function UnsignedBytes(n: nat): Bytes {
    if n < 0x80 then BigEndian(n, 1)
    else if n <= 0xFF then [0xCC] + BigEndian(n, 1)
    else if n <= 0xFFFF then [0xCD] + BigEndian(n, 2)
    else if n <= 0xFFFF_FFFF then [0xCE] + BigEndian(n, 4)
    else [0xCF] + BigEndian(n, 8)
  }

  function NegativeBytes(i: int): Bytes {
    if i >= -32 then BigEndian(i, 1)
    else if i >= -0x80 then [0xD0] + BigEndian(i, 1)
    else if i >= -0x8000 then [0xD1] + BigEndian(i, 2)
    else if i >= -0x8000_0000 then [0xD2] + BigEndian(i, 4)
    else [0xD3] + BigEndian(i, 8)
  }

  /** The bytes in front of a string. One of more than 2^32 - 1 bytes gets none. */
  function TextHeader(n: nat): Bytes {
    if n <= 31 then [0xA0 + n]
    else if n <= 0xFF then [0xD9] + BigEndian(n, 1)
    else if n <= 0xFFFF then [0xDA] + BigEndian(n, 2)
    else if n <= MAX_SIZE then [0xDB] + BigEndian(n, 4)
    else []
  }

  datatype Container = Array | Map

  /** The bytes in front of the elements of an array or an object. */
  function ContainerHeader(c: Container, n: nat): Bytes {
    if n <= 15 then [(if c.Array? then 0x90 else 0x80) + n]
    else if n <= 0xFFFF then [if c.Array? then 0xDC else 0xDE] + BigEndian(n, 2)
    else if n <= MAX_SIZE then [if c.Array? then 0xDD else 0xDF] + BigEndian(n, 4)
    else []
  }

  function EncodeText(s: Bytes): Bytes {
    TextHeader(|s|) + s
  }

  /** The bytes that `to_msgpack_internal` appends. */
  function Encode(j: Json): Bytes
    decreases j, 1, 0
  {
    match j
    case Null => [0xC0]
    case Bool(b) => [if b then 0xC3 else 0xC2]
    case Int(i) => if i >= 0 then UnsignedBytes(i) else NegativeBytes(i)
    case Uint(u) => UnsignedBytes(u)
    case Float(bits) => [0xCB] + BigEndian(bits, 8)
    case Str(s) => EncodeText(s)
    case Arr(a) => ContainerHeader(Array, |a|) + EncodeItems(j, |a|)
    case Obj(m) => ContainerHeader(Map, |m|) + EncodeMembers(j, SortedKeys(m.Keys))
  }

  function EncodeItems(j: Json, n: nat): Bytes
    requires j.Arr? && n <= |j.items|
    decreases j, 0, n
  {
    if n == 0 then [] else EncodeItems(j, n - 1) + Encode(j.items[n - 1])
  }

  function EncodeMembers(j: Json, keys: seq<Bytes>): Bytes
    requires j.Obj? && forall k | k in keys :: k in j.members
    decreases j, 0, |keys|
  {
    if keys == [] then []
    else EncodeMembers(j, keys[..|keys| - 1])
         + (EncodeText(keys[|keys| - 1]) + Encode(j.members[keys[|keys| - 1]]))
  }

  lemma EncodeUnfold(j: Json)
    ensures j.Arr? ==> Encode(j) == ContainerHeader(Array, |j.items|) + EncodeItems(j, |j.items|)
    ensures j.Obj? ==> Encode(j) == ContainerHeader(Map, |j.members|) + EncodeMembers(j, SortedKeys(j.members.Keys))
  {
    hide EncodeItems, EncodeMembers, SortedKeys, ContainerHeader;
  }

  lemma ItemsSnoc(j: Json, n: nat)
    requires j.Arr? && n <= |j.items|
    ensures EncodeItems(j, n) == if n == 0 then [] else EncodeItems(j, n - 1) + Encode(j.items[n - 1])
  {
    hide Encode;
  }

  lemma MembersSnoc(j: Json, keys: seq<Bytes>)
    requires j.Obj? && forall k | k in keys :: k in j.members
    ensures keys == [] ==> EncodeMembers(j, keys) == []
    ensures keys != [] ==>
              var last := |keys| - 1;
              EncodeMembers(j, keys) ==
              EncodeMembers(j, keys[..last]) + (EncodeText(keys[last]) + Encode(j.members[keys[last]]))
  {
    hide Encode, EncodeText;
  }

  /** `to_msgpack_internal` */
  method ToMsgPack(j: Json, out: ByteVector)
    modifies out
    ensures out.v == old(out.v) + Encode(j)
    decreases j, 1
  {
    hide BigEndian, SortedKeys, UnsignedBytes, NegativeBytes, TextHeader, ContainerHeader;
    match j
    case Null => out.PushBack(0xC0);
    case Bool(b) => out.PushBack(if b then 0xC3 else 0xC2);
    case Int(i) =>
      if i >= 0 {
        WriteUnsigned(i, out);
      } else {
        WriteNegative(i, out);
      }
    case Uint(u) => WriteUnsigned(u, out);
    case Float(bits) =>
      out.PushBack(0xCB);
      out.AddToVector(8, bits);
    case Str(s) => WriteText(s, out);
    case Arr(_) => WriteArray(j, out);
    case Obj(_) => WriteObject(j, out);
  }

  method WriteUnsigned(n: nat, out: ByteVector)
    modifies out
    ensures out.v == old(out.v) + UnsignedBytes(n)
  {
    hide BigEndian;
    if n < 0x80 {
      out.AddToVector(1, n);
    } else if n <= 0xFF {
      out.PushBack(0xCC);
      out.AddToVector(1, n);
    } else if n <= 0xFFFF {
      out.PushBack(0xCD);
      out.AddToVector(2, n);
    } else if n <= 0xFFFF_FFFF {
      out.PushBack(0xCE);
      out.AddToVector(4, n);
    } else {
      out.PushBack(0xCF);
      out.AddToVector(8, n);
    }
  }

  method WriteNegative(i: int, out: ByteVector)
    modifies out
    ensures out.v == old(out.v) + NegativeBytes(i)
  {
    hide BigEndian;
    if i >= -32 {
      out.AddToVector(1, i);
    } else if i >= -0x80 {
      out.PushBack(0xD0);
      out.AddToVector(1, i);
    } else if i >= -0x8000 {
      out.PushBack(0xD1);
      out.AddToVector(2, i);
    } else if i >= -0x8000_0000 {
      out.PushBack(0xD2);
      out.AddToVector(4, i);
    } else {
      out.PushBack(0xD3);
      out.AddToVector(8, i);
    }
  }

  method WriteArray(j: Json, out: ByteVector)
    requires j.Arr?
    modifies out
    ensures out.v == old(out.v) + Encode(j)
    decreases j, 0
  {
    hide ContainerHeader, EncodeItems, Encode;
    var a := j.items;
    ItemsSnoc(j, 0);
    RegroupLast(out.v, ContainerHeader(Array, |a|), [], []);
    WriteContainerHeader(Array, |a|, out);
    for k := 0 to |a|
      invariant out.v == old(out.v) + (ContainerHeader(Array, |a|) + EncodeItems(j, k))
    {
      ItemsSnoc(j, k + 1);
      RegroupLast(old(out.v), ContainerHeader(Array, |a|), EncodeItems(j, k), Encode(a[k]));
      ToMsgPack(a[k], out);
    }
    EncodeUnfold(j);
  }

  method WriteObject(j: Json, out: ByteVector)
    requires j.Obj?
    modifies out
    ensures out.v == old(out.v) + Encode(j)
    decreases j, 0
  {
    hide ContainerHeader, SortedKeys, EncodeText, EncodeMembers, Encode;
    var m := j.members;
    MembersSnoc(j, []);
    RegroupLast(out.v, ContainerHeader(Map, |m|), [], []);
    WriteContainerHeader(Map, |m|, out);
    var keys := SortedKeys(m.Keys);
    for k := 0 to |keys|
      invariant out.v == old(out.v) + (ContainerHeader(Map, |m|) + EncodeMembers(j, keys[..k]))
    {
      ghost var front, text, value := keys[..k], EncodeText(keys[k]), Encode(m[keys[k]]);
      assert keys[..k + 1][..k] == front;
      MembersSnoc(j, keys[..k + 1]);
      RegroupLast(old(out.v), ContainerHeader(Map, |m|), EncodeMembers(j, front), text + value);
      RegroupLast(out.v, text, [], value);
      WriteText(keys[k], out);
      ToMsgPack(m[keys[k]], out);
    }
    assert keys[..|keys|] == keys;
    EncodeUnfold(j);
  }

  method WriteContainerHeader(c: Container, n: nat, out: ByteVector)
    modifies out
    ensures out.v == old(out.v) + ContainerHeader(c, n)
  {
    hide BigEndian;
    if n <= 15 {
      out.PushBack((if c.Array? then 0x90 else 0x80) + n);
    } else if n <= 0xFFFF {
      out.PushBack(if c.Array? then 0xDC else 0xDE);
      out.AddToVector(2, n);
    } else if n <= MAX_SIZE {
      out.PushBack(if c.Array? then 0xDD else 0xDF);
      out.AddToVector(4, n);
    }
  }

  method WriteText(s: Bytes, out: ByteVector)
    modifies out
    ensures out.v == old(out.v) + EncodeText(s)
  {
    hide BigEndian;
    var n := |s|;
    if n <= 31 {
      out.PushBack(0xA0 + n);
    } else if n <= 0xFF {
      out.PushBack(0xD9);
      out.AddToVector(1, n);
    } else if n <= 0xFFFF {
      out.PushBack(0xDA);
      out.AddToVector(2, n);
    } else if n <= MAX_SIZE {
      out.PushBack(0xDB);
      out.AddToVector(4, n);
    }
    out.Append(s);
  }

  // ---- decoding ----

  /** The first bytes of strings; `msgpack_expect_string` asks for one of them. */
  predicate IsText(first: byte) {
    0xA0 <= first <= 0xBF || 0xD9 <= first <= 0xDB
  }

  predicate IsArray(first: byte) {
    0x90 <= first <= 0x9F || first == 0xDC || first == 0xDD
  }

  predicate IsMap(first: byte) {
    0x80 <= first <= 0x8F || first == 0xDE || first == 0xDF
  }

  /** How many bytes of a number follow the first byte. */
  function Width(first: byte): (w: nat)
    ensures w == 0 || w == 1 || w == 2 || w == 4 || w == 8
  {
    if first == 0xCC || first == 0xD0 || first == 0xD9 then 1
    else if first == 0xCD || first == 0xD1 || first == 0xDA || first == 0xDC || first == 0xDE then 2
    else if first == 0xCA || first == 0xCE || first == 0xD2 || first == 0xDB || first == 0xDD || first == 0xDF then 4
    else if first == 0xCB || first == 0xCF || first == 0xD3 then 8
    else 0
  }

  /** The length of a string, array or map: in the first byte, or in the bytes after it. */
  function ReadLength(v: Vector, at: nat): (r: Result<Parsed<nat>>)
    requires at < |v| && (IsText(v[at]) || IsArray(v[at]) || IsMap(v[at]))
    ensures r.Ok? ==> at < r.value.next <= |v| && r.value.value <= MAX_SIZE
    ensures r.Err? ==> r.error == ParseError(110)
  {
    var first := v[at];
    if first <= 0x9F then Ok(Parsed(first % 0x10, at + 1))
    else if first <= 0xBF then Ok(Parsed(first % 0x20, at + 1))
    else
      Capacities();
      var n :- ReadNumber(v, at, Width(first));
      Ok(Parsed(n, at + 1 + Width(first)))
  }

  /** A number in two's complement. */
  function FromTwos(n: nat, width: nat): int64
    requires (width == 1 || width == 2 || width == 4 || width == 8) && n < Capacity(width)
  {
    Capacities();
    if n < Capacity(width) / 2 then n else n - Capacity(width)
  }

  /** `from_msgpack_internal`: the value at `idx` and the index behind it. Binary data, extensions and
      the unused first byte are refused. */
  function Decode(v: Vector, idx: nat): (r: Result<Parsed<Json>>)
    ensures r.Ok? ==> idx < r.value.next <= |v|
    ensures r.Ok? && IsText(v[idx]) ==> r.value.value.Str?
    decreases Left(v, idx), 0, 0
  {
    if !LengthOk(|v|, 1, idx) then Err(ParseError(110))
    else
      var first := v[idx];
      if first <= 0x7F then Ok(Parsed(Uint(first), idx + 1))
      else if first >= 0xE0 then (Capacities(); Ok(Parsed(Int(FromTwos(first, 1)), idx + 1)))
      else if IsText(first) then
        var n :- ReadLength(v, idx);
        if !LengthOk(|v|, n.value, n.next) then Err(ParseError(110))
        else Ok(Parsed(Str(v[n.next..n.next + n.value]), n.next + n.value))
      else if IsArray(first) then
        var n :- ReadLength(v, idx);
        var a :- DecodeItems(v, n.next, n.value);
        Ok(Parsed(Arr(a.value), a.next))
      else if IsMap(first) then
        var n :- ReadLength(v, idx);
        var m :- DecodeMembers(v, n.next, n.value, map[]);
        Ok(Parsed(Obj(m.value), m.next))
      else if first == 0xC0 then Ok(Parsed(Null, idx + 1))
      else if first == 0xC2 then Ok(Parsed(Bool(false), idx + 1))
      else if first == 0xC3 then Ok(Parsed(Bool(true), idx + 1))
      else if 0xCA <= first <= 0xD3 then DecodeNumber(v, idx)
      else Err(ParseError(112))
  }

  /** A number that follows its first byte. */
  function DecodeNumber(v: Vector, idx: nat): (r: Result<Parsed<Json>>)
    requires idx < |v| && 0xCA <= v[idx] <= 0xD3
    ensures r.Ok? ==> idx < r.value.next <= |v|
  {
    var first := v[idx];
    Capacities();
    var n :- ReadNumber(v, idx, Width(first));
    Ok(Parsed(if first == 0xCA then Float(SingleToDouble(n))
              else if first == 0xCB then Float(n)
              else if first <= 0xCF then Uint(n)
              else Int(FromTwos(n, Width(first))),
              idx + 1 + Width(first)))
  }

  /** `n` values one after the other. */
  function DecodeItems(v: Vector, idx: nat, n: nat): (r: Result<Parsed<seq<Json>>>)
    requires idx <= |v|
    ensures r.Ok? ==> idx <= r.value.next <= |v| && |r.value.value| == n
    decreases Left(v, idx), 1, n
  {
    if n == 0 then Ok(Parsed([], idx))
    else
      var x :- Decode(v, idx);
      var rest :- DecodeItems(v, x.next, n - 1);
      Ok(Parsed([x.value] + rest.value, rest.next))
  }

  /** `msgpack_expect_string` and the key behind it. */
  function DecodeKey(v: Vector, idx: nat): (r: Result<Parsed<Bytes>>)
    requires idx <= |v|
    ensures r.Ok? ==> idx < r.value.next <= |v|
    decreases Left(v, idx), 1, 0
  {
    if !LengthOk(|v|, 1, idx) then Err(ParseError(110))
    else if IsText(v[idx]) then
      var x :- Decode(v, idx);
      Ok(Parsed(x.value.s, x.next))
    else Err(ParseError(113))
  }

  /** `n` members; a later one replaces an earlier one with the same key. */
  function DecodeMembers(v: Vector, idx: nat, n: nat, m: map<Bytes, Json>): (r: Result<Parsed<map<Bytes, Json>>>)
    requires idx <= |v|
    ensures r.Ok? ==> idx <= r.value.next <= |v|
    decreases Left(v, idx), 2, n
  {
    if n == 0 then Ok(Parsed(m, idx))
    else
      var k :- DecodeKey(v, idx);
      var x :- Decode(v, k.next);
      DecodeMembers(v, x.next, n - 1, m[k.value := x.value])
  }

  // ---- the decoder undoes the encoder ----

  /** No string, key, array or object is longer than its header can say. */
  predicate Small(j: Json) {
    match j
    case Str(s) => |s| <= MAX_SIZE
    case Arr(a) => |a| <= MAX_SIZE && forall x | x in a :: Small(x)
    case Obj(m) => |m| <= MAX_SIZE && forall k | k in m :: |k| <= MAX_SIZE && Small(m[k])
    case _ => true
  }

  lemma SmallMember(j: Json, k: Bytes)
    requires j.Obj? && k in j.members && Small(j)
    ensures |k| <= MAX_SIZE && Small(j.members[k])
  {
  }

  lemma SmallItem(j: Json, k: nat)
    requires j.Arr? && k < |j.items| && Small(j)
    ensures Small(j.items[k])
  {
  }

  lemma SmallSize(j: Json)
    requires Small(j)
    ensures j.Arr? ==> |j.items| <= MAX_SIZE
    ensures j.Obj? ==> |j.members| <= MAX_SIZE
  {
  }

  lemma FirstStands(v: Vector, idx: nat, first: byte, rest: Bytes)
    requires Stands(v, idx, [first] + rest)
    ensures idx < |v| && v[idx] == first && LengthOk(|v|, 1, idx)
  {
    assert v[idx..idx + 1 + |rest|][0] == v[idx];
  }

  lemma ReadTextHeader(v: Vector, idx: nat, n: nat)
    requires n <= MAX_SIZE && Stands(v, idx, TextHeader(n))
    ensures idx < |v| && IsText(v[idx]) && LengthOk(|v|, 1, idx)
    ensures ReadLength(v, idx) == Ok(Parsed(n, idx + |TextHeader(n)|))
  {
    hide BigEndian, Capacity, ReadNumber;
    Capacities();
    if n <= 31 {
      assert [0xA0 + n] + [] == TextHeader(n);
      FirstStands(v, idx, 0xA0 + n, []);
    } else {
      var width := if n <= 0xFF then 1 else if n <= 0xFFFF then 2 else 4;
      var first := if n <= 0xFF then 0xD9 else if n <= 0xFFFF then 0xDA else 0xDB;
      FirstStands(v, idx, first, BigEndian(n, width));
      ReadBack(v, idx, first, n, width, 0);
    }
  }

  lemma ReadContainerHeader(v: Vector, idx: nat, c: Container, n: nat)
    requires n <= MAX_SIZE && Stands(v, idx, ContainerHeader(c, n))
    ensures idx < |v| && (if c.Array? then IsArray(v[idx]) else IsMap(v[idx])) && LengthOk(|v|, 1, idx)
    ensures ReadLength(v, idx) == Ok(Parsed(n, idx + |ContainerHeader(c, n)|))
  {
    hide BigEndian, Capacity, ReadNumber;
    Capacities();
    if n <= 15 {
      var first := (if c.Array? then 0x90 else 0x80) + n;
      assert [first] + [] == ContainerHeader(c, n);
      FirstStands(v, idx, first, []);
    } else {
      var width := if n <= 0xFFFF then 2 else 4;
      var first := if n <= 0xFFFF then if c.Array? then 0xDC else 0xDE else if c.Array? then 0xDD else 0xDF;
      FirstStands(v, idx, first, BigEndian(n, width));
      ReadBack(v, idx, first, n, width, 0);
    }
  }

  lemma DecodeText(v: Vector, idx: nat, s: Bytes)
    requires Stands(v, idx, EncodeText(s)) && |s| <= MAX_SIZE
    ensures Decode(v, idx) == Ok(Parsed(Str(s), idx + |EncodeText(s)|))
    ensures DecodeKey(v, idx) == Ok(Parsed(s, idx + |EncodeText(s)|))
  {
    hide ReadLength, TextHeader;
    StandsParts(v, idx, TextHeader(|s|), s);
    ReadTextHeader(v, idx, |s|);
  }

  predicate IsWidth(width: nat) {
    width == 1 || width == 2 || width == 4 || width == 8
  }

  lemma NumberThere(v: Vector, idx: nat, first: byte, width: nat, number: int, wraps: int)
    requires 0xCA <= first <= 0xD3 && Width(first) == width && IsWidth(width)
    requires 0 <= number + wraps * Capacity(width) < Capacity(width)
    requires Stands(v, idx, [first] + BigEndian(number, width))
    ensures idx < |v| && LengthOk(|v|, 1, idx) && v[idx] == first
    ensures ReadNumber(v, idx, width) == Ok(number + wraps * Capacity(width))
  {
    hide BigEndian, Capacity, ReadNumber;
    FirstThere(v, idx, first, BigEndian(number, width));
    ReadBack(v, idx, first, number, width, wraps);
  }

  lemma FixintThere(v: Vector, idx: nat, first: byte)
    requires Stands(v, idx, [first]) && (first < 0x80 || first >= 0xE0)
    ensures idx < |v| && v[idx] == first
    ensures Decode(v, idx) == Ok(Parsed(if first < 0x80 then Uint(first) else Int(first as int - 0x100), idx + 1))
  {
    hide ReadLength, DecodeNumber, DecodeItems, DecodeMembers;
    Capacities();
    assert [first] + [] == [first];
    FirstStands(v, idx, first, []);
  }

  /** The first byte of a number that needs bytes of its own, and how many they are. */
  lemma UnsignedShape(n: uint64) returns (first: byte, width: nat)
    requires n >= 0x80
    ensures 0xCC <= first <= 0xCF && Width(first) == width && IsWidth(width) && n < Capacity(width)
    ensures UnsignedBytes(n) == [first] + BigEndian(n, width)
  {
    hide BigEndian, Capacity;
    Capacities();
    width := if n <= 0xFF then 1 else if n <= 0xFFFF then 2 else if n <= 0xFFFF_FFFF then 4 else 8;
    first := if n <= 0xFF then 0xCC else if n <= 0xFFFF then 0xCD else if n <= 0xFFFF_FFFF then 0xCE else 0xCF;
  }

  lemma NegativeShape(i: int64) returns (first: byte, width: nat)
    requires i < -32
    ensures 0xD0 <= first <= 0xD3 && Width(first) == width && IsWidth(width) && i + Capacity(width) / 2 >= 0
    ensures NegativeBytes(i) == [first] + BigEndian(i, width)
  {
    hide BigEndian, Capacity;
    Capacities();
    width := if i >= -0x80 then 1 else if i >= -0x8000 then 2 else if i >= -0x8000_0000 then 4 else 8;
    first := if i >= -0x80 then 0xD0 else if i >= -0x8000 then 0xD1 else if i >= -0x8000_0000 then 0xD2 else 0xD3;
  }

  lemma DecodeUnsigned(v: Vector, idx: nat, n: uint64)
    requires Stands(v, idx, UnsignedBytes(n))
    ensures Decode(v, idx) == Ok(Parsed(Uint(n), idx + |UnsignedBytes(n)|))
  {
    if n < 0x80 {
      OneByte(n);
      hide BigEndian, Decode;
      FixintThere(v, idx, n);
    } else {
      hide BigEndian, Capacity, ReadNumber, Decode, Stands, UnsignedBytes;
      var first, width := UnsignedShape(n);
      NumberThere(v, idx, first, width, n, 0);
      NumberFollows(v, idx);
    }
  }

  /** Two's complement, down to the smallest number of each width. */
  lemma DecodeNegative(v: Vector, idx: nat, i: int64)
    requires i < 0 && Stands(v, idx, NegativeBytes(i))
    ensures Decode(v, idx) == Ok(Parsed(Int(i), idx + |NegativeBytes(i)|))
  {
    if i >= -32 {
      OneByte(i);
      hide BigEndian, Decode;
      FixintThere(v, idx, i + 0x100);
    } else {
      hide BigEndian, Capacity, ReadNumber, Decode, DecodeNumber, Stands, NegativeBytes;
      var first, width := NegativeShape(i);
      NegativeThere(v, idx, first, width, i);
      NumberFollows(v, idx);
    }
  }

  lemma NegativeThere(v: Vector, idx: nat, first: byte, width: nat, i: int64)
    requires i < 0 && 0xD0 <= first <= 0xD3 && Width(first) == width && IsWidth(width) && i + Capacity(width) / 2 >= 0
    requires Stands(v, idx, [first] + BigEndian(i, width))
    ensures idx < |v| && LengthOk(|v|, 1, idx) && v[idx] == first
    ensures DecodeNumber(v, idx) == Ok(Parsed(Int(i), idx + 1 + width))
  {
    hide BigEndian, Capacity, ReadNumber, Stands;
    Capacities();
    NumberThere(v, idx, first, width, i, 1);
  }

  lemma NumberFollows(v: Vector, idx: nat)
    requires idx < |v| && LengthOk(|v|, 1, idx) && 0xCA <= v[idx] <= 0xD3
    ensures Decode(v, idx) == DecodeNumber(v, idx)
  {
    hide DecodeNumber, ReadLength, DecodeItems, DecodeMembers;
  }

  lemma DecodeFloat(v: Vector, idx: nat, bits: uint64)
    requires Stands(v, idx, [0xCB] + BigEndian(bits, 8))
    ensures Decode(v, idx) == Ok(Parsed(Float(bits), idx + 9))
  {
    hide BigEndian, Capacity, ReadNumber;
    Capacities();
    FirstStands(v, idx, 0xCB, BigEndian(bits, 8));
    ReadBack(v, idx, 0xCB, bits, 8, 0);
  }

  /** Decoding what was encoded, wherever it stands in a vector: the value comes back in canonical
      form, and the index is left exactly behind its bytes. */
  lemma {:induction false} DecodeEncode(j: Json, v: Vector, idx: nat)
    requires Small(j) && Stands(v, idx, Encode(j))
    ensures Decode(v, idx) == Ok(Parsed(Canonical(j), idx + |Encode(j)|))
    decreases j, 1, 0
  {
    hide UnsignedBytes, NegativeBytes, EncodeText, ContainerHeader, BigEndian, SortedKeys, Decode, Stands, EncodeItems,
         EncodeMembers;
    match j
    case Int(i) =>
      if i >= 0 {
        DecodeUnsigned(v, idx, i);
      } else {
        DecodeNegative(v, idx, i);
      }
    case Uint(u) => DecodeUnsigned(v, idx, u);
    case Float(bits) => DecodeFloat(v, idx, bits);
    case Str(s) => DecodeText(v, idx, s);
    case Arr(a) => DecodeArray(j, v, idx);
    case Obj(m) => DecodeObject(j, v, idx);
    case Null => DecodeConstant(v, idx, 0xC0);
    case Bool(b) => DecodeConstant(v, idx, if b then 0xC3 else 0xC2);
  }

  lemma DecodeConstant(v: Vector, idx: nat, first: byte)
    requires Stands(v, idx, [first]) && (first == 0xC0 || first == 0xC2 || first == 0xC3)
    ensures Decode(v, idx) == Ok(Parsed(if first == 0xC0 then Null else Bool(first == 0xC3), idx + 1))
  {
    assert [first] + [] == [first];
    FirstStands(v, idx, first, []);
  }

  lemma {:induction false} DecodeArray(j: Json, v: Vector, idx: nat)
    requires j.Arr? && Small(j) && Stands(v, idx, Encode(j))
    ensures Decode(v, idx) == Ok(Parsed(Canonical(j), idx + |Encode(j)|))
    decreases j, 0, |j.items| + 1
  {
    hide ReadLength, ContainerHeader, DecodeItems, EncodeItems, Canonical, Small, Stands;
    SmallSize(j);
    var n := |j.items|;
    StandsParts(v, idx, ContainerHeader(Array, n), EncodeItems(j, n));
    ReadContainerHeader(v, idx, Array, n);
    var start := idx + |ContainerHeader(Array, n)|;
    DecodeItemsEncode(j, v, start, n, start + |EncodeItems(j, n)|, 0);
    CanonicalArray(j);
    DecodeNothing(v, start + |EncodeItems(j, n)|);
  }

  lemma DecodeNothing(v: Vector, idx: nat)
    requires idx <= |v|
    ensures DecodeItems(v, idx, 0) == Ok(Parsed([], idx))
    ensures forall m :: DecodeMembers(v, idx, 0, m) == Ok(Parsed(m, idx))
  {
  }

  lemma OneMoreItem(v: Vector, idx: nat, more: nat, x: Parsed<Json>)
    requires idx <= |v| && Decode(v, idx) == Ok(x)
    ensures DecodeItems(v, idx, more + 1) ==
            var rest := DecodeItems(v, x.next, more);
            if rest.Ok? then Ok(Parsed([x.value] + rest.value.value, rest.value.next)) else rest
  {
    hide Decode;
  }

  /** Decoding the first `n` items and then `more` others. */
  lemma {:induction false} DecodeItemsEncode(j: Json, v: Vector, idx: nat, n: nat, end: nat, more: nat)
    requires j.Arr? && Small(j) && n <= |j.items| && Stands(v, idx, EncodeItems(j, n))
    requires end == idx + |EncodeItems(j, n)|
    ensures DecodeItems(v, idx, n + more) ==
            var rest := DecodeItems(v, end, more);
            if rest.Ok? then Ok(Parsed(CanonicalItems(j, n) + rest.value.value, rest.value.next)) else rest
    decreases j, 0, n
  {
    hide Encode, Canonical, Decode, CanonicalItems, Small, EncodeItems, DecodeItems;
    ItemsSnoc(j, n);
    var rest := DecodeItems(v, end, more);
    if n == 0 {
      CanonicalItemsStep(j, 0);
      if rest.Ok? {
        assert [] + rest.value.value == rest.value.value;
      }
    } else {
      var x, before := j.items[n - 1], EncodeItems(j, n - 1);
      StandsParts(v, idx, before, Encode(x));
      var mid := idx + |before|;
      SmallItem(j, n - 1);
      DecodeEncode(x, v, mid);
      DecodeItemsEncode(j, v, idx, n - 1, mid, more + 1);
      OneMoreItem(v, mid, more, Parsed(Canonical(x), end));
      CanonicalItemsStep(j, n);
      if rest.Ok? {
        assert CanonicalItems(j, n - 1) + ([Canonical(x)] + rest.value.value)
            == CanonicalItems(j, n) + rest.value.value;
      }
    }
  }

  lemma {:induction false} DecodeObject(j: Json, v: Vector, idx: nat)
    requires j.Obj? && Small(j) && Stands(v, idx, Encode(j))
    ensures Decode(v, idx) == Ok(Parsed(Canonical(j), idx + |Encode(j)|))
    decreases j, 0, |j.members| + 1
  {
    hide ReadLength, ContainerHeader, DecodeMembers, EncodeMembers, Canonical, SortedKeys, Small, Stands,
         CanonicalMembers;
    SmallSize(j);
    var keys := SortedKeys(j.members.Keys);
    StandsParts(v, idx, ContainerHeader(Map, |j.members|), EncodeMembers(j, keys));
    ReadContainerHeader(v, idx, Map, |j.members|);
    var start := idx + |ContainerHeader(Map, |j.members|)|;
    SortedKeysSorted(j.members.Keys);
    SortedDistinct(keys);
    DecodeMembersEncode(j, v, start, keys, start + |EncodeMembers(j, keys)|, 0, map[]);
    CanonicalObject(j);
    DecodeNothing(v, start + |EncodeMembers(j, keys)|);
  }

  lemma {:induction false} DecodeMembersEncode(j: Json, v: Vector, idx: nat, keys: seq<Bytes>, end: nat, more: nat,
                                               m: map<Bytes, Json>)
    requires j.Obj? && Small(j) && (forall k | k in keys :: k in j.members) && Stands(v, idx, EncodeMembers(j, keys))
    requires end == idx + |EncodeMembers(j, keys)|
    ensures DecodeMembers(v, idx, |keys| + more, m) == DecodeMembers(v, end, more, CanonicalMembers(j, keys, m))
    decreases j, 0, |keys|
  {
    hide Encode, Canonical, EncodeText, DecodeKey, Decode, CanonicalMembers, DecodeMembers, Small, Stands,
         EncodeMembers;
    MembersSnoc(j, keys);
    if keys == [] {
      CanonicalMembersNone(j, m);
    } else {
      var last := |keys| - 1;
      var k, front := keys[last], keys[..last];
      var x := j.members[k];
      SmallMember(j, k);
      var before := EncodeMembers(j, front);
      StandsParts(v, idx, before, EncodeText(k) + Encode(x));
      var mid := idx + |before|;
      StandsParts(v, mid, EncodeText(k), Encode(x));
      DecodeText(v, mid, k);
      DecodeEncode(x, v, mid + |EncodeText(k)|);
      DecodeMembersEncode(j, v, idx, front, mid, more + 1, m);
      OneMoreMember(v, mid, more, Parsed(k, mid + |EncodeText(k)|), Parsed(Canonical(x), end),
                    CanonicalMembers(j, front, m));
      CanonicalMembersStep(j, keys, m);
    }
  }

  lemma OneMoreMember(v: Vector, idx: nat, more: nat, k: Parsed<Bytes>, x: Parsed<Json>, m: map<Bytes, Json>)
    requires idx <= |v| && DecodeKey(v, idx) == Ok(k) && Decode(v, k.next) == Ok(x)
    ensures DecodeMembers(v, idx, more + 1, m) == DecodeMembers(v, x.next, more, m[k.value := x.value])
  {
    hide Decode, DecodeKey;
  }

  // ---- what the format cannot hold ----

  /** Whatever is decoded has sizes that fit their headers. */
  lemma {:induction false} DecodeSmall(v: Vector, idx: nat)
    requires Decode(v, idx).Ok?
    ensures Small(Decode(v, idx).value.value)
    decreases Left(v, idx), 0, 0
  {
    hide DecodeItems, DecodeMembers, ReadLength, ReadNumber, Small;
    var j := Decode(v, idx).value.value;
    if IsText(v[idx]) || IsArray(v[idx]) || IsMap(v[idx]) {
      var n := ReadLength(v, idx).value;
      if IsArray(v[idx]) {
        DecodeItemsSmall(v, n.next, n.value);
      } else if IsMap(v[idx]) {
        DecodeMembersSmall(v, n.next, n.value, map[]);
      }
    }
    SmallParts(j);
  }

  lemma SmallParts(j: Json)
    ensures Small(j) <==>
            && (j.Str? ==> |j.s| <= MAX_SIZE)
            && (j.Arr? ==> |j.items| <= MAX_SIZE && SmallItems(j.items))
            && (j.Obj? ==> |j.members| <= MAX_SIZE && SmallMembers(j.members))
  {
  }

  predicate SmallItems(a: seq<Json>) {
    forall x | x in a :: Small(x)
  }

  predicate SmallMembers(m: map<Bytes, Json>) {
    forall k | k in m :: |k| <= MAX_SIZE && Small(m[k])
  }

  lemma {:induction false} DecodeItemsSmall(v: Vector, idx: nat, n: nat)
    requires idx <= |v| && DecodeItems(v, idx, n).Ok?
    ensures SmallItems(DecodeItems(v, idx, n).value.value)
    decreases Left(v, idx), 1, n
  {
    hide Decode, Small;
    if n > 0 {
      DecodeSmall(v, idx);
      DecodeItemsSmall(v, Decode(v, idx).value.next, n - 1);
    }
  }

  lemma {:induction false} DecodeMembersSmall(v: Vector, idx: nat, n: nat, m: map<Bytes, Json>)
    requires idx <= |v| && DecodeMembers(v, idx, n, m).Ok? && SmallMembers(m)
    ensures var r := DecodeMembers(v, idx, n, m).value.value; SmallMembers(r) && |r| <= |m| + n
    decreases Left(v, idx), 2, n
  {
    hide Decode, DecodeKey, Small;
    if n > 0 {
      var k := DecodeKey(v, idx).value;
      var x := Decode(v, k.next).value;
      DecodeKeySmall(v, idx);
      DecodeSmall(v, k.next);
      var added := m[k.value := x.value];
      assert added.Keys == m.Keys + {k.value};
      DecodeMembersSmall(v, x.next, n - 1, added);
    }
  }

  lemma {:induction false} DecodeKeySmall(v: Vector, idx: nat)
    requires idx <= |v| && DecodeKey(v, idx).Ok?
    ensures |DecodeKey(v, idx).value.value| <= MAX_SIZE
    decreases Left(v, idx), 1, 0
  {
    hide Decode;
    DecodeSmall(v, idx);
  }

  lemma {:induction false} SmallCanonical(j: Json)
    ensures Small(Canonical(j)) <==> Small(j)
  {
    match j
    case Arr(a) =>
      forall k | 0 <= k < |a| ensures Small(Canonical(a[k])) <==> Small(a[k]) {
        SmallCanonical(a[k]);
      }
      assert forall k | 0 <= k < |a| :: Canonical(j).items[k] == Canonical(a[k]);
      assert Small(j) <==> |a| <= MAX_SIZE && forall k | 0 <= k < |a| :: Small(a[k]);
      assert Small(Canonical(j)) <==> |a| <= MAX_SIZE && forall k | 0 <= k < |a| :: Small(Canonical(a[k]));
    case Obj(m) =>
      forall k | k in m ensures Small(Canonical(m[k])) <==> Small(m[k]) {
        SmallCanonical(m[k]);
      }
      assert Canonical(j).members.Keys == m.Keys;
    case _ =>
  }

  /** An encoding is decoded to its document exactly if all sizes are below 2^32; for larger ones the
      encoder writes no header. */
  lemma DecodeEncodeIff(j: Json, v: Vector, idx: nat)
    requires Stands(v, idx, Encode(j))
    ensures Decode(v, idx) == Ok(Parsed(Canonical(j), idx + |Encode(j)|)) <==> Small(j)
  {
    hide Decode, Encode, Small, Canonical;
    if Small(j) {
      DecodeEncode(j, v, idx);
    } else if Decode(v, idx) == Ok(Parsed(Canonical(j), idx + |Encode(j)|)) {
      DecodeSmall(v, idx);
      SmallCanonical(j);
    }
  }

  /** `from_msgpack(to_msgpack(j))`, followed by anything: the whole encoding is consumed and nothing
      more, and the value equals `j` unless `j` holds a NaN; exactly if all sizes are below 2^32. */
  lemma RoundTrip(j: Json, suffix: Bytes)
    requires |Encode(j) + suffix| < TWO_TO_THE_63
    ensures Decode(Encode(j) + suffix, 0) == Ok(Parsed(Canonical(j), |Encode(j)|)) <==> Small(j)
    ensures JEq(Canonical(j), j) <==> NoNaN(j)
  {
    hide Encode, Decode, Small;
    StandsWithin([], Encode(j), suffix);
    assert [] + Encode(j) + suffix == Encode(j) + suffix;
    DecodeEncodeIff(j, Encode(j) + suffix, 0);
    CanonicalEqual(j);
  }

  /** No encoding is a proper prefix of another, and documents that encode alike are equal. */
  lemma PrefixFree(a: Json, b: Json)
    requires Small(a) && Small(b) && |Encode(b)| < TWO_TO_THE_63 && Encode(a) <= Encode(b)
    ensures Encode(a) == Encode(b) && Canonical(a) == Canonical(b)
  {
    hide Encode, Decode, Canonical, Small;
    var suffix := Encode(b)[|Encode(a)|..];
    assert Encode(a) + suffix == Encode(b) + [] == Encode(b);
    RoundTrip(a, suffix);
    RoundTrip(b, []);
  }

  /** Without the bound on sizes this fails: a string that is too long for a header can begin with the
      encoding of null. */
  lemma NotPrefixFree(n: nat)
    requires n > MAX_SIZE
    ensures var s: Bytes := seq(n, _ => 0xC0); Encode(Null) < Encode(Str(s)) && !Small(Str(s))
  {
  }
}
