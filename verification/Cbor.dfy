/** CBOR (RFC 7049): `to_cbor_internal` and `from_cbor_internal`. */
module Cbor {
  import opened Binary
  import opened ByteStrings
  import opened Json

  // Major types, section 2.1 of RFC 7049
  const UNSIGNED := 0
  const NEGATIVE := 1
  const TEXT := 3
  const ARRAY := 4
  const MAP := 5

  const BREAK: byte := 0xFF

  // ---- encoding ----

  /** The initial byte of a data item and the bytes of its argument, in the shortest size class. */
  function Header(major: nat, n: nat): Bytes
    requires major <= 6
  {
    if n <= 0x17 then [0x20 * major + n]
    else if n <= 0xFF then [0x20 * major + 0x18] + BigEndian(n, 1)
    else if n <= 0xFFFF then [0x20 * major + 0x19] + BigEndian(n, 2)
    else if n <= 0xFFFF_FFFF then [0x20 * major + 0x1A] + BigEndian(n, 4)
    else [0x20 * major + 0x1B] + BigEndian(n, 8)
  }

  function EncodeText(s: Bytes): Bytes {
    Header(TEXT, |s|) + s
  }

  /** The bytes that `to_cbor_internal` appends. */
  function Encode(j: Json): Bytes
    decreases j, 1, 0
  {
    match j
    case Null => [0xF6]
    case Bool(b) => [if b then 0xF5 else 0xF4]
    case Int(i) => if i >= 0 then Header(UNSIGNED, i) else Header(NEGATIVE, -1 - i)
    case Uint(u) => Header(UNSIGNED, u)
    case Float(bits) => [0xFB] + BigEndian(bits, 8)
    case Str(s) => EncodeText(s)
    case Arr(a) => Header(ARRAY, |a|) + EncodeItems(j, |a|)
    case Obj(m) => Header(MAP, |m|) + EncodeMembers(j, SortedKeys(m.Keys))
  }

  function EncodeItems(j: Json, n: nat): Bytes
    requires j.Arr? && n <= |j.items|
    decreases j, 0, n
  {
    if n == 0 then [] else EncodeItems(j, n - 1) + Encode(j.items[n - 1])
  }

  function EncodeMembers(j: Json, keys: seq<Bytes>): Bytes
    requires j.Obj? && forall k | k in keys :: k in j.members
    decreases j, 0, |keys|
  {
    if keys == [] then []
    else EncodeMembers(j, keys[..|keys| - 1])
         + (EncodeText(keys[|keys| - 1]) + Encode(j.members[keys[|keys| - 1]]))
  }

  lemma EncodeUnfold(j: Json)
    ensures j.Arr? ==> Encode(j) == Header(ARRAY, |j.items|) + EncodeItems(j, |j.items|)
    ensures j.Obj? ==> Encode(j) == Header(MAP, |j.members|) + EncodeMembers(j, SortedKeys(j.members.Keys))
  {
    hide EncodeItems, EncodeMembers, SortedKeys, Header;
  }

  lemma ItemsSnoc(j: Json, n: nat)
    requires j.Arr? && n <= |j.items|
    ensures EncodeItems(j, n) == if n == 0 then [] else EncodeItems(j, n - 1) + Encode(j.items[n - 1])
  {
    hide Encode;
  }

  lemma MembersSnoc(j: Json, keys: seq<Bytes>)
    requires j.Obj? && forall k | k in keys :: k in j.members
    ensures keys == [] ==> EncodeMembers(j, keys) == []
    ensures keys != [] ==>
              var last := |keys| - 1;
              EncodeMembers(j, keys) ==
              EncodeMembers(j, keys[..last]) + (EncodeText(keys[last]) + Encode(j.members[keys[last]]))
  {
    hide Encode, EncodeText;
  }

  /** `to_cbor_internal` */
  method ToCbor(j: Json, out: ByteVector)
    modifies out
    ensures out.v == old(out.v) + Encode(j)
    decreases j, 1
  {
    hide BigEndian, SortedKeys, Header;
    match j
    case Null => out.PushBack(0xF6);
    case Bool(b) => out.PushBack(if b then 0xF5 else 0xF4);
    case Int(i) =>
      if i >= 0 {
        WriteHeader(UNSIGNED, i, out);
      } else {
        WriteHeader(NEGATIVE, -1 - i, out);
      }
    case Uint(u) => WriteHeader(UNSIGNED, u, out);
    case Float(bits) =>
      out.PushBack(0xFB);
      out.AddToVector(8, bits);
    case Str(s) => WriteText(s, out);
    case Arr(_) => WriteArray(j, out);
    case Obj(_) => WriteObject(j, out);
  }

  method WriteArray(j: Json, out: ByteVector)
    requires j.Arr?
    modifies out
    ensures out.v == old(out.v) + Encode(j)
    decreases j, 0
  {
    hide Header, EncodeItems, Encode;
    var a := j.items;
    ItemsSnoc(j, 0);
    RegroupLast(out.v, Header(ARRAY, |a|), [], []);
    WriteHeader(ARRAY, |a|, out);
    for k := 0 to |a|
      invariant out.v == old(out.v) + (Header(ARRAY, |a|) + EncodeItems(j, k))
    {
      ItemsSnoc(j, k + 1);
      RegroupLast(old(out.v), Header(ARRAY, |a|), EncodeItems(j, k), Encode(a[k]));
      ToCbor(a[k], out);
    }
    EncodeUnfold(j);
  }

  method WriteObject(j: Json, out: ByteVector)
    requires j.Obj?
    modifies out
    ensures out.v == old(out.v) + Encode(j)
    decreases j, 0
  {
    hide Header, SortedKeys, EncodeText, EncodeMembers, Encode;
    var m := j.members;
    MembersSnoc(j, []);
    RegroupLast(out.v, Header(MAP, |m|), [], []);
    WriteHeader(MAP, |m|, out);
    var keys := SortedKeys(m.Keys);
    for k := 0 to |keys|
      invariant out.v == old(out.v) + (Header(MAP, |m|) + EncodeMembers(j, keys[..k]))
    {
      ghost var front, text, value := keys[..k], EncodeText(keys[k]), Encode(m[keys[k]]);
      assert keys[..k + 1][..k] == front;
      MembersSnoc(j, keys[..k + 1]);
      RegroupLast(old(out.v), Header(MAP, |m|), EncodeMembers(j, front), text + value);
      RegroupLast(out.v, text, [], value);
      WriteText(keys[k], out);
      ToCbor(m[keys[k]], out);
    }
    assert keys[..|keys|] == keys;
    EncodeUnfold(j);
  }

  method WriteHeader(major: nat, n: nat, out: ByteVector)
    requires major <= 6
    modifies out
    ensures out.v == old(out.v) + Header(major, n)
  {
    hide BigEndian;
    if n <= 0x17 {
      out.PushBack(0x20 * major + n);
    } else if n <= 0xFF {
      out.PushBack(0x20 * major + 0x18);
      out.AddToVector(1, n);
    } else if n <= 0xFFFF {
      out.PushBack(0x20 * major + 0x19);
      out.AddToVector(2, n);
    } else if n <= 0xFFFF_FFFF {
      out.PushBack(0x20 * major + 0x1A);
      out.AddToVector(4, n);
    } else {
      out.PushBack(0x20 * major + 0x1B);
      out.AddToVector(8, n);
    }
  }

  method WriteText(s: Bytes, out: ByteVector)
    modifies out
    ensures out.v == old(out.v) + EncodeText(s)
  {
    WriteHeader(TEXT, |s|, out);
    out.Append(s);
  }

  // ---- decoding ----

  function Width(info: nat): nat
    requires 0x18 <= info <= 0x1B
  {
    if info == 0x18 then 1 else if info == 0x19 then 2 else if info == 0x1A then 4 else 8
  }

  /** The argument of the data item at `at`: in the initial byte, or in the bytes after it. */
  function ReadArgument(v: Vector, at: nat): (r: Result<Parsed<nat>>)
    requires at < |v| && v[at] % 0x20 <= 0x1B
    ensures r.Ok? ==> at < r.value.next <= |v| && r.value.value < TWO_TO_THE_64
    ensures r.Err? ==> r.error == ParseError(110)
  {
    var info := v[at] % 0x20;
    if info <= 0x17 then Ok(Parsed(info, at + 1))
    else
      Capacities();
      var n :- ReadNumber(v, at, Width(info));
      Ok(Parsed(n, at + 1 + Width(info)))
  }

  /** `from_cbor_internal`: the value at `idx` and the index behind it. Each initial byte is treated
      as in the `switch` of the source; byte strings, tags and reserved values are refused. */
  function Decode(v: Vector, idx: nat): (r: Result<Parsed<Json>>)
    ensures r.Ok? ==> idx < r.value.next <= |v|
    ensures r.Ok? && (0x60 <= v[idx] <= 0x7B || v[idx] == 0x7F) ==> r.value.value.Str?
    decreases Left(v, idx), 0, 0
  {
    if !LengthOk(|v|, 1, idx) then Err(ParseError(110))
    else
      var first := v[idx];
      var major, info := first / 0x20, first % 0x20;
      if major == UNSIGNED && info <= 0x1B then
        var n :- ReadArgument(v, idx);
        Ok(Parsed(Uint(n.value), n.next))
      else if major == NEGATIVE && info <= 0x1B then
        var n :- ReadArgument(v, idx);
        Ok(Parsed(Int(-1 - ToInt64(n.value)), n.next))
      else if major == TEXT && info <= 0x1B then
        var n :- ReadArgument(v, idx);
        if !LengthOk(|v|, n.value, n.next) then Err(ParseError(110))
        else Ok(Parsed(Str(v[n.next..n.next + n.value]), n.next + n.value))
      else if first == 0x7F then
        var s :- DecodeChunks(v, idx + 1);
        Ok(Parsed(Str(s.value), s.next))
      else if major == ARRAY && info <= 0x1B then
        var n :- ReadArgument(v, idx);
        var a :- DecodeItems(v, n.next, n.value);
        Ok(Parsed(Arr(a.value), a.next))
      else if first == 0x9F then
        var a :- DecodeOpenItems(v, idx + 1);
        Ok(Parsed(Arr(a.value), a.next))
      else if major == MAP && info <= 0x1B then
        var n :- ReadArgument(v, idx);
        var m :- DecodeMembers(v, n.next, n.value, map[]);
        Ok(Parsed(Obj(m.value), m.next))
      else if first == 0xBF then
        var m :- DecodeOpenMembers(v, idx + 1, map[]);
        Ok(Parsed(Obj(m.value), m.next))
      else if first == 0xF4 then Ok(Parsed(Bool(false), idx + 1))
      else if first == 0xF5 then Ok(Parsed(Bool(true), idx + 1))
      else if first == 0xF6 then Ok(Parsed(Null, idx + 1))
      else if 0xF9 <= first <= 0xFB then DecodeFloat(v, idx)
      else Err(ParseError(112))
  }

  /** A half, single or double float behind its first byte. */
  function DecodeFloat(v: Vector, idx: nat): (r: Result<Parsed<Json>>)
    requires idx < |v| && 0xF9 <= v[idx] <= 0xFB
    ensures r.Ok? ==> idx < r.value.next <= |v|
  {
    Capacities();
    if v[idx] == 0xF9 then
      var n :- ReadNumber(v, idx, 2);
      Ok(Parsed(Float(HalfToDouble(n)), idx + 3))
    else if v[idx] == 0xFA then
      var n :- ReadNumber(v, idx, 4);
      Ok(Parsed(Float(SingleToDouble(n)), idx + 5))
    else
      var n :- ReadNumber(v, idx, 8);
      Ok(Parsed(Float(n), idx + 9))
  }

  /** `n` data items one after the other. */
  function DecodeItems(v: Vector, idx: nat, n: nat): (r: Result<Parsed<seq<Json>>>)
    requires idx <= |v|
    ensures r.Ok? ==> idx <= r.value.next <= |v| && |r.value.value| == n
    decreases Left(v, idx), 1, n
  {
    if n == 0 then Ok(Parsed([], idx))
    else
      var x :- Decode(v, idx);
      var rest :- DecodeItems(v, x.next, n - 1);
      Ok(Parsed([x.value] + rest.value, rest.next))
  }

  /** Data items up to the break byte. */
  function DecodeOpenItems(v: Vector, idx: nat): (r: Result<Parsed<seq<Json>>>)
    requires idx <= |v|
    ensures r.Ok? ==> idx < r.value.next <= |v|
    decreases Left(v, idx), 1, 0
  {
    if !LengthOk(|v|, 1, idx) then Err(ParseError(110))
    else if v[idx] == BREAK then Ok(Parsed([], idx + 1))
    else
      var x :- Decode(v, idx);
      var rest :- DecodeOpenItems(v, x.next);
      Ok(Parsed([x.value] + rest.value, rest.next))
  }

  /** The chunks of a text of indefinite length; a chunk that is no text has no conversion. */
  function DecodeChunks(v: Vector, idx: nat): (r: Result<Parsed<Bytes>>)
    requires idx <= |v|
    ensures r.Ok? ==> idx < r.value.next <= |v|
    decreases Left(v, idx), 1, 0
  {
    if !LengthOk(|v|, 1, idx) then Err(ParseError(110))
    else if v[idx] == BREAK then Ok(Parsed([], idx + 1))
    else
      var x :- Decode(v, idx);
      if !x.value.Str? then Err(TypeError(302))
      else
        var rest :- DecodeChunks(v, x.next);
        Ok(Parsed(x.value.s + rest.value, rest.next))
  }

  /** `cbor_expect_string` and the key behind it. */
  function DecodeKey(v: Vector, idx: nat): (r: Result<Parsed<Bytes>>)
    requires idx <= |v|
    ensures r.Ok? ==> idx < r.value.next <= |v|
    decreases Left(v, idx), 1, 0
  {
    if !LengthOk(|v|, 1, idx) then Err(ParseError(110))
    else if 0x60 <= v[idx] <= 0x7B || v[idx] == 0x7F then
      var x :- Decode(v, idx);
      Ok(Parsed(x.value.s, x.next))
    else Err(ParseError(113))
  }

  /** `n` members; a later one replaces an earlier one with the same key. */
  function DecodeMembers(v: Vector, idx: nat, n: nat, m: map<Bytes, Json>): (r: Result<Parsed<map<Bytes, Json>>>)
    requires idx <= |v|
    ensures r.Ok? ==> idx <= r.value.next <= |v|
    decreases Left(v, idx), 2, n
  {
    if n == 0 then Ok(Parsed(m, idx))
    else
      var k :- DecodeKey(v, idx);
      var x :- Decode(v, k.next);
      DecodeMembers(v, x.next, n - 1, m[k.value := x.value])
  }

  function DecodeOpenMembers(v: Vector, idx: nat, m: map<Bytes, Json>): (r: Result<Parsed<map<Bytes, Json>>>)
    requires idx <= |v|
    ensures r.Ok? ==> idx < r.value.next <= |v|
    decreases Left(v, idx), 2, 0
  {
    if !LengthOk(|v|, 1, idx) then Err(ParseError(110))
    else if v[idx] == BREAK then Ok(Parsed(m, idx + 1))
    else
      var k :- DecodeKey(v, idx);
      var x :- Decode(v, k.next);
      DecodeOpenMembers(v, x.next, m[k.value := x.value])
  }

  // ---- the decoder undoes the encoder ----

  lemma ReadHeader(v: Vector, idx: nat, major: nat, n: nat)
    requires major <= 6 && n < TWO_TO_THE_64 && Stands(v, idx, Header(major, n))
    ensures idx < |v| && v[idx] / 0x20 == major && v[idx] % 0x20 <= 0x1B
    ensures ReadArgument(v, idx) == Ok(Parsed(n, idx + |Header(major, n)|))
    ensures LengthOk(|v|, 1, idx)
  {
    hide BigEndian, Capacity, ReadNumber;
    Capacities();
    assert v[idx..idx + |Header(major, n)|][0] == v[idx];
    LengthOkMeansInside(|v|, 1, idx);
    if 0x17 < n {
      var width := if n <= 0xFF then 1 else if n <= 0xFFFF then 2 else if n <= 0xFFFF_FFFF then 4 else 8;
      ReadBack(v, idx, v[idx], n, width, 0);
    }
  }

  lemma DecodeText(v: Vector, idx: nat, s: Bytes)
    requires Stands(v, idx, EncodeText(s))
    ensures Decode(v, idx) == Ok(Parsed(Str(s), idx + |EncodeText(s)|))
    ensures DecodeKey(v, idx) == Ok(Parsed(s, idx + |EncodeText(s)|))
  {
    hide ReadArgument, Header;
    StandsParts(v, idx, Header(TEXT, |s|), s);
    ReadHeader(v, idx, TEXT, |s|);
    assert 0x60 <= v[idx] <= 0x7B;
  }

  /** Decoding what was encoded, wherever it stands in a vector: the value comes back in canonical
      form, and the index is left exactly behind its bytes. */
  lemma {:induction false} DecodeEncode(j: Json, v: Vector, idx: nat)
    requires Stands(v, idx, Encode(j))
    ensures Decode(v, idx) == Ok(Parsed(Canonical(j), idx + |Encode(j)|))
    decreases j, 1, 0
  {
    hide ReadArgument, Header, BigEndian, Capacity, FromBigEndian;
    match j
    case Int(i) => DecodeInteger(i, v, idx);
    case Uint(u) => ReadHeader(v, idx, UNSIGNED, u);
    case Float(bits) =>
      Capacities();
      ReadBack(v, idx, 0xFB, bits, 8, 0);
    case Str(s) => DecodeText(v, idx, s);
    case Arr(a) => DecodeArray(j, v, idx);
    case Obj(m) => DecodeObject(j, v, idx);
    case Null => assert v[idx..idx + 1][0] == 0xF6;
    case Bool(b) => assert v[idx..idx + 1][0] == if b then 0xF5 else 0xF4;
  }

  lemma DecodeInteger(i: int64, v: Vector, idx: nat)
    requires Stands(v, idx, Encode(Int(i)))
    ensures Decode(v, idx) == Ok(Parsed(Canonical(Int(i)), idx + |Encode(Int(i))|))
  {
    hide ReadArgument, Header;
    if i >= 0 {
      ReadHeader(v, idx, UNSIGNED, i);
    } else {
      ReadHeader(v, idx, NEGATIVE, -1 - i);
    }
  }

  lemma {:induction false} DecodeArray(j: Json, v: Vector, idx: nat)
    requires j.Arr? && Stands(v, idx, Encode(j))
    ensures Decode(v, idx) == Ok(Parsed(Canonical(j), idx + |Encode(j)|))
    decreases j, 0, |j.items| + 1
  {
    hide ReadArgument, Header, DecodeItems, EncodeItems, Canonical;
    var n := |j.items|;
    StandsParts(v, idx, Header(ARRAY, n), EncodeItems(j, n));
    EncodeItemsLong(j, n);
    ReadHeader(v, idx, ARRAY, n);
    var start := idx + |Header(ARRAY, n)|;
    DecodeItemsEncode(j, v, start, n, start + |EncodeItems(j, n)|, 0);
    CanonicalArray(j);
    DecodeNothing(v, start + |EncodeItems(j, n)|);
  }

  lemma DecodeNothing(v: Vector, idx: nat)
    requires idx <= |v|
    ensures DecodeItems(v, idx, 0) == Ok(Parsed([], idx))
    ensures forall m :: DecodeMembers(v, idx, 0, m) == Ok(Parsed(m, idx))
  {
  }

  lemma {:induction false} EncodeItemsLong(j: Json, n: nat)
    requires j.Arr? && n <= |j.items|
    ensures n <= |EncodeItems(j, n)|
    decreases n
  {
    hide Encode;
    if n > 0 {
      EncodeItemsLong(j, n - 1);
      EncodeNotEmpty(j.items[n - 1]);
    }
  }

  lemma EncodeNotEmpty(j: Json)
    ensures 1 <= |Encode(j)|
  {
  }

  lemma OneMoreItem(v: Vector, idx: nat, more: nat, x: Parsed<Json>)
    requires idx <= |v| && Decode(v, idx) == Ok(x)
    ensures DecodeItems(v, idx, more + 1) ==
            var rest := DecodeItems(v, x.next, more);
            if rest.Ok? then Ok(Parsed([x.value] + rest.value.value, rest.value.next)) else rest
  {
    hide Decode;
  }

  /** Decoding the first `n` items and then `more` others. */
  lemma {:induction false} DecodeItemsEncode(j: Json, v: Vector, idx: nat, n: nat, end: nat, more: nat)
    requires j.Arr? && n <= |j.items| && Stands(v, idx, EncodeItems(j, n))
    requires end == idx + |EncodeItems(j, n)|
    ensures DecodeItems(v, idx, n + more) ==
            var rest := DecodeItems(v, end, more);
            if rest.Ok? then Ok(Parsed(CanonicalItems(j, n) + rest.value.value, rest.value.next)) else rest
    decreases j, 0, n
  {
    hide Encode, Canonical, Decode, CanonicalItems, EncodeItems, DecodeItems;
    ItemsSnoc(j, n);
    var rest := DecodeItems(v, end, more);
    if n == 0 {
      CanonicalItemsStep(j, 0);
      if rest.Ok? {
        assert [] + rest.value.value == rest.value.value;
      }
    } else {
      var x, before := j.items[n - 1], EncodeItems(j, n - 1);
      StandsParts(v, idx, before, Encode(x));
      var mid := idx + |before|;
      DecodeEncode(x, v, mid);
      DecodeItemsEncode(j, v, idx, n - 1, mid, more + 1);
      OneMoreItem(v, mid, more, Parsed(Canonical(x), end));
      CanonicalItemsStep(j, n);
      if rest.Ok? {
        assert CanonicalItems(j, n - 1) + ([Canonical(x)] + rest.value.value)
            == CanonicalItems(j, n) + rest.value.value;
      }
    }
  }

  lemma {:induction false} DecodeObject(j: Json, v: Vector, idx: nat)
    requires j.Obj? && Stands(v, idx, Encode(j))
    ensures Decode(v, idx) == Ok(Parsed(Canonical(j), idx + |Encode(j)|))
    decreases j, 0, |j.members| + 1
  {
    hide ReadArgument, Header, DecodeMembers, EncodeMembers, Canonical, SortedKeys;
    var keys := SortedKeys(j.members.Keys);
    StandsParts(v, idx, Header(MAP, |j.members|), EncodeMembers(j, keys));
    EncodeMembersLong(j, keys);
    ReadHeader(v, idx, MAP, |j.members|);
    var start := idx + |Header(MAP, |j.members|)|;
    SortedKeysSorted(j.members.Keys);
    SortedDistinct(keys);
    DecodeMembersEncode(j, v, start, keys, start + |EncodeMembers(j, keys)|, 0, map[]);
    CanonicalObject(j);
    DecodeNothing(v, start + |EncodeMembers(j, keys)|);
  }

  lemma {:induction false} EncodeMembersLong(j: Json, keys: seq<Bytes>)
    requires j.Obj? && forall k | k in keys :: k in j.members
    ensures |keys| <= |EncodeMembers(j, keys)|
    decreases |keys|
  {
    hide Encode;
    if keys != [] {
      EncodeMembersLong(j, keys[..|keys| - 1]);
      EncodeNotEmpty(j.members[keys[|keys| - 1]]);
    }
  }

  lemma {:induction false} DecodeMembersEncode(j: Json, v: Vector, idx: nat, keys: seq<Bytes>, end: nat, more: nat,
                                               m: map<Bytes, Json>)
    requires j.Obj? && (forall k | k in keys :: k in j.members) && Stands(v, idx, EncodeMembers(j, keys))
    requires end == idx + |EncodeMembers(j, keys)|
    ensures DecodeMembers(v, idx, |keys| + more, m) == DecodeMembers(v, end, more, CanonicalMembers(j, keys, m))
    decreases j, 0, |keys|
  {
    hide Encode, Canonical, EncodeText, DecodeKey, Decode, CanonicalMembers, DecodeMembers, Stands, EncodeMembers;
    MembersSnoc(j, keys);
    if keys == [] {
      CanonicalMembersNone(j, m);
    } else {
      var last := |keys| - 1;
      var k, front := keys[last], keys[..last];
      var x := j.members[k];
      var before := EncodeMembers(j, front);
      StandsParts(v, idx, before, EncodeText(k) + Encode(x));
      var mid := idx + |before|;
      StandsParts(v, mid, EncodeText(k), Encode(x));
      DecodeText(v, mid, k);
      DecodeEncode(x, v, mid + |EncodeText(k)|);
      DecodeMembersEncode(j, v, idx, front, mid, more + 1, m);
      OneMoreMember(v, mid, more, Parsed(k, mid + |EncodeText(k)|), Parsed(Canonical(x), end),
                    CanonicalMembers(j, front, m));
      CanonicalMembersStep(j, keys, m);
    }
  }

  lemma OneMoreMember(v: Vector, idx: nat, more: nat, k: Parsed<Bytes>, x: Parsed<Json>, m: map<Bytes, Json>)
    requires idx <= |v| && DecodeKey(v, idx) == Ok(k) && Decode(v, k.next) == Ok(x)
    ensures DecodeMembers(v, idx, more + 1, m) == DecodeMembers(v, x.next, more, m[k.value := x.value])
  {
    hide Decode, DecodeKey;
  }

  /** `from_cbor(to_cbor(j))`, followed by anything: the whole encoding is consumed and nothing
      more, and the value equals `j` unless `j` holds a NaN. */
  lemma RoundTrip(j: Json, suffix: Bytes)
    requires |Encode(j) + suffix| < TWO_TO_THE_63
    ensures Decode(Encode(j) + suffix, 0) == Ok(Parsed(Canonical(j), |Encode(j)|))
    ensures JEq(Canonical(j), j) <==> NoNaN(j)
  {
    hide Encode, Decode;
    StandsWithin([], Encode(j), suffix);
    assert [] + Encode(j) + suffix == Encode(j) + suffix;
    DecodeEncode(j, Encode(j) + suffix, 0);
    CanonicalEqual(j);
  }

  /** No encoding is a proper prefix of another, and documents that encode alike are equal. */
  lemma PrefixFree(a: Json, b: Json)
    requires |Encode(b)| < TWO_TO_THE_63 && Encode(a) <= Encode(b)
    ensures Encode(a) == Encode(b) && Canonical(a) == Canonical(b)
  {
    hide Encode, Decode, Canonical;
    var suffix := Encode(b)[|Encode(a)|..];
    assert Encode(a) + suffix == Encode(b) + [] == Encode(b);
    RoundTrip(a, suffix);
    RoundTrip(b, []);
  }
}
