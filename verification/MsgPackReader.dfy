/** `from_msgpack_internal` as the source runs it: an index into the vector, advanced by reference, and
    loops that fill the containers. */
module MsgPackReader {
  import opened Binary
  import opened ByteStrings
  import opened Json
  import opened MsgPack

  class Reader {
    const v: Vector
    var idx: uint64

    constructor (v: Vector)
      ensures this.v == v && idx == 0
    {
      this.v := v;
      idx := 0;
    }

    /** What a call owes to the specification `d` of what it reads. */
    ghost predicate Agrees<T>(r: Result<T>, d: Result<Parsed<T>>)
      reads this
    {
      if r.Ok? then d == Ok(Parsed(r.value, idx)) else d == Err(r.error)
    }

    /** `idx += n` */
    method Skip(n: nat)
      modifies this
      ensures idx == (old(idx) + n) % TWO_TO_THE_64
    {
      idx := (idx + n) % TWO_TO_THE_64;
    }

    /** `from_msgpack_internal` */
    method FromMsgPack() returns (r: Result<Json>)
      modifies this
      ensures Agrees(r, Decode(v, old(idx)))
      decreases Left(v, idx), 0
    {
      hide DecodeItems, DecodeMembers, ReadLength, DecodeNumber, Capacity;
      var current := idx;
      Skip(1);
      if !LengthOk(|v|, 1, current) {
        return Err(ParseError(110));
      }
      var first := v[current];
      if first <= 0x7F {
        r := Ok(Uint(first));
      } else if IsMap(first) || IsArray(first) || IsText(first) {
        r := FromLength(current);
      } else if first >= 0xE0 {
        Capacities();
        r := Ok(Int(FromTwos(first, 1)));
      } else if first == 0xC0 {
        r := Ok(Null);
      } else if first == 0xC2 {
        r := Ok(Bool(false));
      } else if first == 0xC3 {
        r := Ok(Bool(true));
      } else if 0xCA <= first <= 0xD3 {
        r := FromNumber(current);
      } else {
        r := Err(ParseError(112));
      }
    }

    method FromNumber(current: nat) returns (r: Result<Json>)
      requires current < |v| && idx == current + 1 && 0xCA <= v[current] <= 0xD3
      modifies this
      ensures Agrees(r, DecodeNumber(v, current))
    {
      hide SingleToDouble, Capacity, FromBigEndian;
      Capacities();
      var first := v[current];
      Skip(Width(first));
      var n := GetFromVector(v, current, Width(first));
      if n.Err? {
        return Err(n.error);
      }
      return Ok(if first == 0xCA then Float(SingleToDouble(n.value))
                else if first == 0xCB then Float(n.value)
                else if first <= 0xCF then Uint(n.value)
                else Int(FromTwos(n.value, Width(first))));
    }

    /** The values that begin with a length. */
    method FromLength(current: nat) returns (r: Result<Json>)
      requires current < |v| && idx == current + 1 && (IsText(v[current]) || IsArray(v[current]) || IsMap(v[current]))
      modifies this
      ensures Agrees(r, Decode(v, current))
      decreases Left(v, idx), 3
    {
      hide DecodeItems, DecodeMembers, ReadLength;
      var len := Length(current);
      if len.Err? {
        return Err(len.error);
      }
      if IsMap(v[current]) {
        r := ReadMembers(len.value);
      } else if IsArray(v[current]) {
        r := ReadItems(len.value);
      } else {
        var offset := idx;
        Skip(len.value);
        if LengthOk(|v|, len.value, offset) {
          r := Ok(Str(v[offset..offset + len.value]));
        } else {
          r := Err(ParseError(110));
        }
      }
    }

    /** The length in the first byte or behind it; the index moves past it. */
    method Length(current: nat) returns (r: Result<nat>)
      requires current < |v| && idx == current + 1 && (IsText(v[current]) || IsArray(v[current]) || IsMap(v[current]))
      modifies this
      ensures Agrees(r, ReadLength(v, current))
    {
      var first := v[current];
      if first <= 0x9F {
        return Ok(first % 0x10);
      }
      if first <= 0xBF {
        return Ok(first % 0x20);
      }
      r := GetFromVector(v, current, Width(first));
      Skip(Width(first));
    }

    /** The elements of an array. */
    method ReadItems(n: nat) returns (r: Result<Json>)
      requires idx <= |v|
      modifies this
      ensures r.Ok? ==> r.value.Arr? && DecodeItems(v, old(idx), n) == Ok(Parsed(r.value.items, idx))
      ensures r.Err? ==> DecodeItems(v, old(idx), n) == Err(r.error)
      decreases Left(v, idx), 1
    {
      hide Decode;
      var result: seq<Json> := [];
      BeforeNothing(DecodeItems(v, idx, n), Err(ParseError(110)));
      var i := 0;
      while i < n
        invariant i <= n && old(idx) <= idx <= |v|
        invariant DecodeItems(v, old(idx), n) == Before(result, DecodeItems(v, idx, n - i))
        decreases n - i
      {
        ghost var start := idx;
        var x := FromMsgPack();
        if x.Err? {
          return Err(x.error);
        }
        OneMoreItem(v, start, n - i - 1, Parsed(x.value, idx));
        BeforeOne(result, x.value, DecodeItems(v, idx, n - i - 1));
        result := result + [x.value];
        i := i + 1;
      }
      assert result + [] == result;
      return Ok(Arr(result));
    }

    /** `msgpack_expect_string` and the key. */
    method ReadKey() returns (r: Result<Bytes>)
      requires idx <= |v|
      modifies this
      ensures Agrees(r, DecodeKey(v, old(idx)))
      decreases Left(v, idx), 1
    {
      if !LengthOk(|v|, 1, idx) {
        return Err(ParseError(110));
      }
      if !IsText(v[idx]) {
        return Err(ParseError(113));
      }
      var x := FromMsgPack();
      return if x.Ok? then Ok(x.value.s) else Err(x.error);
    }

    /** The members of an object. */
    method ReadMembers(n: nat) returns (r: Result<Json>)
      requires idx <= |v|
      modifies this
      ensures r.Ok? ==> r.value.Obj? && DecodeMembers(v, old(idx), n, map[]) == Ok(Parsed(r.value.members, idx))
      ensures r.Err? ==> DecodeMembers(v, old(idx), n, map[]) == Err(r.error)
      decreases Left(v, idx), 2
    {
      hide Decode, DecodeKey;
      var result: map<Bytes, Json> := map[];
      var i := 0;
      while i < n
        invariant i <= n && old(idx) <= idx <= |v|
        invariant DecodeMembers(v, old(idx), n, map[]) == DecodeMembers(v, idx, n - i, result)
        decreases n - i
      {
        var key := ReadKey();
        if key.Err? {
          return Err(key.error);
        }
        var x := FromMsgPack();
        if x.Err? {
          return Err(x.error);
        }
        result := result[key.value := x.value];
        i := i + 1;
      }
      return Ok(Obj(result));
    }
  }
}
