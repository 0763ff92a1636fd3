/** `from_cbor_internal` as the source runs it: an index into the vector, advanced by reference
    with the wrap-around of `size_t`, and loops that fill the containers. */
module CborReader {
  import opened Binary
  import opened ByteStrings
  import opened Cbor
  import opened Json

  class Reader {
    const v: Vector
    var idx: uint64

    constructor (v: Vector)
      ensures this.v == v && idx == 0
    {
      this.v := v;
      idx := 0;
    }

    /** What a call that started at `start` owes to the specification `d`. */
    ghost predicate Agrees<T>(r: Result<T>, d: Result<Parsed<T>>)
      reads this
    {
      if r.Ok? then d == Ok(Parsed(r.value, idx)) else d == Err(r.error)
    }

    /** `idx += n` */
    method Skip(n: nat)
      modifies this
      ensures idx == (old(idx) + n) % TWO_TO_THE_64
    {
      idx := (idx + n) % TWO_TO_THE_64;
    }

    /** `from_cbor_internal` */
    method FromCbor() returns (r: Result<Json>)
      modifies this
      ensures Agrees(r, Decode(v, old(idx)))
      decreases Left(v, idx), 0
    {
      hide DecodeItems, DecodeMembers, DecodeOpenItems, DecodeOpenMembers, DecodeChunks, ReadArgument, ReadNumber,
           HalfToDouble, SingleToDouble, Capacity;
      var current := idx;
      Skip(1);
      if !LengthOk(|v|, 1, current) {
        return Err(ParseError(110));
      }
      var first := v[current];
      if first / 0x20 in {UNSIGNED, NEGATIVE, TEXT, ARRAY, MAP} && first % 0x20 <= 0x1B {
        r := FromArgument(current);
      } else if first == 0x7F {
        r := ReadChunks();
      } else if first == 0x9F {
        r := ReadOpenItems();
      } else if first == 0xBF {
        r := ReadOpenMembers();
      } else if first == 0xF4 {
        r := Ok(Bool(false));
      } else if first == 0xF5 {
        r := Ok(Bool(true));
      } else if first == 0xF6 {
        r := Ok(Null);
      } else if first == 0xF9 || first == 0xFA || first == 0xFB {
        r := FromFloat(current);
      } else {
        r := Err(ParseError(112));
      }
    }

    /** The data items whose initial byte is followed by an argument. */
    method FromArgument(current: nat) returns (r: Result<Json>)
      requires current < |v| && idx == current + 1
      requires v[current] / 0x20 in {UNSIGNED, NEGATIVE, TEXT, ARRAY, MAP} && v[current] % 0x20 <= 0x1B
      modifies this
      ensures Agrees(r, Decode(v, current))
      decreases Left(v, idx), 3
    {
      hide DecodeItems, DecodeMembers, ReadArgument;
      var n := Argument(current);
      if n.Err? {
        return Err(n.error);
      }
      var major := v[current] / 0x20;
      if major == UNSIGNED {
        r := Ok(Uint(n.value));
      } else if major == NEGATIVE {
        r := Ok(Int(-1 - ToInt64(n.value)));
      } else if major == TEXT {
        var offset := idx;
        Skip(n.value);
        if LengthOk(|v|, n.value, offset) {
          r := Ok(Str(v[offset..offset + n.value]));
        } else {
          r := Err(ParseError(110));
        }
      } else if major == ARRAY {
        r := ReadItems(n.value);
      } else {
        r := ReadMembers(n.value);
      }
    }

    method Argument(current: nat) returns (r: Result<nat>)
      requires current < |v| && idx == current + 1 && v[current] % 0x20 <= 0x1B
      modifies this
      ensures Agrees(r, ReadArgument(v, current))
    {
      var info := v[current] % 0x20;
      if info <= 0x17 {
        return Ok(info);
      }
      Skip(Width(info));
      r := GetFromVector(v, current, Width(info));
    }

    method FromFloat(current: nat) returns (r: Result<Json>)
      requires current < |v| && idx == current + 1 && v[current] in {0xF9, 0xFA, 0xFB}
      modifies this
      ensures Agrees(r, Decode(v, current))
    {
      hide HalfToDouble, SingleToDouble, Capacity, FromBigEndian;
      Capacities();
      var first := v[current];
      var width := if first == 0xF9 then 2 else if first == 0xFA then 4 else 8;
      Skip(width);
      var number := GetFromVector(v, current, width);
      if number.Err? {
        return Err(number.error);
      }
      var n := number.value;
      return Ok(Float(if first == 0xF9 then HalfToDouble(n) else if first == 0xFA then SingleToDouble(n) else n));
    }

    /** An array of known length. */
    method ReadItems(n: nat) returns (r: Result<Json>)
      requires idx <= |v|
      modifies this
      ensures r.Ok? ==> r.value.Arr? && DecodeItems(v, old(idx), n) == Ok(Parsed(r.value.items, idx))
      ensures r.Err? ==> DecodeItems(v, old(idx), n) == Err(r.error)
      decreases Left(v, idx), 1
    {
      hide Decode;
      var result: seq<Json> := [];
      BeforeNothing(DecodeItems(v, idx, n), Err(ParseError(110)));
      var i := 0;
      while i < n
        invariant i <= n && old(idx) <= idx <= |v|
        invariant DecodeItems(v, old(idx), n) == Before(result, DecodeItems(v, idx, n - i))
        decreases n - i
      {
        ghost var start := idx;
        var x := FromCbor();
        if x.Err? {
          return Err(x.error);
        }
        OneMoreItem(v, start, n - i - 1, Parsed(x.value, idx));
        BeforeOne(result, x.value, DecodeItems(v, idx, n - i - 1));
        result := result + [x.value];
        i := i + 1;
      }
      assert result + [] == result;
      return Ok(Arr(result));
    }

    /** An array that ends with a break byte. */
    method ReadOpenItems() returns (r: Result<Json>)
      requires idx <= |v|
      modifies this
      ensures r.Ok? ==> r.value.Arr? && DecodeOpenItems(v, old(idx)) == Ok(Parsed(r.value.items, idx))
      ensures r.Err? ==> DecodeOpenItems(v, old(idx)) == Err(r.error)
      decreases Left(v, idx), 1
    {
      hide Decode;
      var result: seq<Json> := [];
      BeforeNothing(DecodeOpenItems(v, idx), Err(ParseError(110)));
      while true
        invariant old(idx) <= idx <= |v|
        invariant DecodeOpenItems(v, old(idx)) == Before(result, DecodeOpenItems(v, idx))
        decreases Left(v, idx)
      {
        if !LengthOk(|v|, 1, idx) {
          return Err(ParseError(110));
        }
        if v[idx] == BREAK {
          assert result + [] == result;
          Skip(1);
          return Ok(Arr(result));
        }
        var x := FromCbor();
        if x.Err? {
          return Err(x.error);
        }
        BeforeOne(result, x.value, DecodeOpenItems(v, idx));
        result := result + [x.value];
      }
    }

    /** A text that consists of chunks and ends with a break byte. */
    method ReadChunks() returns (r: Result<Json>)
      requires idx <= |v|
      modifies this
      ensures r.Ok? ==> r.value.Str? && DecodeChunks(v, old(idx)) == Ok(Parsed(r.value.s, idx))
      ensures r.Err? ==> DecodeChunks(v, old(idx)) == Err(r.error)
      decreases Left(v, idx), 1
    {
      hide Decode;
      var result: Bytes := [];
      BeforeNothing(Err(ParseError(110)), DecodeChunks(v, idx));
      while true
        invariant old(idx) <= idx <= |v|
        invariant DecodeChunks(v, old(idx)) == BeforeText(result, DecodeChunks(v, idx))
        decreases Left(v, idx)
      {
        if !LengthOk(|v|, 1, idx) {
          return Err(ParseError(110));
        }
        if v[idx] == BREAK {
          assert result + [] == result;
          Skip(1);
          return Ok(Str(result));
        }
        var x := FromCbor();
        if x.Err? {
          return Err(x.error);
        }
        if !x.value.Str? {
          return Err(TypeError(302));
        }
        BeforeOneText(result, x.value.s, DecodeChunks(v, idx));
        result := result + x.value.s;
      }
    }

    /** `cbor_expect_string` and the key. */
    method ReadKey() returns (r: Result<Bytes>)
      requires idx <= |v|
      modifies this
      ensures Agrees(r, DecodeKey(v, old(idx)))
      decreases Left(v, idx), 1
    {
      if !LengthOk(|v|, 1, idx) {
        return Err(ParseError(110));
      }
      if !(0x60 <= v[idx] <= 0x7B || v[idx] == 0x7F) {
        return Err(ParseError(113));
      }
      var x := FromCbor();
      return if x.Ok? then Ok(x.value.s) else Err(x.error);
    }

    /** An object of known size. */
    method ReadMembers(n: nat) returns (r: Result<Json>)
      requires idx <= |v|
      modifies this
      ensures r.Ok? ==> r.value.Obj? && DecodeMembers(v, old(idx), n, map[]) == Ok(Parsed(r.value.members, idx))
      ensures r.Err? ==> DecodeMembers(v, old(idx), n, map[]) == Err(r.error)
      decreases Left(v, idx), 2
    {
      hide Decode, DecodeKey;
      var result: map<Bytes, Json> := map[];
      var i := 0;
      while i < n
        invariant i <= n && old(idx) <= idx <= |v|
        invariant DecodeMembers(v, old(idx), n, map[]) == DecodeMembers(v, idx, n - i, result)
        decreases n - i
      {
        var key := ReadKey();
        if key.Err? {
          return Err(key.error);
        }
        var x := FromCbor();
        if x.Err? {
          return Err(x.error);
        }
        result := result[key.value := x.value];
        i := i + 1;
      }
      return Ok(Obj(result));
    }

    /** An object that ends with a break byte. */
    method ReadOpenMembers() returns (r: Result<Json>)
      requires idx <= |v|
      modifies this
      ensures r.Ok? ==> r.value.Obj? && DecodeOpenMembers(v, old(idx), map[]) == Ok(Parsed(r.value.members, idx))
      ensures r.Err? ==> DecodeOpenMembers(v, old(idx), map[]) == Err(r.error)
      decreases Left(v, idx), 2
    {
      hide Decode, DecodeKey;
      var result: map<Bytes, Json> := map[];
      while true
        invariant old(idx) <= idx <= |v|
        invariant DecodeOpenMembers(v, old(idx), map[]) == DecodeOpenMembers(v, idx, result)
        decreases Left(v, idx)
      {
        if !LengthOk(|v|, 1, idx) {
          return Err(ParseError(110));
        }
        if v[idx] == BREAK {
          Skip(1);
          return Ok(Obj(result));
        }
        var key := ReadKey();
        if key.Err? {
          return Err(key.error);
        }
        var x := FromCbor();
        if x.Err? {
          return Err(x.error);
        }
        result := result[key.value := x.value];
      }
    }
  }
}
