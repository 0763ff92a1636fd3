/** `flatten` and `unflatten`. */
module Flatten {
  import opened Access
  import opened ByteStrings
  import opened Decimal
  import opened Json
  import opened Locations
  import opened Pointer

  /** What `flatten` writes as one entry: a primitive value or an empty container. */
  predicate IsLeaf(j: Json) {
    j.IsPrimitive() || j == Arr([]) || j == Obj(map[])
  }

  /** Empty containers are flattened to null. */
  function LeafValue(j: Json): Json {
    if j.IsPrimitive() then j else Null
  }

  /** The reference tokens of the children. */
  predicate HasToken(j: Json, t: Bytes) {
    match j
    case Obj(m) => t in m
    case Arr(a) => AllDigits(t) && Value(t) < |a| && t == ToDecimal(Value(t))
    case _ => false
  }

  function ChildAt(j: Json, t: Bytes): (c: Json)
    requires HasToken(j, t)
    ensures c < j
  {
    if j.Obj? then j.members[t] else j.items[Value(t)]
  }

  /** The text that a token adds to a pointer. */
  function Head(t: Bytes): Bytes {
    [SLASH] + Escape(t)
  }

  /** `m` with `p` in front of every key. */
  function Prefixed(p: Bytes, m: map<Bytes, Json>): map<Bytes, Json> {
    map x | x in (set s | s in m :: p + s) :: m[x[|p|..]]
  }

  /** The entries that `flatten` adds for `j`, relative to its reference string. */
  function Entries(j: Json): map<Bytes, Json>
    decreases j, 1, 0
  {
    if IsLeaf(j) then map[[] := LeafValue(j)]
    else if j.Arr? then ItemEntries(j, |j.items|)
    else MemberEntries(j, SortedKeys(j.members.Keys))
  }

  function ItemEntries(j: Json, n: nat): map<Bytes, Json>
    requires j.Arr? && n <= |j.items|
    decreases j, 0, n
  {
    if n == 0 then map[]
    else ItemEntries(j, n - 1) + Prefixed(Head(ToDecimal(n - 1)), Entries(j.items[n - 1]))
  }

  function MemberEntries(j: Json, keys: seq<Bytes>): map<Bytes, Json>
    requires j.Obj? && forall k | k in keys :: k in j.members
    decreases j, 0, |keys|
  {
    if keys == [] then map[]
    else MemberEntries(j, keys[..|keys| - 1]) + Prefixed(Head(keys[|keys| - 1]), Entries(j.members[keys[|keys| - 1]]))
  }

  function Flattened(j: Json): Json {
    Obj(Entries(j))
  }

  /** `flatten(reference_string, value, result)`: entries are written into `result`. */
  method FlattenInto(reference: Bytes, value: Json, result: map<Bytes, Json>) returns (r: map<Bytes, Json>)
    ensures r == result + Prefixed(reference, Entries(value))
    decreases value
  {
    hide Prefixed, Escape, ToDecimal;
    r := result;
    if IsLeaf(value) {
      r := r[reference := LeafValue(value)];
      PrefixedOne(reference, LeafValue(value));
    } else if value.Arr? {
      var i := 0;
      PrefixedEmpty(reference);
      while i < |value.items|
        invariant 0 <= i <= |value.items|
        invariant r == result + Prefixed(reference, ItemEntries(value, i))
      {
        ghost var before := r;
        r := FlattenInto(reference + [SLASH] + ToDecimal(i), value.items[i], r);
        EscapeDecimal(i);
        OneChildMore(reference, ToDecimal(i), ItemEntries(value, i), Entries(value.items[i]), result);
        i := i + 1;
      }
    } else {
      var keys := SortedKeys(value.members.Keys);
      var i := 0;
      PrefixedEmpty(reference);
      while i < |keys|
        invariant 0 <= i <= |keys|
        invariant r == result + Prefixed(reference, MemberEntries(value, keys[..i]))
      {
        var key := EscapeInPlace(keys[i]);
        r := FlattenInto(reference + [SLASH] + key, value.members[keys[i]], r);
        OneChildMore(reference, keys[i], MemberEntries(value, keys[..i]), Entries(value.members[keys[i]]), result);
        assert keys[..i + 1][..i] == keys[..i];
        i := i + 1;
      }
      assert keys[..i] == keys;
    }
  }

  lemma PrefixedOne(p: Bytes, x: Json)
    ensures Prefixed(p, map[[] := x]) == map[p := x]
  {
    assert p + [] == p;
    assert p[|p|..] == [];
  }

  lemma PrefixedEmpty(p: Bytes)
    ensures Prefixed(p, map[]) == map[]
  {
  }

  lemma OneChildMore(p: Bytes, t: Bytes, m: map<Bytes, Json>, child: map<Bytes, Json>, result: map<Bytes, Json>)
    ensures result + Prefixed(p, m) + Prefixed(p + [SLASH] + Escape(t), child) ==
            result + Prefixed(p, m + Prefixed(Head(t), child))
  {
    hide Escape, Prefixed;
    assert p + [SLASH] + Escape(t) == p + Head(t);
    PrefixedTwice(p, Head(t), child);
    PrefixedUnion(p, m, Prefixed(Head(t), child));
  }

  lemma PrefixedAt(p: Bytes, m: map<Bytes, Json>, x: Bytes)
    ensures x in Prefixed(p, m) <==> p <= x && x[|p|..] in m
    ensures x in Prefixed(p, m) ==> Prefixed(p, m)[x] == m[x[|p|..]]
  {
    if p <= x && x[|p|..] in m {
      assert x == p + x[|p|..];
    }
    if x in Prefixed(p, m) {
      var s :| s in m && x == p + s;
      assert x[|p|..] == s;
    }
  }

  lemma TwoPrefixes(p: Bytes, q: Bytes, x: Bytes)
    ensures p + q <= x <==> p <= x && q <= x[|p|..]
    ensures p + q <= x ==> x[|p + q|..] == x[|p|..][|q|..]
  {
    if p <= x && q <= x[|p|..] {
      assert x == p + q + x[|p|..][|q|..];
    }
    if p + q <= x {
      assert x == p + (q + x[|p + q|..]);
    }
  }

  lemma PrefixedTwice(p: Bytes, q: Bytes, m: map<Bytes, Json>)
    ensures Prefixed(p + q, m) == Prefixed(p, Prefixed(q, m))
  {
    hide Prefixed;
    var l, r := Prefixed(p + q, m), Prefixed(p, Prefixed(q, m));
    forall x ensures (x in l <==> x in r) && (x in l ==> l[x] == r[x]) {
      TwoPrefixes(p, q, x);
      PrefixedAt(p + q, m, x);
      PrefixedAt(p, Prefixed(q, m), x);
      if p <= x {
        PrefixedAt(q, m, x[|p|..]);
      }
    }
  }

  lemma PrefixedUnion(p: Bytes, a: map<Bytes, Json>, b: map<Bytes, Json>)
    ensures Prefixed(p, a + b) == Prefixed(p, a) + Prefixed(p, b)
  {
    var l, r := Prefixed(p, a + b), Prefixed(p, a) + Prefixed(p, b);
    forall x ensures x in l <==> x in r {
      if x in l {
        var s :| s in a + b && x == p + s;
      }
    }
    forall x | x in l ensures l[x] == r[x] {
      var s :| s in a + b && x == p + s;
      assert x[|p|..] == s;
      if x in Prefixed(p, b) {
        var s' :| s' in b && x == p + s';
        assert x[|p|..] == s';
      }
    }
  }

  lemma PrefixedNothing(m: map<Bytes, Json>)
    ensures Prefixed([], m) == m
  {
    var none: Bytes := [];
    forall x ensures x in Prefixed(none, m) <==> x in m {
      assert none + x == x;
    }
    forall x | x in m ensures Prefixed(none, m)[x] == m[x] {
      assert x[|none|..] == x;
    }
  }

  /** `flatten` */
  method FlattenDocument(j: Json) returns (r: Json)
    ensures r == Flattened(j)
  {
    var m := FlattenInto([], j, map[]);
    PrefixedNothing(Entries(j));
    return Obj(m);
  }

  // ---- unflatten ----

  /** An entry with its pointer split into tokens. */
  datatype Leaf = Leaf(path: Tokens, value: Json)

  /** `ptr.get_and_create(node) = value` */
  function Put(node: Json, path: Tokens, value: Json): Result<Json> {
    var p :- Locate(Creating, node, path);
    Ok(Store(p.doc, p.at, value))
  }

  function PutAll(node: Json, leaves: seq<Leaf>): Result<Json>
    decreases |leaves|
  {
    if leaves == [] then Ok(node)
    else
      var next :- Put(node, leaves[0].path, leaves[0].value);
      PutAll(next, leaves[1..])
  }

  function PutEntries(node: Json, m: map<Bytes, Json>, keys: seq<Bytes>): Result<Json>
    requires forall k | k in keys :: k in m
    decreases |keys|
  {
    if keys == [] then Ok(node)
    else if !m[keys[0]].IsPrimitive() then Err(TypeError(315))
    else
      var path :- Split(keys[0]);
      var next :- Put(node, path, m[keys[0]]);
      PutEntries(next, m, keys[1..])
  }

  function Unflattened(j: Json): Result<Json> {
    if !j.Obj? then Err(TypeError(314)) else PutEntries(Null, j.members, SortedKeys(j.members.Keys))
  }

  /** `unflatten` */
  method UnflattenDocument(j: Json) returns (r: Result<Json>)
    ensures r == Unflattened(j)
  {
    hide Split, Locate, Store, Fetch, SortedKeys;
    if !j.Obj? {
      return Err(TypeError(314));
    }
    var m, keys := j.members, SortedKeys(j.members.Keys);
    var result := Null;
    var i := 0;
    assert keys[0..] == keys;
    while i < |keys|
      invariant 0 <= i <= |keys|
      invariant PutEntries(Null, m, keys) == PutEntries(result, m, keys[i..])
    {
      assert keys[i..][0] == keys[i] && keys[i..][1..] == keys[i + 1..];
      if !m[keys[i]].IsPrimitive() {
        return Err(TypeError(315));
      }
      var path := SplitLoop(keys[i]);
      if path.Err? {
        return Err(path.error);
      }
      var place := GetMutable(Creating, result, path.value);
      if place.Err? {
        return Err(place.error);
      }
      result := Store(place.value.doc, place.value.at, m[keys[i]]);
      i := i + 1;
    }
    return Ok(result);
  }
}
