/** `patch` undoes `diff`: applying the operations of `diff(source, target)` to `source`
    succeeds and gives a document equal to `target`. */
module DiffProof {
  import opened Access
  import opened ByteStrings
  import opened Decimal
  import opened Json
  import opened Locations
  import opened Patch
  import opened Pointer

  /** What the round trip ends with: parts that were equal already are kept as `source` had them,
      everything else is as in `target`. */
  function Merged(source: Json, target: Json): Json
    decreases source
  {
    if JEq(source, target) then source
    else if source.Arr? && target.Arr? then
      Arr(seq(|target.items|, i requires 0 <= i < |target.items| =>
        if i < |source.items| then Merged(source.items[i], target.items[i]) else target.items[i]))
    else if source.Obj? && target.Obj? then
      Obj(map k | k in target.members ::
        if k in source.members then Merged(source.members[k], target.members[k]) else target.members[k])
    else target
  }

  /** Every array index that `diff` writes into a path fits the `int` that `patch` reads. */
  predicate Indexable(source: Json, target: Json)
    decreases source
  {
    if JEq(source, target) then true
    else if source.Arr? && target.Arr? then
      var s, t := source.items, target.items;
      && (|s| != |t| ==> |s| <= INT_MAX + 1 && |t| <= INT_MAX + 1)
      && forall i | 0 <= i < |s| && i < |t| && !JEq(s[i], t[i]) :: i <= INT_MAX && Indexable(s[i], t[i])
    else if source.Obj? && target.Obj? then
      forall k | k in source.members && k in target.members :: Indexable(source.members[k], target.members[k])
    else true
  }

  // ---- one operation at a pointer that resolves ----

  lemma ReplaceHere(doc: Json, ptr: Tokens, at: Location, val: Json)
    requires LocateChecked(doc, ptr) == Ok(at)
    ensures PatchStep(doc, ReplaceOp(ToString(ptr), val)) == Ok(Store(doc, at, val))
  {
    hide LocateChecked, Fetch, Store, ToString, Split;
    SplitToString(ptr);
  }

  lemma RemoveHere(doc: Json, ptr: Tokens, at: Location, token: Bytes)
    requires LocateChecked(doc, ptr) == Ok(at)
    ensures PatchStep(doc, RemoveOp(Below(ToString(ptr), Escape(token)))) ==
            var r := RemoveChild(Fetch(doc, at), token);
            if r.Ok? then Ok(Store(doc, at, r.value)) else Err(r.error)
  {
    hide LocateChecked, Fetch, Store, ToString, Split, Escape, RemoveChild;
    ToStringSnoc(ptr, token);
    SplitToString(ptr + [token]);
    assert (ptr + [token])[..|ptr|] == ptr;
    assert PatchStep(doc, RemoveOp(ToString(ptr + [token]))) == OperationRemove(doc, ptr + [token]);
  }

  lemma AddHere(doc: Json, ptr: Tokens, at: Location, token: Bytes, val: Json)
    requires LocateChecked(doc, ptr) == Ok(at)
    ensures PatchStep(doc, AddOp(Below(ToString(ptr), Escape(token)), val)) ==
            var r := AddChild(Fetch(doc, at), token, val);
            if r.Ok? then Ok(Store(doc, at, r.value)) else Err(r.error)
  {
    hide LocateChecked, Locate, Fetch, Store, Split, ToString, Escape, AddChild;
    var whole := ptr + [token];
    ToStringSnoc(ptr, token);
    SplitToString(whole);
    assert whole[..|ptr|] == ptr;
    assert PatchStep(doc, AddOp(ToString(whole), val)) == OperationAdd(doc, whole, val);
    if |whole| > 1 {
      LocateTop(doc, ptr);
      assert whole[..1] == ptr[..1];
    }
    CheckedThenUnchecked(doc, ptr);
  }

  lemma PatchOne(doc: Json, op: Json)
    ensures PatchAll(doc, [op]) == PatchStep(doc, op)
  {
    var r := PatchStep(doc, op);
    if r.Ok? {
      assert PatchAll(r.value, [op][1..]) == r;
    }
  }

  /** One more operation, then the rest. */
  lemma PatchCons(doc: Json, op: Json, rest: seq<Json>)
    requires PatchStep(doc, op).Ok?
    ensures PatchAll(doc, [op] + rest) == PatchAll(PatchStep(doc, op).value, rest)
  {
    PatchOne(doc, op);
    PatchAllAppend(doc, [op], rest);
  }

  // ---- arrays ----

  lemma RemoveLastHere(doc: Json, ptr: Tokens, at: Location, a: seq<Json>)
    requires LocateChecked(doc, ptr) == Ok(at) && Fetch(doc, at) == Arr(a)
    requires 0 < |a| <= INT_MAX + 1
    ensures PatchStep(doc, RemoveOp(Below(ToString(ptr), ToDecimal(|a| - 1)))) ==
            Ok(Store(doc, at, Arr(a[..|a| - 1])))
  {
    hide PatchStep, LocateChecked, Fetch, Store, Stoi, ToDecimal, Escape, ToString;
    var last := |a| - 1;
    RemoveHere(doc, ptr, at, ToDecimal(last));
    EscapeDecimal(last);
    StoiToDecimal(last);
    assert a[..last] + a[last + 1..] == a[..last];
  }

  lemma AppendHere(doc: Json, ptr: Tokens, at: Location, a: seq<Json>, val: Json)
    requires LocateChecked(doc, ptr) == Ok(at) && Fetch(doc, at) == Arr(a)
    requires |a| <= INT_MAX
    ensures PatchStep(doc, AddOp(Below(ToString(ptr), ToDecimal(|a|)), val)) ==
            Ok(Store(doc, at, Arr(a + [val])))
  {
    hide PatchStep, LocateChecked, Fetch, Store, Stoi, ToDecimal, Escape, ToString;
    AddHere(doc, ptr, at, ToDecimal(|a|), val);
    EscapeDecimal(|a|);
    ResolveIndex(a, |a|);
    StoiToDecimal(|a|);
    assert a[..|a|] + [val] + a[|a|..] == a + [val];
  }

  /** Removals from the back: the index in each operation is that of the last element left. */
  lemma {:induction false} RemovesWork(doc: Json, ptr: Tokens, at: Location, a: seq<Json>, lo: nat)
    requires LocateChecked(doc, ptr) == Ok(at) && Fetch(doc, at) == Arr(a)
    requires lo <= |a| && (lo < |a| ==> |a| <= INT_MAX + 1)
    ensures PatchAll(doc, RemoveItems(ToString(ptr), lo, |a|)) == Ok(Store(doc, at, Arr(a[..lo])))
    decreases |a|
  {
    hide PatchStep, LocateChecked, Fetch, Store;
    if lo == |a| {
      FetchStore(doc, at, Arr(a), Arr(a));
      assert a[..lo] == a;
    } else {
      var last := |a| - 1;
      var shorter := Arr(a[..last]);
      RemoveLastHere(doc, ptr, at, a);
      LocateStore(doc, ptr, shorter);
      FetchStore(doc, at, shorter, Arr(a[..lo]));
      RemovesWork(Store(doc, at, shorter), ptr, at, a[..last], lo);
      assert a[..last][..lo] == a[..lo];
      PatchCons(doc, RemoveOp(Below(ToString(ptr), ToDecimal(last))), RemoveItems(ToString(ptr), lo, last));
    }
  }

  lemma {:induction false} AddsWork(doc: Json, ptr: Tokens, at: Location, a: seq<Json>, t: seq<Json>, hi: nat)
    requires LocateChecked(doc, ptr) == Ok(at) && Fetch(doc, at) == Arr(a)
    requires |a| <= hi <= |t| && (|a| < hi ==> hi <= INT_MAX + 1)
    ensures PatchAll(doc, AddItems(ToString(ptr), t, |a|, hi)) == Ok(Store(doc, at, Arr(a + t[|a|..hi])))
    decreases hi
  {
    hide PatchStep, LocateChecked, Fetch, Store;
    if |a| == hi {
      FetchStore(doc, at, Arr(a), Arr(a));
      assert a + t[|a|..hi] == a;
    } else {
      var last := hi - 1;
      AddsWork(doc, ptr, at, a, t, last);
      var before := a + t[|a|..last];
      var doc' := Store(doc, at, Arr(before));
      LocateStore(doc, ptr, Arr(before));
      FetchStore(doc, at, Arr(before), Arr(before + [t[last]]));
      AppendHere(doc', ptr, at, before, t[last]);
      assert before + [t[last]] == a + t[|a|..hi];
      var op := AddOp(Below(ToString(ptr), ToDecimal(last)), t[last]);
      PatchOne(doc', op);
      PatchAllAppend(doc, AddItems(ToString(ptr), t, |a|, last), [op]);
    }
  }

  /** The array after its first `n` elements have been patched. */
  function MergedItems(s: seq<Json>, t: seq<Json>, n: nat): (a: seq<Json>)
    requires n <= |s| && n <= |t|
    ensures |a| == |s|
  {
    seq(n, i requires 0 <= i < n => Merged(s[i], t[i])) + s[n..]
  }

  lemma MergedItemsStep(s: seq<Json>, t: seq<Json>, i: nat)
    requires i < |s| && i < |t|
    ensures MergedItems(s, t, i)[i] == s[i]
    ensures MergedItems(s, t, i + 1) == MergedItems(s, t, i)[i := Merged(s[i], t[i])]
    ensures JEq(s[i], t[i]) ==> MergedItems(s, t, i + 1) == MergedItems(s, t, i)
  {
  }

  lemma {:induction false} ItemsWork(doc: Json, ptr: Tokens, at: Location, s: Json, t: seq<Json>, n: nat)
    requires LocateChecked(doc, ptr) == Ok(at) && Fetch(doc, at) == s && s.Arr?
    requires n <= |s.items| && n <= |t|
    requires forall i | 0 <= i < n && !JEq(s.items[i], t[i]) :: i <= INT_MAX && Indexable(s.items[i], t[i])
    ensures PatchAll(doc, DiffItems(s, t, ToString(ptr), n)) == Ok(Store(doc, at, Arr(MergedItems(s.items, t, n))))
    decreases s, 0, n
  {
    hide PatchStep, LocateChecked, Fetch, Store, Indexable, Merged;
    if n == 0 {
      FetchStore(doc, at, s, s);
      assert MergedItems(s.items, t, 0) == s.items;
    } else {
      var i := n - 1;
      ItemsWork(doc, ptr, at, s, t, i);
      MergedItemsStep(s.items, t, i);
      var before := MergedItems(s.items, t, i);
      LocateStore(doc, ptr, Arr(before));
      FetchStore(doc, at, Arr(before), Arr(MergedItems(s.items, t, n)));
      var more := Diff(s.items[i], t[i], Below(ToString(ptr), ToDecimal(i)));
      assert DiffItems(s, t, ToString(ptr), n) == DiffItems(s, t, ToString(ptr), i) + more;
      if !JEq(s.items[i], t[i]) {
        ItemWorks(Store(doc, at, Arr(before)), ptr, at, before, s.items[i], t[i], i);
      }
      PatchAllAppend(doc, DiffItems(s, t, ToString(ptr), i), more);
    }
  }

  lemma {:induction false} ItemWorks(doc: Json, ptr: Tokens, at: Location, a: seq<Json>, s: Json, t: Json, i: nat)
    requires LocateChecked(doc, ptr) == Ok(at) && Fetch(doc, at) == Arr(a)
    requires i < |a| && a[i] == s && i <= INT_MAX && Indexable(s, t)
    ensures PatchAll(doc, Diff(s, t, Below(ToString(ptr), ToDecimal(i)))) ==
            Ok(Store(doc, at, Arr(a[i := Merged(s, t)])))
    decreases s, 2, 0
  {
    hide PatchStep, LocateChecked, Fetch, Store, Indexable, Merged, Diff, PatchAll;
    ResolveIndex(a, i);
    LocateSnoc(doc, ptr, ToDecimal(i));
    Extend(doc, at, Index(i), Merged(s, t));
    ToStringSnoc(ptr, ToDecimal(i));
    EscapeDecimal(i);
    DiffWorks(doc, ptr + [ToDecimal(i)], at + [Index(i)], s, t);
  }

  lemma ArrayCase(s: Json, t: Json, path: Bytes)
    requires s.Arr? && t.Arr? && !JEq(s, t)
    ensures var n := Min(|s.items|, |t.items|);
            && Merged(s, t) == Arr(MergedItems(s.items, t.items, n)[..n] + t.items[n..])
            && Diff(s, t, path) == DiffItems(s, t.items, path, n)
                                   + RemoveItems(path, n, |s.items|) + AddItems(path, t.items, n, |t.items|)
  {
    var n := Min(|s.items|, |t.items|);
    assert Merged(s, t).items == MergedItems(s.items, t.items, n)[..n] + t.items[n..];
    if |s.items| <= |t.items| {
      assert RemoveItems(path, |t.items|, |s.items|) == RemoveItems(path, n, |s.items|);
    }
  }

  lemma {:induction false} ArraysWork(doc: Json, ptr: Tokens, at: Location, s: Json, t: Json)
    requires LocateChecked(doc, ptr) == Ok(at) && Fetch(doc, at) == s && s.Arr? && t.Arr?
    requires !JEq(s, t) && Indexable(s, t)
    ensures PatchAll(doc, Diff(s, t, ToString(ptr))) == Ok(Store(doc, at, Merged(s, t)))
    decreases s, 0, |s.items| + 1
  {
    hide PatchStep, LocateChecked, Fetch, Store, Merged, Diff, DiffItems, RemoveItems, AddItems, PatchAll, MergedItems;
    var path, n := ToString(ptr), Min(|s.items|, |t.items|);
    ArrayCase(s, t, path);
    ItemsWork(doc, ptr, at, s, t.items, n);
    var a := MergedItems(s.items, t.items, n);
    var doc1, doc2 := Store(doc, at, Arr(a)), Store(doc, at, Arr(a[..n]));
    LocateStore(doc, ptr, Arr(a));
    FetchStore(doc, at, Arr(a), Arr(a[..n]));
    RemovesWork(doc1, ptr, at, a, n);
    LocateStore(doc, ptr, Arr(a[..n]));
    FetchStore(doc, at, Arr(a[..n]), Merged(s, t));
    AddsWork(doc2, ptr, at, a[..n], t.items, |t.items|);
    assert t.items[n..|t.items|] == t.items[n..];
    PatchAllAppend(doc, DiffItems(s, t.items, path, n), RemoveItems(path, n, |s.items|));
    PatchAllAppend(doc, DiffItems(s, t.items, path, n) + RemoveItems(path, n, |s.items|),
                   AddItems(path, t.items, n, |t.items|));
  }

  // ---- objects ----

  ghost predicate Distinct(keys: seq<Bytes>) {
    forall i, j | 0 <= i < j < |keys| :: keys[i] != keys[j]
  }

  /** The object after its member `k` has been patched. */
  function AfterMember(cur: map<Bytes, Json>, s: map<Bytes, Json>, t: map<Bytes, Json>, k: Bytes): map<Bytes, Json>
    requires k in s
  {
    if k in t then cur[k := Merged(s[k], t[k])] else cur - {k}
  }

  /** The object after the members `keys` have been patched. */
  function AfterMembers(cur: map<Bytes, Json>, s: map<Bytes, Json>, t: map<Bytes, Json>, keys: seq<Bytes>):
    map<Bytes, Json>
    requires forall k | k in keys :: k in s
    decreases |keys|
  {
    if keys == [] then cur else AfterMembers(AfterMember(cur, s, t, keys[0]), s, t, keys[1..])
  }

  lemma {:induction false} MemberWorks(doc: Json, ptr: Tokens, at: Location, cur: map<Bytes, Json>, s: Json,
                                       t: map<Bytes, Json>, k: Bytes)
    requires LocateChecked(doc, ptr) == Ok(at) && Fetch(doc, at) == Obj(cur) && s.Obj?
    requires k in s.members && k in cur && cur[k] == s.members[k]
    requires k in t ==> Indexable(s.members[k], t[k])
    ensures PatchAll(doc, DiffMember(s, t, ToString(ptr), k)) ==
            Ok(Store(doc, at, Obj(AfterMember(cur, s.members, t, k))))
    decreases s, 0, 0
  {
    hide PatchStep, LocateChecked, Fetch, Store, Merged, Indexable, Diff, PatchAll;
    if k in t {
      LocateSnoc(doc, ptr, k);
      Extend(doc, at, Key(k), Merged(s.members[k], t[k]));
      ToStringSnoc(ptr, k);
      DiffWorks(doc, ptr + [k], at + [Key(k)], s.members[k], t[k]);
    } else {
      RemoveHere(doc, ptr, at, k);
      PatchOne(doc, RemoveOp(Below(ToString(ptr), Escape(k))));
    }
  }

  lemma {:induction false} MembersWork(doc: Json, ptr: Tokens, at: Location, cur: map<Bytes, Json>, s: Json,
                                       t: map<Bytes, Json>, keys: seq<Bytes>)
    requires LocateChecked(doc, ptr) == Ok(at) && Fetch(doc, at) == Obj(cur) && s.Obj?
    requires Distinct(keys)
    requires forall k | k in keys :: k in s.members && k in cur && cur[k] == s.members[k]
    requires forall k | k in s.members && k in t :: Indexable(s.members[k], t[k])
    ensures PatchAll(doc, DiffMembers(s, t, ToString(ptr), keys)) ==
            Ok(Store(doc, at, Obj(AfterMembers(cur, s.members, t, keys))))
    decreases s, 0, |keys| + 1
  {
    hide PatchStep, LocateChecked, Fetch, Store, Merged, Indexable, DiffMember;
    if keys == [] {
      FetchStore(doc, at, Obj(cur), Obj(cur));
    } else {
      var k, rest := keys[0], keys[1..];
      MemberWorks(doc, ptr, at, cur, s, t, k);
      var next := AfterMember(cur, s.members, t, k);
      LocateStore(doc, ptr, Obj(next));
      FetchStore(doc, at, Obj(next), Obj(AfterMembers(cur, s.members, t, keys)));
      assert forall x | x in rest :: x in keys && x != k;
      MembersWork(Store(doc, at, Obj(next)), ptr, at, next, s, t, rest);
      PatchAllAppend(doc, DiffMember(s, t, ToString(ptr), k), DiffMembers(s, t, ToString(ptr), rest));
    }
  }

  function AfterAdding(cur: map<Bytes, Json>, s: map<Bytes, Json>, t: map<Bytes, Json>, keys: seq<Bytes>):
    map<Bytes, Json>
    requires forall k | k in keys :: k in t
    decreases |keys|
  {
    if keys == [] then cur
    else AfterAdding(if keys[0] in s then cur else cur[keys[0] := t[keys[0]]], s, t, keys[1..])
  }

  lemma {:induction false} AddMembersWork(doc: Json, ptr: Tokens, at: Location, cur: map<Bytes, Json>,
                                          s: map<Bytes, Json>, t: map<Bytes, Json>, keys: seq<Bytes>)
    requires LocateChecked(doc, ptr) == Ok(at) && Fetch(doc, at) == Obj(cur)
    requires forall k | k in keys :: k in t
    ensures PatchAll(doc, AddMembers(s, t, ToString(ptr), keys)) ==
            Ok(Store(doc, at, Obj(AfterAdding(cur, s, t, keys))))
    decreases |keys|
  {
    hide PatchStep, LocateChecked, Fetch, Store;
    if keys == [] {
      FetchStore(doc, at, Obj(cur), Obj(cur));
    } else {
      var k, rest := keys[0], keys[1..];
      if k in s {
        AddMembersWork(doc, ptr, at, cur, s, t, rest);
        assert [] + AddMembers(s, t, ToString(ptr), rest) == AddMembers(s, t, ToString(ptr), rest);
      } else {
        var next := cur[k := t[k]];
        AddHere(doc, ptr, at, k, t[k]);
        LocateStore(doc, ptr, Obj(next));
        FetchStore(doc, at, Obj(next), Obj(AfterAdding(cur, s, t, keys)));
        AddMembersWork(Store(doc, at, Obj(next)), ptr, at, next, s, t, rest);
        PatchCons(doc, AddOp(Below(ToString(ptr), Escape(k)), t[k]), AddMembers(s, t, ToString(ptr), rest));
      }
    }
  }

  /** What the two passes over the members leave, key by key. */
  lemma {:induction false} AfterMembersAt(cur: map<Bytes, Json>, s: map<Bytes, Json>, t: map<Bytes, Json>,
                                          keys: seq<Bytes>, x: Bytes)
    requires forall k | k in keys :: k in s
    ensures x in AfterMembers(cur, s, t, keys) <==> if x in keys then x in t else x in cur
    ensures x in AfterMembers(cur, s, t, keys) ==>
              AfterMembers(cur, s, t, keys)[x] == if x in keys then Merged(s[x], t[x]) else cur[x]
    decreases |keys|
  {
    if keys != [] {
      AfterMembersAt(AfterMember(cur, s, t, keys[0]), s, t, keys[1..], x);
    }
  }

  lemma {:induction false} AfterAddingAt(cur: map<Bytes, Json>, s: map<Bytes, Json>, t: map<Bytes, Json>,
                                         keys: seq<Bytes>, x: Bytes)
    requires forall k | k in keys :: k in t
    ensures x in AfterAdding(cur, s, t, keys) <==> (x in keys && x !in s) || x in cur
    ensures x in AfterAdding(cur, s, t, keys) ==>
              AfterAdding(cur, s, t, keys)[x] == if x in keys && x !in s then t[x] else cur[x]
    decreases |keys|
  {
    if keys != [] {
      AfterAddingAt(if keys[0] in s then cur else cur[keys[0] := t[keys[0]]], s, t, keys[1..], x);
    }
  }

  lemma ObjectCase(s: Json, t: Json)
    requires s.Obj? && t.Obj? && !JEq(s, t)
    ensures var cur := AfterMembers(s.members, s.members, t.members, SortedKeys(s.members.Keys));
            Merged(s, t) == Obj(AfterAdding(cur, s.members, t.members, SortedKeys(t.members.Keys)))
  {
    var keys, added := SortedKeys(s.members.Keys), SortedKeys(t.members.Keys);
    var cur := AfterMembers(s.members, s.members, t.members, keys);
    var final := AfterAdding(cur, s.members, t.members, added);
    forall x
      ensures x in final <==> x in t.members
      ensures x in final ==> final[x] == Merged(s, t).members[x]
    {
      AfterMembersAt(s.members, s.members, t.members, keys, x);
      AfterAddingAt(cur, s.members, t.members, added, x);
    }
    assert final == Merged(s, t).members;
  }

  lemma {:induction false} ObjectsWork(doc: Json, ptr: Tokens, at: Location, s: Json, t: Json)
    requires LocateChecked(doc, ptr) == Ok(at) && Fetch(doc, at) == s && s.Obj? && t.Obj?
    requires !JEq(s, t) && Indexable(s, t)
    ensures PatchAll(doc, Diff(s, t, ToString(ptr))) == Ok(Store(doc, at, Merged(s, t)))
    decreases s, 0, |s.members.Keys| + 2
  {
    hide PatchStep, LocateChecked, Fetch, Store, Merged, DiffMembers, AddMembers, PatchAll, AfterMembers, AfterAdding,
         SortedKeys;
    var path, keys, added := ToString(ptr), SortedKeys(s.members.Keys), SortedKeys(t.members.Keys);
    SortedKeysSorted(s.members.Keys);
    SortedDistinct(keys);
    ObjectCase(s, t);
    MembersWork(doc, ptr, at, s.members, s, t.members, keys);
    var cur := AfterMembers(s.members, s.members, t.members, keys);
    LocateStore(doc, ptr, Obj(cur));
    FetchStore(doc, at, Obj(cur), Merged(s, t));
    AddMembersWork(Store(doc, at, Obj(cur)), ptr, at, cur, s.members, t.members, added);
    PatchAllAppend(doc, DiffMembers(s, t.members, path, keys), AddMembers(s.members, t.members, path, added));
  }

  /** The operations that `diff` emits for the value at a pointer turn that value, and nothing
      else in the document, into the merged one. */
  lemma {:induction false} DiffWorks(doc: Json, ptr: Tokens, at: Location, s: Json, t: Json)
    requires LocateChecked(doc, ptr) == Ok(at) && Fetch(doc, at) == s
    requires Indexable(s, t)
    ensures PatchAll(doc, Diff(s, t, ToString(ptr))) == Ok(Store(doc, at, Merged(s, t)))
    decreases s, 1, 0
  {
    if JEq(s, t) {
      FetchStore(doc, at, s, s);
    } else if s.Arr? && t.Arr? {
      ArraysWork(doc, ptr, at, s, t);
    } else if s.Obj? && t.Obj? {
      ObjectsWork(doc, ptr, at, s, t);
    } else {
      ReplaceHere(doc, ptr, at, t);
      PatchOne(doc, ReplaceOp(ToString(ptr), t));
    }
  }

  // ---- the result equals the target ----

  lemma {:induction false} EqualHasNoNaN(a: Json, b: Json)
    requires JEq(a, b)
    ensures NoNaN(b)
    decreases b
  {
    match b
    case Arr(items) =>
      forall x | x in items ensures NoNaN(x) {
        var i :| 0 <= i < |items| && items[i] == x;
        EqualHasNoNaN(a.items[i], x);
      }
    case Obj(m) =>
      forall k | k in m ensures NoNaN(m[k]) {
        EqualHasNoNaN(a.members[k], m[k]);
      }
    case _ =>
  }

  lemma {:induction false} MergedEqualsTarget(s: Json, t: Json)
    ensures JEq(Merged(s, t), t) <==> NoNaN(t)
    decreases t
  {
    JEqReflexive(t);
    if JEq(s, t) {
      EqualHasNoNaN(s, t);
    } else if s.Arr? && t.Arr? {
      var m := Merged(s, t).items;
      forall i | 0 <= i < |t.items| ensures JEq(m[i], t.items[i]) <==> NoNaN(t.items[i]) {
        JEqReflexive(t.items[i]);
        if i < |s.items| {
          MergedEqualsTarget(s.items[i], t.items[i]);
        }
      }
      assert NoNaN(t) <==> forall i | 0 <= i < |t.items| :: NoNaN(t.items[i]);
    } else if s.Obj? && t.Obj? {
      var m := Merged(s, t).members;
      forall k | k in t.members ensures JEq(m[k], t.members[k]) <==> NoNaN(t.members[k]) {
        JEqReflexive(t.members[k]);
        if k in s.members {
          MergedEqualsTarget(s.members[k], t.members[k]);
        }
      }
    }
  }

  /** `source.patch(diff(source, target)) == target`: the patch applies, and the result equals the
      target exactly when the target holds no NaN (which equals nothing, not even itself). */
  lemma DiffThenPatch(source: Json, target: Json)
    requires Indexable(source, target)
    ensures Patched(source, Arr(Diff(source, target, []))) == Ok(Merged(source, target))
    ensures JEq(Merged(source, target), target) <==> NoNaN(target)
  {
    DiffWorks(source, [], [], source, target);
    MergedEqualsTarget(source, target);
  }
}
