/** Where `diff` and `patch` reach their limit: an array index that does not fit an `int`. */
module DiffLimits {
  import opened Access
  import opened ByteStrings
  import opened Decimal
  import opened DiffProof
  import opened Json
  import opened Locations
  import opened Patch
  import opened Pointer

  // ---- where the operations of diff point ----

  /** An operation on the value at `ptr` or on something inside it; what is removed or added is inside. */
  ghost predicate PointsBelow(op: Json, ptr: Tokens) {
    exists q: Tokens, v: Json :: PointsAt(op, ptr, q, v)
  }

  predicate PointsAt(op: Json, ptr: Tokens, q: Tokens, v: Json) {
    ptr <= q
    && (op == ReplaceOp(ToString(q), v)
        || (|ptr| < |q| && (op == RemoveOp(ToString(q)) || op == AddOp(ToString(q), v))))
  }

  ghost predicate AllBelow(ops: seq<Json>, ptr: Tokens) {
    forall op | op in ops :: PointsBelow(op, ptr)
  }

  lemma PointsInside(op: Json, ptr: Tokens, token: Bytes)
    requires PointsBelow(op, ptr + [token])
    ensures PointsBelow(op, ptr)
  {
    hide ToString;
    var q, v :| PointsAt(op, ptr + [token], q, v);
    assert PointsAt(op, ptr, q, v);
  }

  lemma ChildBelow(ops: seq<Json>, ptr: Tokens, token: Bytes)
    requires AllBelow(ops, ptr + [token])
    ensures AllBelow(ops, ptr)
  {
    hide PointsBelow;
    forall op | op in ops ensures PointsBelow(op, ptr) {
      PointsInside(op, ptr, token);
    }
  }

  lemma RemoveBelow(ptr: Tokens, token: Bytes)
    ensures PointsBelow(RemoveOp(Below(ToString(ptr), Escape(token))), ptr)
  {
    hide ToString, Escape;
    ToStringSnoc(ptr, token);
    assert PointsAt(RemoveOp(Below(ToString(ptr), Escape(token))), ptr, ptr + [token], Null);
  }

  lemma AddBelow(ptr: Tokens, token: Bytes, val: Json)
    ensures PointsBelow(AddOp(Below(ToString(ptr), Escape(token)), val), ptr)
  {
    hide ToString, Escape;
    ToStringSnoc(ptr, token);
    assert PointsAt(AddOp(Below(ToString(ptr), Escape(token)), val), ptr, ptr + [token], val);
  }

  /** Every operation that `diff` emits for the value at a pointer points to that value or into it. */
  lemma {:induction false} DiffStaysBelow(s: Json, t: Json, ptr: Tokens)
    ensures AllBelow(Diff(s, t, ToString(ptr)), ptr)
    decreases s, 1, 0
  {
    hide ToString, JEq, PointsBelow, DiffItems, RemoveItems, AddItems, DiffMembers, AddMembers, SortedKeys;
    if !JEq(s, t) {
      if s.Arr? && t.Arr? {
        var n := Min(|s.items|, |t.items|);
        ItemsStayBelow(s, t.items, ptr, n);
        RemovesStayBelow(ptr, |t.items|, |s.items|);
        AddsStayBelow(ptr, t.items, n, |t.items|);
      } else if s.Obj? && t.Obj? {
        MembersStayBelow(s, t.members, ptr, SortedKeys(s.members.Keys));
        AddedStayBelow(s.members, t.members, ptr, SortedKeys(t.members.Keys));
      } else {
        ReplaceBelow(ptr, t);
      }
    }
  }

  lemma ReplaceBelow(ptr: Tokens, val: Json)
    ensures PointsBelow(ReplaceOp(ToString(ptr), val), ptr)
  {
    hide ToString;
    assert PointsAt(ReplaceOp(ToString(ptr), val), ptr, ptr, val);
  }

  lemma {:induction false} ItemsStayBelow(s: Json, t: seq<Json>, ptr: Tokens, n: nat)
    requires s.Arr? && n <= |s.items| && n <= |t|
    ensures AllBelow(DiffItems(s, t, ToString(ptr), n), ptr)
    decreases s, 0, n
  {
    hide ToString, PointsBelow, Diff;
    if n > 0 {
      ItemsStayBelow(s, t, ptr, n - 1);
      var token := ToDecimal(n - 1);
      DiffStaysBelow(s.items[n - 1], t[n - 1], ptr + [token]);
      ToStringSnoc(ptr, token);
      EscapeDecimal(n - 1);
      ChildBelow(Diff(s.items[n - 1], t[n - 1], ToString(ptr + [token])), ptr, token);
    }
  }

  lemma {:induction false} RemovesStayBelow(ptr: Tokens, lo: nat, hi: nat)
    ensures AllBelow(RemoveItems(ToString(ptr), lo, hi), ptr)
  {
    hide ToString, PointsBelow;
    if lo < hi {
      RemovesStayBelow(ptr, lo, hi - 1);
      EscapeDecimal(hi - 1);
      RemoveBelow(ptr, ToDecimal(hi - 1));
    }
  }

  lemma {:induction false} AddsStayBelow(ptr: Tokens, t: seq<Json>, lo: nat, hi: nat)
    requires hi <= |t|
    ensures AllBelow(AddItems(ToString(ptr), t, lo, hi), ptr)
  {
    hide ToString, PointsBelow;
    if lo < hi {
      AddsStayBelow(ptr, t, lo, hi - 1);
      EscapeDecimal(hi - 1);
      AddBelow(ptr, ToDecimal(hi - 1), t[hi - 1]);
    }
  }

  lemma {:induction false} MembersStayBelow(s: Json, t: map<Bytes, Json>, ptr: Tokens, keys: seq<Bytes>)
    requires s.Obj? && forall k | k in keys :: k in s.members
    ensures AllBelow(DiffMembers(s, t, ToString(ptr), keys), ptr)
    decreases s, 0, |keys|
  {
    hide ToString, PointsBelow, Diff, Escape;
    if keys != [] {
      var k := keys[0];
      MembersStayBelow(s, t, ptr, keys[1..]);
      if k in t {
        DiffStaysBelow(s.members[k], t[k], ptr + [k]);
        ToStringSnoc(ptr, k);
        ChildBelow(Diff(s.members[k], t[k], ToString(ptr + [k])), ptr, k);
      } else {
        RemoveBelow(ptr, k);
      }
    }
  }

  lemma {:induction false} AddedStayBelow(s: map<Bytes, Json>, t: map<Bytes, Json>, ptr: Tokens, keys: seq<Bytes>)
    requires forall k | k in keys :: k in t
    ensures AllBelow(AddMembers(s, t, ToString(ptr), keys), ptr)
    decreases |keys|
  {
    hide ToString, PointsBelow, Escape;
    if keys != [] {
      AddedStayBelow(s, t, ptr, keys[1..]);
      AddBelow(ptr, keys[0], t[keys[0]]);
    }
  }

  /** Documents that differ have a difference. */
  lemma {:induction false} DiffNotEmpty(s: Json, t: Json, path: Bytes)
    requires !JEq(s, t)
    ensures Diff(s, t, path) != []
    decreases s, 1, 0
  {
    hide DiffItems, RemoveItems, AddItems, DiffMembers, AddMembers, SortedKeys, Escape, ToDecimal;
    if s.Arr? && t.Arr? {
      RemovesNotEmpty(path, |t.items|, |s.items|);
      AddsNotEmpty(path, t.items, |s.items|, |t.items|);
      if |s.items| == |t.items| {
        var i :| 0 <= i < |s.items| && !JEq(s.items[i], t.items[i]);
        ItemsNotEmpty(s, t.items, path, |s.items|, i);
      }
    } else if s.Obj? && t.Obj? {
      MembersNotEmpty(s, t, path);
    }
  }

  lemma RemovesNotEmpty(path: Bytes, lo: nat, hi: nat)
    ensures lo < hi ==> RemoveItems(path, lo, hi) != []
  {
  }

  lemma AddsNotEmpty(path: Bytes, t: seq<Json>, lo: nat, hi: nat)
    requires hi <= |t|
    ensures lo < hi ==> AddItems(path, t, lo, hi) != []
  {
  }

  lemma {:induction false} ItemsNotEmpty(s: Json, t: seq<Json>, path: Bytes, n: nat, i: nat)
    requires s.Arr? && i < n <= |s.items| && n <= |t| && !JEq(s.items[i], t[i])
    ensures DiffItems(s, t, path, n) != []
    decreases s, 0, n
  {
    hide JEq, Diff;
    if i == n - 1 {
      DiffNotEmpty(s.items[i], t[i], Below(path, ToDecimal(i)));
    } else {
      ItemsNotEmpty(s, t, path, n - 1, i);
    }
  }

  lemma {:induction false} MembersNotEmpty(s: Json, t: Json, path: Bytes)
    requires s.Obj? && t.Obj? && !JEq(s, t)
    ensures DiffMembers(s, t.members, path, SortedKeys(s.members.Keys))
            + AddMembers(s.members, t.members, path, SortedKeys(t.members.Keys)) != []
    decreases s, 0, |s.members| + 1
  {
    hide DiffMembers, AddMembers, SortedKeys;
    var keys, added := SortedKeys(s.members.Keys), SortedKeys(t.members.Keys);
    if k: Bytes :| k in s.members && (k in t.members ==> !JEq(s.members[k], t.members[k])) {
      MemberNotEmpty(s, t.members, path, keys, k);
    } else {
      var k: Bytes :| k in t.members && k !in s.members;
      AddedNotEmpty(s.members, t.members, path, added, k);
    }
  }

  lemma {:induction false} MemberNotEmpty(s: Json, t: map<Bytes, Json>, path: Bytes, keys: seq<Bytes>, k: Bytes)
    requires s.Obj? && (forall k | k in keys :: k in s.members) && k in keys && (k in t ==> !JEq(s.members[k], t[k]))
    ensures DiffMembers(s, t, path, keys) != []
    decreases s, 0, |keys|
  {
    hide JEq, Diff, Escape;
    if k == keys[0] {
      if k in t {
        DiffNotEmpty(s.members[k], t[k], Below(path, Escape(k)));
      }
    } else {
      MemberNotEmpty(s, t, path, keys[1..], k);
    }
  }

  lemma {:induction false} AddedNotEmpty(s: map<Bytes, Json>, t: map<Bytes, Json>, path: Bytes, keys: seq<Bytes>,
                                         k: Bytes)
    requires (forall k | k in keys :: k in t) && k in keys && k !in s
    ensures AddMembers(s, t, path, keys) != []
    decreases |keys|
  {
    if k != keys[0] {
      AddedNotEmpty(s, t, path, keys[1..], k);
    }
  }

  // ---- beyond the largest index ----

  lemma {:induction false} LocatePrefixFails(doc: Json, p: Tokens, more: Tokens)
    requires LocateChecked(doc, p).Err?
    ensures LocateChecked(doc, p + more) == LocateChecked(doc, p)
    decreases |p|
  {
    assert (p + more)[0] == p[0] && (p + more)[1..] == p[1..] + more;
    var s := ResolveChecked(doc, p[0]);
    if s.Ok? {
      LocatePrefixFails(Child(doc, s.value), p[1..], more);
    }
  }

  /** Past a checked pointer, a token that unchecked access refuses is refused. */
  lemma {:induction false} LocateUncheckedFails(doc: Json, ptr: Tokens, token: Bytes, more: Tokens)
    requires LocateChecked(doc, ptr).Ok?
    requires Resolve(Unchecked, Fetch(doc, LocateChecked(doc, ptr).value), token).Err?
    ensures Locate(Unchecked, doc, ptr + [token] + more).Err?
    decreases |ptr|
  {
    hide Resolve;
    var whole := ptr + [token] + more;
    if ptr == [] {
      assert whole[0] == token;
    } else {
      var s := ResolveChecked(doc, ptr[0]).value;
      assert whole[0] == ptr[0] && whole[1..] == ptr[1..] + [token] + more;
      ResolveAgrees(doc, ptr[0]);
      LocateUncheckedFails(Child(doc, s), ptr[1..], token, more);
    }
  }

  lemma ResolveAgrees(doc: Json, token: Bytes)
    requires ResolveChecked(doc, token).Ok?
    ensures Resolve(Unchecked, doc, token) == Ok(Entry(doc, ResolveChecked(doc, token).value))
  {
  }

  lemma OperationsAt(doc: Json, q: Tokens, v: Json)
    ensures PatchStep(doc, ReplaceOp(ToString(q), v)) == OperationReplace(doc, q, v)
    ensures PatchStep(doc, RemoveOp(ToString(q))) == OperationRemove(doc, q)
    ensures PatchStep(doc, AddOp(ToString(q), v)) == OperationAdd(doc, q, v)
  {
    hide ToString, Split, OperationReplace, OperationRemove, OperationAdd;
    SplitToString(q);
  }

  /** No operation inside an element with an index that is too large can be applied. */
  lemma StepFails(doc: Json, ptr: Tokens, at: Location, a: seq<Json>, i: nat, op: Json)
    requires LocateChecked(doc, ptr) == Ok(at) && Fetch(doc, at) == Arr(a) && i > INT_MAX
    requires PointsBelow(op, ptr + [ToDecimal(i)])
    ensures PatchStep(doc, op).Err?
  {
    hide PatchStep, LocateChecked, Locate, Fetch, Store, ToString, Resolve, ResolveChecked, ToDecimal, ReplaceOp,
         RemoveOp, AddOp;
    var token := ToDecimal(i);
    var deep := ptr + [token];
    ResolveTooLarge(a, i);
    LocateSnoc(doc, ptr, token);
    var q, v :| PointsAt(op, deep, q, v);
    OperationsAt(doc, q, v);
    assert q == deep + q[|deep|..];
    LocatePrefixFails(doc, deep, q[|deep|..]);
    if |deep| < |q| {
      var parent := q[..|q| - 1];
      assert parent == deep + parent[|deep|..];
      LocatePrefixFails(doc, deep, parent[|deep|..]);
      LocateUncheckedFails(doc, ptr, token, parent[|deep|..]);
    }
  }

  lemma AppendFails(doc: Json, a: seq<Json>, b: seq<Json>)
    requires PatchAll(doc, a).Err? || PatchAll(PatchAll(doc, a).value, b).Err?
    ensures PatchAll(doc, a + b).Err?
  {
    if PatchAll(doc, a).Err? {
      FrontFails(doc, a, b);
    } else {
      PatchAllAppend(doc, a, b);
    }
  }

  lemma {:induction false} FrontFails(doc: Json, a: seq<Json>, b: seq<Json>)
    requires PatchAll(doc, a).Err?
    ensures PatchAll(doc, a + b).Err?
    decreases |a|
  {
    hide PatchStep;
    assert (a + b)[0] == a[0] && (a + b)[1..] == a[1..] + b;
    var next := PatchStep(doc, a[0]);
    if next.Ok? {
      FrontFails(next.value, a[1..], b);
    }
  }

  lemma FirstFails(doc: Json, ops: seq<Json>)
    requires ops != [] && PatchStep(doc, ops[0]).Err?
    ensures PatchAll(doc, ops).Err?
  {
    hide PatchStep;
  }

  predicate ItemFits(s: Json, t: seq<Json>, i: nat)
    requires s.Arr? && i < |s.items| && i < |t|
  {
    JEq(s.items[i], t[i]) || (i <= INT_MAX && Indexable(s.items[i], t[i]))
  }

  lemma {:induction false} ItemsFail(doc: Json, ptr: Tokens, at: Location, s: Json, t: seq<Json>, n: nat)
    requires LocateChecked(doc, ptr) == Ok(at) && Fetch(doc, at) == s && s.Arr?
    requires n <= |s.items| && n <= |t| && exists i | 0 <= i < n :: !ItemFits(s, t, i)
    ensures PatchAll(doc, DiffItems(s, t, ToString(ptr), n)).Err?
    decreases s, 0, n
  {
    hide PatchStep, LocateChecked, Fetch, Store, Indexable, Merged, JEq, ToString, Diff, PatchAll, ItemFits;
    var i := n - 1;
    var path, more := ToString(ptr), Diff(s.items[i], t[i], Below(ToString(ptr), ToDecimal(i)));
    if exists k | 0 <= k < i :: !ItemFits(s, t, k) {
      ItemsFail(doc, ptr, at, s, t, i);
    } else {
      LastItemFails(doc, ptr, at, s, t, i);
    }
    AppendFails(doc, DiffItems(s, t, path, i), more);
  }

  /** The first element that does not fit is the last one that is looked at. */
  lemma {:induction false} LastItemFails(doc: Json, ptr: Tokens, at: Location, s: Json, t: seq<Json>, i: nat)
    requires LocateChecked(doc, ptr) == Ok(at) && Fetch(doc, at) == s && s.Arr? && i < |s.items| && i < |t|
    requires !ItemFits(s, t, i) && forall k | 0 <= k < i :: ItemFits(s, t, k)
    ensures PatchAll(doc, DiffItems(s, t, ToString(ptr), i)).Ok?
    ensures var r := PatchAll(doc, DiffItems(s, t, ToString(ptr), i));
            PatchAll(r.value, Diff(s.items[i], t[i], Below(ToString(ptr), ToDecimal(i)))).Err?
    decreases s, 0, i
  {
    hide PatchStep, LocateChecked, Fetch, Store, Indexable, Merged, JEq, ToString, Diff, DiffItems, PatchAll;
    forall k | 0 <= k < i && !JEq(s.items[k], t[k]) ensures k <= INT_MAX && Indexable(s.items[k], t[k]) {
      assert ItemFits(s, t, k);
    }
    ItemsWork(doc, ptr, at, s, t, i);
    var before := MergedItems(s.items, t, i);
    MergedItemsStep(s.items, t, i);
    LocateStore(doc, ptr, Arr(before));
    FetchStore(doc, at, Arr(before), Null);
    ItemFails(Store(doc, at, Arr(before)), ptr, at, before, s.items[i], t[i], i);
  }

  lemma {:induction false} ItemFails(doc: Json, ptr: Tokens, at: Location, a: seq<Json>, s: Json, t: Json, i: nat)
    requires LocateChecked(doc, ptr) == Ok(at) && Fetch(doc, at) == Arr(a) && i < |a| && a[i] == s
    requires !JEq(s, t) && (i > INT_MAX || !Indexable(s, t))
    ensures PatchAll(doc, Diff(s, t, Below(ToString(ptr), ToDecimal(i)))).Err?
    decreases s, 2, 0
  {
    hide PatchStep, LocateChecked, Fetch, Store, Indexable, Diff, PatchAll, JEq, ToString, PointsBelow;
    var token := ToDecimal(i);
    ToStringSnoc(ptr, token);
    EscapeDecimal(i);
    if i > INT_MAX {
      DiffNotEmpty(s, t, ToString(ptr + [token]));
      DiffStaysBelow(s, t, ptr + [token]);
      var ops := Diff(s, t, ToString(ptr + [token]));
      assert ops[0] in ops;
      StepFails(doc, ptr, at, a, i, ops[0]);
      FirstFails(doc, ops);
    } else {
      ResolveIndex(a, i);
      LocateSnoc(doc, ptr, token);
      Extend(doc, at, Index(i), Null);
      DiffFails(doc, ptr + [token], at + [Index(i)], s, t);
    }
  }

  lemma RemovesFail(doc: Json, ptr: Tokens, at: Location, a: seq<Json>, lo: nat)
    requires LocateChecked(doc, ptr) == Ok(at) && Fetch(doc, at) == Arr(a) && lo < |a| && |a| > INT_MAX + 1
    ensures PatchAll(doc, RemoveItems(ToString(ptr), lo, |a|)).Err?
  {
    hide PatchStep, LocateChecked, Fetch, Store, ToString, PatchAll;
    var last := |a| - 1;
    ResolveTooLarge(a, last);
    EscapeDecimal(last);
    RemoveHere(doc, ptr, at, ToDecimal(last));
    FirstFails(doc, RemoveItems(ToString(ptr), lo, |a|));
  }

  lemma {:induction false} AddsFail(doc: Json, ptr: Tokens, at: Location, a: seq<Json>, t: seq<Json>, hi: nat)
    requires LocateChecked(doc, ptr) == Ok(at) && Fetch(doc, at) == Arr(a) && |a| < hi <= |t| && hi > INT_MAX + 1
    ensures PatchAll(doc, AddItems(ToString(ptr), t, |a|, hi)).Err?
    decreases hi
  {
    hide PatchStep, LocateChecked, Fetch, Store, ToString, PatchAll;
    var last := hi - 1;
    var op := AddOp(Below(ToString(ptr), ToDecimal(last)), t[last]);
    if |a| < last && last > INT_MAX + 1 {
      AddsFail(doc, ptr, at, a, t, last);
    } else {
      AddsWork(doc, ptr, at, a, t, last);
      var before := a + t[|a|..last];
      var doc' := Store(doc, at, Arr(before));
      LocateStore(doc, ptr, Arr(before));
      FetchStore(doc, at, Arr(before), Null);
      ResolveTooLarge(before, last);
      EscapeDecimal(last);
      AddHere(doc', ptr, at, ToDecimal(last), t[last]);
      FirstFails(doc', [op]);
    }
    AppendFails(doc, AddItems(ToString(ptr), t, |a|, last), [op]);
  }

  lemma {:induction false} ArraysFail(doc: Json, ptr: Tokens, at: Location, s: Json, t: Json)
    requires LocateChecked(doc, ptr) == Ok(at) && Fetch(doc, at) == s && s.Arr? && t.Arr?
    requires !JEq(s, t) && !Indexable(s, t)
    ensures PatchAll(doc, Diff(s, t, ToString(ptr))).Err?
    decreases s, 0, |s.items| + 1
  {
    hide PatchStep, LocateChecked, Fetch, Store, Merged, Diff, DiffItems, RemoveItems, AddItems, PatchAll, MergedItems,
         ToString;
    var path, n := ToString(ptr), Min(|s.items|, |t.items|);
    var items, removed, added := DiffItems(s, t.items, path, n), RemoveItems(path, n, |s.items|),
        AddItems(path, t.items, n, |t.items|);
    ArrayCase(s, t, path);
    if exists i | 0 <= i < n :: !ItemFits(s, t.items, i) {
      ItemsFail(doc, ptr, at, s, t.items, n);
      AppendFails(doc, items, removed);
      AppendFails(doc, items + removed, added);
    } else {
      AllItemsFit(s, t, n);
      ItemsWork(doc, ptr, at, s, t.items, n);
      var a := MergedItems(s.items, t.items, n);
      var doc1 := Store(doc, at, Arr(a));
      LocateStore(doc, ptr, Arr(a));
      FetchStore(doc, at, Arr(a), Null);
      if |t.items| < |s.items| {
        RemovesFail(doc1, ptr, at, a, n);
        AppendFails(doc, items, removed);
      } else {
        NothingRemoved(path, n);
        assert a[..n] == a && items + [] == items;
        AddsFail(doc1, ptr, at, a, t.items, |t.items|);
      }
      AppendFails(doc, items + removed, added);
    }
  }

  lemma NothingRemoved(path: Bytes, n: nat)
    ensures RemoveItems(path, n, n) == []
  {
  }

  lemma AllItemsFit(s: Json, t: Json, n: nat)
    requires s.Arr? && t.Arr? && n == Min(|s.items|, |t.items|) && !JEq(s, t) && !Indexable(s, t)
    requires forall i | 0 <= i < n :: ItemFits(s, t.items, i)
    ensures forall i | 0 <= i < n && !JEq(s.items[i], t.items[i]) :: i <= INT_MAX && Indexable(s.items[i], t.items[i])
    ensures |s.items| != |t.items| && (|s.items| > INT_MAX + 1 || |t.items| > INT_MAX + 1)
  {
    forall i | 0 <= i < n && !JEq(s.items[i], t.items[i]) ensures i <= INT_MAX && Indexable(s.items[i], t.items[i]) {
      assert ItemFits(s, t.items, i);
    }
  }

  lemma {:induction false} MembersFail(doc: Json, ptr: Tokens, at: Location, cur: map<Bytes, Json>, s: Json,
                                       t: map<Bytes, Json>, keys: seq<Bytes>, bad: Bytes)
    requires LocateChecked(doc, ptr) == Ok(at) && Fetch(doc, at) == Obj(cur) && s.Obj? && Distinct(keys)
    requires forall k | k in keys :: k in s.members && k in cur && cur[k] == s.members[k]
    requires bad in keys && bad in t && !Indexable(s.members[bad], t[bad])
    ensures PatchAll(doc, DiffMembers(s, t, ToString(ptr), keys)).Err?
    decreases s, 0, |keys| + 1
  {
    hide PatchStep, LocateChecked, Fetch, Store, Merged, Indexable, DiffMember, PatchAll, ToString;
    var k, rest := keys[0], keys[1..];
    var first := DiffMember(s, t, ToString(ptr), k);
    if k in t && !Indexable(s.members[k], t[k]) {
      MemberFails(doc, ptr, at, cur, s, t, k);
    } else {
      MemberWorks(doc, ptr, at, cur, s, t, k);
      var next := AfterMember(cur, s.members, t, k);
      LocateStore(doc, ptr, Obj(next));
      FetchStore(doc, at, Obj(next), Null);
      assert forall x | x in rest :: x in keys && x != k;
      MembersFail(Store(doc, at, Obj(next)), ptr, at, next, s, t, rest, bad);
    }
    AppendFails(doc, first, DiffMembers(s, t, ToString(ptr), rest));
  }

  lemma {:induction false} MemberFails(doc: Json, ptr: Tokens, at: Location, cur: map<Bytes, Json>, s: Json,
                                       t: map<Bytes, Json>, k: Bytes)
    requires LocateChecked(doc, ptr) == Ok(at) && Fetch(doc, at) == Obj(cur) && s.Obj?
    requires k in s.members && k in cur && cur[k] == s.members[k] && k in t && !Indexable(s.members[k], t[k])
    ensures PatchAll(doc, DiffMember(s, t, ToString(ptr), k)).Err?
    decreases s, 0, 0
  {
    hide PatchStep, LocateChecked, Fetch, Store, Indexable, Diff, PatchAll, ToString;
    LocateSnoc(doc, ptr, k);
    Extend(doc, at, Key(k), Null);
    ToStringSnoc(ptr, k);
    DiffFails(doc, ptr + [k], at + [Key(k)], s.members[k], t[k]);
  }

  /** If some index does not fit an `int`, the patch cannot be applied. */
  lemma {:induction false} DiffFails(doc: Json, ptr: Tokens, at: Location, s: Json, t: Json)
    requires LocateChecked(doc, ptr) == Ok(at) && Fetch(doc, at) == s && !Indexable(s, t)
    ensures PatchAll(doc, Diff(s, t, ToString(ptr))).Err?
    decreases s, 1, 0
  {
    hide PatchStep, LocateChecked, Fetch, DiffMembers, AddMembers, PatchAll, ToString, SortedKeys, DiffItems,
         RemoveItems, AddItems, JEq;
    if s.Arr? {
      ArraysFail(doc, ptr, at, s, t);
    } else {
      var keys := SortedKeys(s.members.Keys);
      SortedKeysSorted(s.members.Keys);
      SortedDistinct(keys);
      var bad :| bad in s.members && bad in t.members && !Indexable(s.members[bad], t.members[bad]);
      MembersFail(doc, ptr, at, s.members, s, t.members, keys, bad);
      AppendFails(doc, DiffMembers(s, t.members, ToString(ptr), keys),
                  AddMembers(s.members, t.members, ToString(ptr), SortedKeys(t.members.Keys)));
    }
  }

  /** `source.patch(diff(source, target)) == target` holds exactly if every array index that has to be
      written fits an `int` and the target holds no NaN. */
  lemma DiffThenPatchIff(source: Json, target: Json)
    ensures var r := Patched(source, Arr(Diff(source, target, [])));
            && (r.Ok? <==> Indexable(source, target))
            && (r.Ok? && JEq(r.value, target) <==> Indexable(source, target) && NoNaN(target))
  {
    hide Diff, JEq, Indexable, PatchAll, NoNaN;
    if Indexable(source, target) {
      DiffThenPatch(source, target);
    } else {
      DiffFails(source, [], [], source, target);
    }
  }

  /** A NaN arrives, but equals nothing. */
  lemma NaNIsNotRestored()
    ensures var target := Float(0x7FF8_0000_0000_0000);
            Patched(Null, Arr(Diff(Null, target, []))) == Ok(target) && !JEq(target, target)
  {
    hide PatchAll, Diff;
    DiffThenPatch(Null, Float(0x7FF8_0000_0000_0000));
  }
}
