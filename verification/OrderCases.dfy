/** What `operator<` compares: the order of the types, and within one type the order of the values. */
module OrderCases {
  import opened ByteStrings
  import opened FloatValues
  import opened Json
  import opened Order

  // ---- different types ----

  /** Null, booleans, numbers, objects, arrays and strings come in this order. */
  lemma TypesInOrder(a: Json, b: Json)
    ensures a.Null? && !b.Null? ==> JLess(a, b) && !JLess(b, a)
    ensures a.Bool? && (IsNumber(b) || b.Obj? || b.Arr? || b.Str?) ==> JLess(a, b) && !JLess(b, a)
    ensures IsNumber(a) && (b.Obj? || b.Arr? || b.Str?) ==> JLess(a, b) && !JLess(b, a)
    ensures a.Obj? && (b.Arr? || b.Str?) ==> JLess(a, b) && !JLess(b, a)
    ensures a.Arr? && b.Str? ==> JLess(a, b) && !JLess(b, a)
  {
    hide Height, LessItems, LessMembers;
  }

  /** Null is not less than null, false is less than true, and integers of one type go by their values. */
  lemma ValuesInOrder(x: Json, y: Json)
    ensures x.Null? && y.Null? ==> !JLess(x, y)
    ensures x.Bool? && y.Bool? ==> (JLess(x, y) <==> x.b == false && y.b == true)
    ensures x.Int? && y.Int? ==> (JLess(x, y) <==> x.i < y.i)
    ensures x.Uint? && y.Uint? ==> (JLess(x, y) <==> x.u < y.u)
  {
    hide Height;
  }

  // ---- strings ----

  /** At index `k` the first difference decides: a smaller byte, or the end. */
  predicate SmallerAt(s: Bytes, t: Bytes, k: nat) {
    k <= |s| && k < |t| && s[..k] == t[..k] && (k == |s| || s[k] < t[k])
  }

  lemma {:induction false} LessIsSmaller(s: Bytes, t: Bytes) returns (k: nat)
    requires Less(s, t)
    ensures SmallerAt(s, t, k)
  {
    if s == [] || s[0] < t[0] {
      k := 0;
    } else {
      k := LessIsSmaller(s[1..], t[1..]);
      assert s[..k + 1] == [s[0]] + s[1..][..k] && t[..k + 1] == [t[0]] + t[1..][..k];
      k := k + 1;
    }
  }

  lemma {:induction false} SmallerIsLess(s: Bytes, t: Bytes, k: nat)
    requires SmallerAt(s, t, k)
    ensures Less(s, t)
  {
    if k > 0 {
      assert s[0] == s[..k][0] == t[..k][0] == t[0];
      assert s[1..][..k - 1] == s[..k][1..] == t[..k][1..] == t[1..][..k - 1];
      SmallerIsLess(s[1..], t[1..], k - 1);
    }
  }

  /** Strings go by their bytes. */
  lemma StringsInOrder(s: Bytes, t: Bytes)
    ensures JLess(Str(s), Str(t)) <==> exists k: nat :: SmallerAt(s, t, k)
  {
    hide Less, SmallerAt;
    if Less(s, t) {
      var k := LessIsSmaller(s, t);
    }
    if k: nat :| SmallerAt(s, t, k) {
      SmallerIsLess(s, t, k);
    }
  }

  // ---- arrays ----

  /** Neither is less than the other. */
  predicate Tied(x: Json, y: Json) {
    !JLess(x, y) && !JLess(y, x)
  }

  /** The elements from `i` on are tied up to `k`, where the first array ends or has the smaller element. */
  predicate ItemSmallerAt(a: seq<Json>, b: seq<Json>, i: nat, k: nat) {
    && i <= k <= |a| && k < |b|
    && (forall n | i <= n < k :: Tied(a[n], b[n]))
    && (k == |a| || JLess(a[k], b[k]))
  }

  lemma {:induction false} ItemsIff(a: Json, b: Json, i: nat)
    requires a.Arr? && b.Arr? && i <= |a.items| && i <= |b.items|
    ensures LessItems(a, b, i) <==> exists k: nat :: ItemSmallerAt(a.items, b.items, i, k)
    decreases |a.items| - i
  {
    hide JLess, Height;
    var x, y := a.items, b.items;
    if i == |y| {
    } else if i == |x| || JLess(x[i], y[i]) {
      assert ItemSmallerAt(x, y, i, i);
    } else if JLess(y[i], x[i]) {
    } else {
      var next := i + 1;
      ItemsIff(a, b, next);
      if k: nat :| ItemSmallerAt(x, y, next, k) {
        assert ItemSmallerAt(x, y, i, k);
      }
      if k: nat :| ItemSmallerAt(x, y, i, k) {
        assert ItemSmallerAt(x, y, next, k);
      }
    }
  }

  /** Arrays go by the first elements that are not tied; a proper prefix comes first. */
  lemma ArraysInOrder(a: seq<Json>, b: seq<Json>)
    ensures JLess(Arr(a), Arr(b)) <==> exists k: nat :: ItemSmallerAt(a, b, 0, k)
  {
    hide LessItems, Height, ItemSmallerAt;
    ItemsIff(Arr(a), Arr(b), 0);
    LessUnfold(Arr(a), Arr(b));
  }

  lemma LessUnfold(a: Json, b: Json)
    ensures a.Arr? && b.Arr? ==> JLess(a, b) == LessItems(a, b, 0)
    ensures a.Obj? && b.Obj? ==>
              JLess(a, b) == LessMembers(a, b, SortedKeys(a.members.Keys), SortedKeys(b.members.Keys))
  {
    hide LessItems, LessMembers, SortedKeys, Height;
  }

  // ---- objects ----

  /** The members in key order are tied up to number `k`, where the first object ends or has the smaller key,
      or the same key and the smaller value. */
  predicate MemberSmallerAt(a: map<Bytes, Json>, b: map<Bytes, Json>, ka: seq<Bytes>, kb: seq<Bytes>, k: nat)
    requires (forall x | x in ka :: x in a) && (forall x | x in kb :: x in b)
  {
    && k <= |ka| && k < |kb| && ka[..k] == kb[..k]
    && (forall n | 0 <= n < k :: Tied(a[ka[n]], b[kb[n]]))
    && (k == |ka| || Less(ka[k], kb[k]) || (ka[k] == kb[k] && JLess(a[ka[k]], b[kb[k]])))
  }

  lemma {:induction false} MembersIff(a: Json, b: Json, ka: seq<Bytes>, kb: seq<Bytes>)
    requires a.Obj? && b.Obj? && (forall x | x in ka :: x in a.members) && (forall x | x in kb :: x in b.members)
    ensures LessMembers(a, b, ka, kb) <==> exists k: nat :: MemberSmallerAt(a.members, b.members, ka, kb, k)
    decreases |ka|
  {
    hide JLess, Height, Less;
    if kb == [] {
    } else if ka == [] {
      assert MemberSmallerAt(a.members, b.members, ka, kb, 0);
    } else {
      FirstMembers(a, b, ka[0], kb[0]);
      if PairLess(a, ka[0], b, kb[0]) {
        assert MemberSmallerAt(a.members, b.members, ka, kb, 0);
      } else if PairLess(b, kb[0], a, ka[0]) {
        forall k: nat ensures !MemberSmallerAt(a.members, b.members, ka, kb, k) {
          assert k > 0 && k <= |ka| && k <= |kb| ==> ka[..k][0] == ka[0] && kb[..k][0] == kb[0];
        }
      } else {
        MembersIff(a, b, ka[1..], kb[1..]);
        if k: nat :| MemberSmallerAt(a.members, b.members, ka[1..], kb[1..], k) {
          LaterMember(a.members, b.members, ka, kb, k);
        }
        if k: nat :| MemberSmallerAt(a.members, b.members, ka, kb, k) {
          assert k > 0;
          EarlierMember(a.members, b.members, ka, kb, k);
        }
      }
    }
  }

  lemma FirstMembers(a: Json, b: Json, ka: Bytes, kb: Bytes)
    requires a.Obj? && b.Obj? && ka in a.members && kb in b.members
    ensures PairLess(a, ka, b, kb) <==> Less(ka, kb) || (ka == kb && JLess(a.members[ka], b.members[kb]))
    ensures PairLess(b, kb, a, ka) <==> Less(kb, ka) || (ka == kb && JLess(b.members[kb], a.members[ka]))
    ensures !(Less(ka, kb) && Less(kb, ka)) && (Less(ka, kb) || Less(kb, ka) <==> ka != kb)
  {
    hide JLess, Height, Less;
    StringsTrichotomous(ka, kb);
  }

  lemma LaterMember(a: map<Bytes, Json>, b: map<Bytes, Json>, ka: seq<Bytes>, kb: seq<Bytes>, k: nat)
    requires ka != [] && kb != [] && (forall x | x in ka :: x in a) && (forall x | x in kb :: x in b)
    requires ka[0] == kb[0] && Tied(a[ka[0]], b[kb[0]]) && MemberSmallerAt(a, b, ka[1..], kb[1..], k)
    ensures MemberSmallerAt(a, b, ka, kb, k + 1)
  {
    hide Tied, JLess, Less;
    assert ka[..k + 1] == [ka[0]] + ka[1..][..k] && kb[..k + 1] == [kb[0]] + kb[1..][..k];
    forall n | 0 <= n < k + 1 ensures Tied(a[ka[n]], b[kb[n]]) {
      if n > 0 {
        assert ka[1..][n - 1] == ka[n] && kb[1..][n - 1] == kb[n];
      }
    }
  }

  lemma EarlierMember(a: map<Bytes, Json>, b: map<Bytes, Json>, ka: seq<Bytes>, kb: seq<Bytes>, k: nat)
    requires k > 0 && (forall x | x in ka :: x in a) && (forall x | x in kb :: x in b)
    requires MemberSmallerAt(a, b, ka, kb, k)
    ensures MemberSmallerAt(a, b, ka[1..], kb[1..], k - 1)
  {
    hide Tied, JLess, Less;
    assert ka[1..][..k - 1] == ka[..k][1..] && kb[1..][..k - 1] == kb[..k][1..];
    forall n | 0 <= n < k - 1 ensures Tied(a[ka[1..][n]], b[kb[1..][n]]) {
      assert ka[1..][n] == ka[n + 1] && kb[1..][n] == kb[n + 1];
    }
  }

  /** Objects go by the first members, in key order, that are not tied. */
  lemma ObjectsInOrder(a: map<Bytes, Json>, b: map<Bytes, Json>)
    ensures var ka, kb := SortedKeys(a.Keys), SortedKeys(b.Keys);
            JLess(Obj(a), Obj(b)) <==> exists k: nat :: MemberSmallerAt(a, b, ka, kb, k)
  {
    hide LessMembers, Height, MemberSmallerAt, SortedKeys;
    MembersIff(Obj(a), Obj(b), SortedKeys(a.Keys), SortedKeys(b.Keys));
    LessUnfold(Obj(a), Obj(b));
  }

  // ---- floating-point numbers ----

  /** Floating-point numbers go by their values, and a NaN is neither less nor equal to anything. */
  lemma FloatsInOrder(x: uint64, y: uint64)
    ensures JLess(Float(x), Float(y)) <==> !IsNaN(x) && !IsNaN(y) && FloatValue(x) < FloatValue(y)
    ensures JEq(Float(x), Float(y)) <==> !IsNaN(x) && !IsNaN(y) && FloatValue(x) == FloatValue(y)
  {
    hide Magnitude;
    ZeroMagnitude();
    var m, n := x % TWO_TO_THE_63, y % TWO_TO_THE_63;
    if m < n {
      MagnitudeGrows(m, n);
    } else if n < m {
      MagnitudeGrows(n, m);
    }
    if 0 < m {
      MagnitudeGrows(0, m);
    }
    if 0 < n {
      MagnitudeGrows(0, n);
    }
  }
}
