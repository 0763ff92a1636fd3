/** `flatten` is a faithful index: its entries are the leaves of the document, one pointer each. */
module FlattenIndex {
  import opened Access
  import opened ByteStrings
  import opened Decimal
  import opened Flatten
  import opened Json
  import opened Locations
  import opened Pointer

  /** `path` leads to a leaf that is flattened to `v`. */
  predicate LeafAt(j: Json, path: Tokens, v: Json) {
    if path == [] then IsLeaf(j) && v == LeafValue(j)
    else HasToken(j, path[0]) && LeafAt(ChildAt(j, path[0]), path[1..], v)
  }

  lemma {:induction false} EntryShape(j: Json, s: Bytes)
    requires s in Entries(j)
    ensures s == [] || s[0] == SLASH
  {
    if !IsLeaf(j) {
      var t, rest := EntryChild(j, s);
    }
  }

  /** An entry of a container is an entry of one of its children, under that child's token. */
  lemma EntryChild(j: Json, x: Bytes) returns (t: Bytes, s: Bytes)
    requires !IsLeaf(j) && x in Entries(j)
    ensures HasToken(j, t) && s in Entries(ChildAt(j, t))
    ensures x == Head(t) + s && Entries(j)[x] == Entries(ChildAt(j, t))[s]
  {
    if j.Arr? {
      t, s := ItemChild(j, |j.items|, x);
    } else {
      t, s := MemberChild(j, SortedKeys(j.members.Keys), x);
    }
  }

  lemma FromPrefixed(p: Bytes, m: map<Bytes, Json>, x: Bytes) returns (s: Bytes)
    requires x in Prefixed(p, m)
    ensures s in m && x == p + s && Prefixed(p, m)[x] == m[s]
  {
    s :| s in m && x == p + s;
    assert x[|p|..] == s;
  }

  lemma ItemToken(j: Json, i: nat)
    requires j.Arr? && i < |j.items|
    ensures HasToken(j, ToDecimal(i)) && ChildAt(j, ToDecimal(i)) == j.items[i]
  {
    ValueToDecimal(i);
  }

  lemma {:induction false} ItemChild(j: Json, n: nat, x: Bytes) returns (t: Bytes, s: Bytes)
    requires j.Arr? && n <= |j.items| && x in ItemEntries(j, n)
    ensures HasToken(j, t) && s in Entries(ChildAt(j, t))
    ensures x == Head(t) + s && ItemEntries(j, n)[x] == Entries(ChildAt(j, t))[s]
  {
    hide Prefixed, Entries, Escape;
    var last := Prefixed(Head(ToDecimal(n - 1)), Entries(j.items[n - 1]));
    if x in last {
      ItemToken(j, n - 1);
      t := ToDecimal(n - 1);
      s := FromPrefixed(Head(t), Entries(j.items[n - 1]), x);
    } else {
      t, s := ItemChild(j, n - 1, x);
    }
  }

  lemma {:induction false} MemberChild(j: Json, keys: seq<Bytes>, x: Bytes) returns (t: Bytes, s: Bytes)
    requires j.Obj? && (forall k | k in keys :: k in j.members) && x in MemberEntries(j, keys)
    ensures HasToken(j, t) && s in Entries(ChildAt(j, t))
    ensures x == Head(t) + s && MemberEntries(j, keys)[x] == Entries(ChildAt(j, t))[s]
    decreases |keys|
  {
    hide Prefixed, Entries, Escape;
    var k := keys[|keys| - 1];
    if x in Prefixed(Head(k), Entries(j.members[k])) {
      t := k;
      s := FromPrefixed(Head(k), Entries(j.members[k]), x);
    } else {
      t, s := MemberChild(j, keys[..|keys| - 1], x);
    }
  }

  lemma IntoPrefixed(p: Bytes, m: map<Bytes, Json>, s: Bytes)
    requires s in m
    ensures p + s in Prefixed(p, m)
  {
  }

  lemma {:induction false} ChildEntry(j: Json, t: Bytes, s: Bytes)
    requires HasToken(j, t) && s in Entries(ChildAt(j, t))
    ensures Head(t) + s in Entries(j)
  {
    IntoPrefixed(Head(t), Entries(ChildAt(j, t)), s);
    if j.Arr? {
      ItemEntriesGrow(j, Value(t), |j.items|, Head(t) + s);
    } else {
      var keys := SortedKeys(j.members.Keys);
      var i :| 0 <= i < |keys| && keys[i] == t;
      MemberEntriesGrow(j, keys, i, Head(t) + s);
    }
  }

  lemma {:induction false} ItemEntriesGrow(j: Json, i: nat, n: nat, x: Bytes)
    requires j.Arr? && i < n <= |j.items|
    requires x in Prefixed(Head(ToDecimal(i)), Entries(j.items[i]))
    ensures x in ItemEntries(j, n)
    decreases n
  {
    hide Prefixed, Entries, Escape;
    if i < n - 1 {
      ItemEntriesGrow(j, i, n - 1, x);
    }
  }

  lemma {:induction false} MemberEntriesGrow(j: Json, keys: seq<Bytes>, i: nat, x: Bytes)
    requires j.Obj? && (forall k | k in keys :: k in j.members) && i < |keys|
    requires x in Prefixed(Head(keys[i]), Entries(j.members[keys[i]]))
    ensures x in MemberEntries(j, keys)
    decreases |keys|
  {
    hide Prefixed, Entries, Escape;
    if i < |keys| - 1 {
      MemberEntriesGrow(j, keys[..|keys| - 1], i, x);
    }
  }

  /** The token in front of an entry, and what follows it, can be read off the text. */
  lemma HeadUnique(t: Bytes, s: Bytes, t': Bytes, s': Bytes)
    requires Head(t) + s == Head(t') + s'
    requires (s == [] || s[0] == SLASH) && (s' == [] || s'[0] == SLASH)
    ensures t == t' && s == s'
  {
    hide Escape, Unescape, WellEscaped;
    Escaped(t);
    Escaped(t');
    var x, n, n' := Escape(t) + s, |Escape(t)|, |Escape(t')|;
    assert x == (Head(t) + s)[1..] == Escape(t') + s';
    assert x[..n] == Escape(t) && x[..n'] == Escape(t');
    TokenLengthUnique(x, n);
    TokenLengthUnique(x, n');
    assert x[n..] == s && x[n..] == s';
  }

  /** Every entry is a leaf of the document, named by its pointer. */
  lemma EntryLeaf(j: Json, s: Bytes) returns (path: Tokens)
    requires s in Entries(j)
    ensures ToString(path) == s && LeafAt(j, path, Entries(j)[s])
    decreases j
  {
    hide Escape, Prefixed;
    if IsLeaf(j) {
      path := [];
    } else {
      var t, rest := EntryChild(j, s);
      var below := EntryLeaf(ChildAt(j, t), rest);
      path := [t] + below;
      ToStringCons(t, below);
    }
  }

  /** Every leaf of the document has an entry under its pointer. */
  lemma {:induction false} LeafEntry(j: Json, path: Tokens, v: Json)
    requires LeafAt(j, path, v)
    ensures ToString(path) in Entries(j) && Entries(j)[ToString(path)] == v
    decreases |path|
  {
    hide Escape, Prefixed, HasToken;
    if path != [] {
      var t, below := path[0], path[1..];
      var c := ChildAt(j, t);
      LeafEntry(c, below, v);
      ToStringFromFront(path);
      ChildEntry(j, t, ToString(below));
      NotLeaf(j, t);
      var t', s' := EntryChild(j, ToString(path));
      EntryShape(c, ToString(below));
      EntryShape(ChildAt(j, t'), s');
      HeadUnique(t, ToString(below), t', s');
    }
  }

  lemma NotLeaf(j: Json, t: Bytes)
    requires HasToken(j, t)
    ensures !IsLeaf(j)
  {
  }

  /** Every array index on the path fits the `int` that `std::stoi` reads. */
  predicate IndicesFit(j: Json, path: Tokens) {
    path == []
    || (HasToken(j, path[0])
        && (j.Arr? ==> Value(path[0]) <= INT_MAX)
        && IndicesFit(ChildAt(j, path[0]), path[1..]))
  }

  /** `at` reaches a leaf exactly if every array index on the way fits an `int`. */
  lemma {:induction false} LeafReached(j: Json, path: Tokens, v: Json)
    requires LeafAt(j, path, v)
    ensures At(j, path).Ok? <==> IndicesFit(j, path)
    ensures At(j, path).Ok? ==> IsLeaf(At(j, path).value) && LeafValue(At(j, path).value) == v
    decreases |path|
  {
    hide ToDecimal, Stoi, Value;
    if path != [] {
      var t := path[0];
      if j.Arr? && Value(t) > INT_MAX {
        ResolveTooLarge(j.items, Value(t));
      } else {
        if j.Arr? {
          ResolveIndex(j.items, Value(t));
        }
        LeafReached(ChildAt(j, t), path[1..], v);
        LocateStep(j, path);
      }
    }
  }

  lemma LocateStep(j: Json, path: Tokens)
    requires path != [] && HasToken(j, path[0]) && ResolveChecked(j, path[0]).Ok?
    requires Child(j, ResolveChecked(j, path[0]).value) == ChildAt(j, path[0])
    ensures At(j, path) == At(ChildAt(j, path[0]), path[1..])
  {
    hide ResolveChecked, HasToken;
    var s := ResolveChecked(j, path[0]).value;
    var rest := LocateChecked(Child(j, s), path[1..]);
    if rest.Ok? {
      assert ([s] + rest.value)[1..] == rest.value;
    }
  }

  /** The entries of `flatten` are exactly the leaves: a text is an entry if and only if it is the
      pointer of a leaf. Reading the document at that pointer succeeds exactly if the array indices in
      it fit an `int`, and gives the value of the entry, or an empty container where the entry is
      null. Keys may be anything. */
  lemma FlattenIsIndex(j: Json, path: Tokens)
    ensures ToString(path) in Flattened(j).members ==>
              && Split(ToString(path)) == Ok(path)
              && (At(j, path).Ok? <==> IndicesFit(j, path))
              && (At(j, path).Ok? ==>
                    && IsLeaf(At(j, path).value)
                    && LeafValue(At(j, path).value) == Flattened(j).members[ToString(path)])
    ensures (exists v :: LeafAt(j, path, v)) <==> ToString(path) in Flattened(j).members
    ensures forall s | s in Flattened(j).members :: Split(s).Ok? && ToString(Split(s).value) == s
  {
    hide Split, ToString, LocateChecked, Entries, IndicesFit;
    SplitToString(path);
    var s := ToString(path);
    if s in Entries(j) {
      var path' := EntryLeaf(j, s);
      ToStringInjective(path, path');
      LeafReached(j, path, Entries(j)[s]);
    }
    if v :| LeafAt(j, path, v) {
      LeafEntry(j, path, v);
    }
    forall s | s in Entries(j) ensures Split(s).Ok? && ToString(Split(s).value) == s {
      var path' := EntryLeaf(j, s);
      SplitToString(path');
    }
  }
}
