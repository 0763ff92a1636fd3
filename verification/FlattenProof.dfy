/** `unflatten` undoes `flatten`, up to empty containers, exactly when every object is recognised
    as one from the entry that is visited first. */
module FlattenProof {
  import opened Access
  import opened ByteStrings
  import opened Decimal
  import opened Flatten
  import opened FlattenIndex
  import opened Json
  import opened Locations
  import opened Pointer

  /** `j` with every empty container replaced by null. */
  function Normal(j: Json): Json {
    if IsLeaf(j) then LeafValue(j)
    else if j.Arr? then Arr(seq(|j.items|, i requires 0 <= i < |j.items| => Normal(j.items[i])))
    else Obj(map k | k in j.members :: Normal(j.members[k]))
  }

  /** An entry below `key` comes before the entries below "0", whose value is `zero`. Entries are
      visited in the order of their escaped text, which is not the order of the keys. */
  predicate Precedes(key: Bytes, zero: Json) {
    || key == []
    || key[0] < SLASH
    || (|key| >= 2 && key[0] == ZERO && key[1] < SLASH && !IsLeaf(zero))
  }

  /** Every object that holds the key "0" also holds a key that comes before it, and array indices
      fit an `int`. */
  predicate Restorable(j: Json) {
    match j
    case Arr(a) => |a| <= INT_MAX + 1 && forall x | x in a :: Restorable(x)
    case Obj(m) =>
      && (INDEX_ZERO in m ==> exists k :: k in m && Precedes(k, m[INDEX_ZERO]))
      && forall k | k in m :: Restorable(m[k])
    case _ => true
  }

  // ---- unflattening, one child at a time ----

  /** The child of a partial result; null when there is none yet. */
  function Get(node: Json, t: Bytes): Json {
    match node
    case Obj(m) => if t in m then m[t] else Null
    case Arr(a) => if AllDigits(t) && Value(t) < |a| then a[Value(t)] else Null
    case _ => Null
  }

  function Set(node: Json, t: Bytes, c: Json): Json {
    match node
    case Obj(m) => Obj(m[t := c])
    case Arr(a) =>
      if !AllDigits(t) then node
      else if Value(t) < |a| then Arr(a[Value(t) := c])
      else Arr(a + Nulls(Value(t) - |a|) + [c])
    case _ => node
  }

  /** `t` can be a token below this partial container. */
  predicate Fits(node: Json, t: Bytes) {
    node.Obj? || (node.Arr? && AllDigits(t) && Value(t) <= INT_MAX && t == ToDecimal(Value(t)))
  }

  lemma GetSet(node: Json, t: Bytes, c: Json, t': Bytes)
    requires Fits(node, t) && Fits(node, t')
    ensures Fits(Set(node, t, c), t')
    ensures Get(Set(node, t, c), t') == if t == t' then c else Get(node, t')
  {
  }

  lemma PutStep(node: Json, path: Tokens, v: Json)
    requires path != [] && Fits(node, path[0])
    ensures Put(node, path, v) ==
            var c := Put(Get(node, path[0]), path[1..], v);
            if c.Ok? then Ok(Set(node, path[0], c.value)) else Err(c.error)
  {
    hide Stoi, ToDecimal, Value;
    var t := path[0];
    if node.Arr? {
      ResolveIndex(node.items, Value(t));
    }
    var e := Resolve(Creating, node, t).value;
    assert Child(e.node, e.step) == Get(node, t);
    var below := Locate(Creating, Child(e.node, e.step), path[1..]);
    if below.Ok? {
      var p := Above(e, below.value);
      ChildWithChild(e.node, e.step, below.value.doc, Store(below.value.doc, below.value.at, v));
      assert p.at[1..] == below.value.at;
      assert Store(p.doc, p.at, v) == WithChild(e.node, e.step, Store(below.value.doc, below.value.at, v));
      assert WithChild(e.node, e.step, Store(below.value.doc, below.value.at, v))
          == Set(node, t, Store(below.value.doc, below.value.at, v)) by {
        WithChildIsSet(node, t, e, Store(below.value.doc, below.value.at, v));
      }
    }
  }

  lemma WithChildIsSet(node: Json, t: Bytes, e: Entry, c: Json)
    requires Fits(node, t) && Resolve(Creating, node, t) == Ok(e)
    requires node.Arr? ==> ArrayIndex(t) == Ok(Value(t))
    ensures WithChild(e.node, e.step, c) == Set(node, t, c)
  {
    hide Stoi, ToDecimal, Value;
    if node.Obj? {
      assert node.members[t := Null][t := c] == node.members[t := c];
    } else if Value(t) >= |node.items| {
      var a, i := node.items, Value(t);
      assert (a + Nulls(i + 1 - |a|))[i := c] == a + Nulls(i - |a|) + [c];
    }
  }

  /** The first token decides what a null becomes. */
  lemma PutFromNull(path: Tokens, v: Json)
    requires path != []
    ensures Put(Null, path, v) == Put(if path[0] == INDEX_ZERO then Arr([]) else Obj(map[]), path, v)
  {
    assert ToDecimal(0) == INDEX_ZERO;
    ResolveIndex([], 0);
  }

  /** The leaves below token `t`, in the order they have. */
  function Sub(leaves: seq<Leaf>, t: Bytes): seq<Leaf> {
    if leaves == [] then []
    else
      var e, rest := leaves[0], Sub(leaves[1..], t);
      if e.path != [] && e.path[0] == t then [Leaf(e.path[1..], e.value)] + rest else rest
  }

  predicate AllFit(node: Json, leaves: seq<Leaf>) {
    forall e | e in leaves :: e.path != [] && Fits(node, e.path[0])
  }

  lemma AllFitStep(node: Json, leaves: seq<Leaf>, t: Bytes, c: Json)
    requires (node.Obj? || node.Arr?) && AllFit(node, leaves) && leaves != []
    ensures AllFit(Set(node, t, c), leaves[1..])
  {
    assert forall e | e in leaves[1..] :: e in leaves;
  }

  /** Putting all the leaves into a container puts, below each token, the leaves of that token. */
  lemma {:induction false} PutAllAt(node: Json, leaves: seq<Leaf>, t: Bytes)
    requires AllFit(node, leaves) && Fits(node, t)
    requires PutAll(node, leaves).Ok?
    ensures var r := PutAll(node, leaves).value;
            && r.Obj? == node.Obj? && r.Arr? == node.Arr?
            && PutAll(Get(node, t), Sub(leaves, t)) == Ok(Get(r, t))
    decreases |leaves|
  {
    hide Put, Fits, Set, Get;
    if leaves != [] {
      var e, rest := leaves[0], leaves[1..];
      assert e in leaves;
      var t0 := e.path[0];
      PutStep(node, e.path, e.value);
      var c := Put(Get(node, t0), e.path[1..], e.value).value;
      var next := Set(node, t0, c);
      KindKept(node, t0, c);
      AllFitStep(node, leaves, t0, c);
      GetSet(node, t0, c, t);
      PutAllAt(next, rest, t);
      if t0 == t {
        PutAllCons(Get(node, t), Leaf(e.path[1..], e.value), Sub(rest, t));
      }
    }
  }

  lemma KindKept(node: Json, t: Bytes, c: Json)
    ensures Set(node, t, c).Obj? == node.Obj? && Set(node, t, c).Arr? == node.Arr?
    ensures Fits(node, t) ==> node.Obj? || node.Arr?
  {
  }

  lemma PutAllCons(node: Json, e: Leaf, rest: seq<Leaf>)
    ensures PutAll(node, [e] + rest) ==
            var next := Put(node, e.path, e.value);
            if next.Ok? then PutAll(next.value, rest) else next
  {
    assert ([e] + rest)[1..] == rest;
  }

  /** If it works below every token, it works. */
  lemma {:induction false} PutAllOk(node: Json, leaves: seq<Leaf>)
    requires AllFit(node, leaves)
    requires forall e | e in leaves :: PutAll(Get(node, e.path[0]), Sub(leaves, e.path[0])).Ok?
    ensures PutAll(node, leaves).Ok?
    decreases |leaves|
  {
    hide Put, Fits, Set, Get;
    if leaves != [] {
      var e, rest := leaves[0], leaves[1..];
      assert e in leaves;
      var t0 := e.path[0];
      PutStep(node, e.path, e.value);
      PutAllCons(Get(node, t0), Leaf(e.path[1..], e.value), Sub(rest, t0));
      var c := Put(Get(node, t0), e.path[1..], e.value).value;
      var next := Set(node, t0, c);
      KindKept(node, t0, c);
      AllFitStep(node, leaves, t0, c);
      forall x | x in rest ensures PutAll(Get(next, x.path[0]), Sub(rest, x.path[0])).Ok? {
        assert x in leaves;
        var t := x.path[0];
        GetSet(node, t0, c, t);
        if t == t0 {
          PutAllCons(Get(node, t), Leaf(e.path[1..], e.value), Sub(rest, t));
        }
      }
      PutAllOk(next, rest);
    }
  }

  /** The keys of an object are those that were there and those that leaves were put under. */
  lemma {:induction false} PutAllKeys(node: Json, leaves: seq<Leaf>, t: Bytes)
    requires node.Obj? && AllFit(node, leaves) && PutAll(node, leaves).Ok?
    ensures PutAll(node, leaves).value.Obj?
    ensures t in PutAll(node, leaves).value.members <==>
            t in node.members || exists e :: e in leaves && e.path[0] == t
    decreases |leaves|
  {
    hide Put, Get;
    if leaves != [] {
      var e, rest := leaves[0], leaves[1..];
      assert e in leaves;
      PutStep(node, e.path, e.value);
      var c := Put(Get(node, e.path[0]), e.path[1..], e.value).value;
      AllFitStep(node, leaves, e.path[0], c);
      PutAllKeys(Set(node, e.path[0], c), rest, t);
      assert forall x :: x in leaves <==> x == e || x in rest;
    }
  }

  /** The length of an array is fixed by the largest index. */
  lemma {:induction false} PutAllLength(node: Json, leaves: seq<Leaf>, n: nat)
    requires node.Arr? && AllFit(node, leaves) && PutAll(node, leaves).Ok?
    requires |node.items| <= n && forall e | e in leaves :: AllDigits(e.path[0]) && Value(e.path[0]) < n
    ensures PutAll(node, leaves).value.Arr?
    ensures |PutAll(node, leaves).value.items| <= n
    ensures |node.items| == n || (exists e :: e in leaves && Value(e.path[0]) == n - 1) ==>
              |PutAll(node, leaves).value.items| == n
    decreases |leaves|
  {
    hide Put, Get, Value, ToDecimal;
    if leaves != [] {
      var e, rest := leaves[0], leaves[1..];
      assert e in leaves;
      PutStep(node, e.path, e.value);
      var c := Put(Get(node, e.path[0]), e.path[1..], e.value).value;
      AllFitStep(node, leaves, e.path[0], c);
      assert forall x :: x in leaves <==> x == e || x in rest;
      PutAllLength(Set(node, e.path[0], c), rest, n);
    }
  }

  /** An array stays an array, whatever is put into it. */
  lemma {:induction false} ArrayStays(node: Json, leaves: seq<Leaf>)
    requires node.Arr? && forall e | e in leaves :: e.path != []
    ensures PutAll(node, leaves).Ok? ==> PutAll(node, leaves).value.Arr?
    ensures (exists e :: e in leaves && Stoi(e.path[0]) == TooLarge) ==> PutAll(node, leaves).Err?
    decreases |leaves|
  {
    hide Stoi, Locate, Fetch;
    if leaves != [] {
      var e, rest := leaves[0], leaves[1..];
      assert e in leaves;
      assert forall x :: x in leaves <==> x == e || x in rest;
      PutIntoArray(node, e.path, e.value);
      var next := Put(node, e.path, e.value);
      if next.Ok? {
        ArrayStays(next.value, rest);
      }
    }
  }

  lemma PutIntoArray(node: Json, path: Tokens, v: Json)
    requires node.Arr? && path != []
    ensures Put(node, path, v).Ok? ==> Put(node, path, v).value.Arr?
    ensures Stoi(path[0]) == TooLarge ==> Put(node, path, v).Err?
  {
    hide Stoi;
  }

  // ---- the order of the entries ----

  ghost predicate SortedLeaves(leaves: seq<Leaf>) {
    forall i, j | 0 <= i < j < |leaves| :: Less(ToString(leaves[i].path), ToString(leaves[j].path))
  }

  /** `leaves` are the leaves of `j` in the order in which `unflatten` visits their entries. */
  ghost predicate Listing(j: Json, leaves: seq<Leaf>) {
    SortedLeaves(leaves) && forall e: Leaf :: e in leaves <==> LeafAt(j, e.path, e.value)
  }

  lemma {:induction false} SubMember(leaves: seq<Leaf>, t: Bytes, e: Leaf)
    ensures e in Sub(leaves, t) <==> Leaf([t] + e.path, e.value) in leaves
  {
    var up := Leaf([t] + e.path, e.value);
    if leaves != [] {
      var e0, rest := leaves[0], leaves[1..];
      SubMember(rest, t, e);
      assert up in leaves <==> up == e0 || up in rest;
      if e0.path != [] && e0.path[0] == t {
        var low := Leaf(e0.path[1..], e0.value);
        assert e0.path == [t] + e0.path[1..];
        assert e == low <==> up == e0 by {
          assert up.path[1..] == e.path;
        }
        assert e in Sub(leaves, t) <==> e == low || e in Sub(rest, t);
      }
    }
  }

  lemma {:induction false} SubSorted(leaves: seq<Leaf>, t: Bytes)
    requires SortedLeaves(leaves)
    ensures SortedLeaves(Sub(leaves, t))
  {
    hide ToString;
    if leaves != [] {
      var e0, rest := leaves[0], leaves[1..];
      SubSorted(rest, t);
      if e0.path != [] && e0.path[0] == t {
        var low, sub := Leaf(e0.path[1..], e0.value), Sub(rest, t);
        forall i | 0 <= i < |sub| ensures Less(ToString(low.path), ToString(sub[i].path)) {
          var e := sub[i];
          SubMember(rest, t, e);
          assert e0.path == [t] + low.path;
          ToStringCons(t, low.path);
          ToStringCons(t, e.path);
          LessPrefix([SLASH] + Escape(t), ToString(low.path), ToString(e.path));
        }
      }
    }
  }

  lemma SubListing(j: Json, leaves: seq<Leaf>, t: Bytes)
    requires Listing(j, leaves) && HasToken(j, t)
    ensures Listing(ChildAt(j, t), Sub(leaves, t))
  {
    hide HasToken, ToString, Less;
    SubSorted(leaves, t);
    forall e: Leaf ensures e in Sub(leaves, t) <==> LeafAt(ChildAt(j, t), e.path, e.value) {
      SubMember(leaves, t, e);
      assert ([t] + e.path)[1..] == e.path;
    }
  }

  lemma SomeLeaf(j: Json) returns (path: Tokens, v: Json)
    ensures LeafAt(j, path, v)
    decreases j
  {
    if IsLeaf(j) {
      path, v := [], LeafValue(j);
    } else {
      var t;
      if j.Arr? {
        t := ToDecimal(0);
        ItemToken(j, 0);
      } else {
        t :| t in j.members;
      }
      var below;
      below, v := SomeLeaf(ChildAt(j, t));
      path := [t] + below;
      assert path[1..] == below;
    }
  }

  lemma LessByte(p: Bytes, x: byte, y: byte, a: Bytes, b: Bytes)
    requires x < y
    ensures Less(p + [x] + a, p + [y] + b)
  {
    LessPrefix(p, [x] + a, [y] + b);
    assert p + [x] + a == p + ([x] + a) && p + [y] + b == p + ([y] + b);
  }

  function EncodedByte(c: byte): Bytes {
    if c == TILDE then [TILDE, ZERO] else if c == SLASH then [TILDE, ONE] else [c]
  }

  lemma EscapeCons(k: Bytes)
    requires k != []
    ensures Escape(k) == EncodedByte(k[0]) + Encoded(k[1..])
  {
    EscapeIsEncoded(k);
  }

  lemma ZeroText(path: Tokens)
    ensures ToString([INDEX_ZERO] + path) == [SLASH, ZERO] + ToString(path)
    ensures path == [] ==> ToString(path) == []
    ensures path != [] ==> ToString(path) != [] && ToString(path)[0] == SLASH
  {
    hide Escape;
    ToStringCons(INDEX_ZERO, path);
    EscapeDecimal(0);
    assert ToDecimal(0) == INDEX_ZERO;
    if path != [] {
      ToStringFromFront(path);
    }
  }

  /** Below a key that precedes "0", entries come before those below "0"; below any other key
      they come after. */
  lemma PrecedesText(k: Bytes, path: Tokens, zero: Json, zeroPath: Tokens, v: Json)
    requires LeafAt(zero, zeroPath, v) && k != INDEX_ZERO
    ensures Precedes(k, zero) ==> Less(ToString([k] + path), ToString([INDEX_ZERO] + zeroPath))
    ensures !Precedes(k, zero) ==> Less(ToString([INDEX_ZERO] + zeroPath), ToString([k] + path))
  {
    hide Escape, ToString, Encoded;
    var a, z := ToString([k] + path), ToString([INDEX_ZERO] + zeroPath);
    var below, zeroBelow := ToString(path), ToString(zeroPath);
    ToStringCons(k, path);
    ZeroText(path);
    ZeroText(zeroPath);
    assert z == [SLASH] + [ZERO] + zeroBelow;
    if k == [] {
      EscapeIsEncoded([]);
      EmptyKeyFirst(below, zeroBelow);
    } else {
      EscapeCons(k);
      var c, rest := EncodedByte(k[0]), Encoded(k[1..]);
      assert a == [SLASH] + [c[0]] + (c[1..] + rest + below);
      if c[0] < ZERO {
        LessByte([SLASH], c[0], ZERO, c[1..] + rest + below, zeroBelow);
      } else if c[0] > ZERO {
        LessByte([SLASH], ZERO, c[0], zeroBelow, c[1..] + rest + below);
      } else {
        LongerKey(k, below, zero, zeroBelow);
        assert a == [SLASH, ZERO] + (Encoded(k[1..]) + below);
        LessPrefix([SLASH, ZERO], Encoded(k[1..]) + below, zeroBelow);
        LessPrefix([SLASH, ZERO], zeroBelow, Encoded(k[1..]) + below);
      }
    }
  }

  lemma EmptyKeyFirst(below: Bytes, zeroBelow: Bytes)
    requires below == [] || below[0] == SLASH
    ensures Less([SLASH] + [] + below, [SLASH, ZERO] + zeroBelow)
    ensures Encoded([]) == []
  {
    var z := [ZERO] + zeroBelow;
    assert [SLASH] + [] + below == [SLASH] + below && [SLASH, ZERO] + zeroBelow == [SLASH] + z;
    LessPrefix([SLASH], below, z);
  }

  /** Two keys that start with a zero digit: the byte after it decides. */
  lemma LongerKey(k: Bytes, below: Bytes, zero: Json, zeroBelow: Bytes)
    requires |k| >= 1 && k[0] == ZERO && k != INDEX_ZERO
    requires IsLeaf(zero) ==> zeroBelow == []
    requires !IsLeaf(zero) ==> zeroBelow != [] && zeroBelow[0] == SLASH
    ensures Precedes(k, zero) ==> Less(Encoded(k[1..]) + below, zeroBelow)
    ensures !Precedes(k, zero) ==> Less(zeroBelow, Encoded(k[1..]) + below)
  {
    assert k == [ZERO] + k[1..];
    var tail := Encoded(k[1..]) + below;
    assert tail[0] == EncodedByte(k[1])[0];
  }

  /** The first entry of an array is one of its element 0. */
  lemma FirstOfArray(j: Json, leaves: seq<Leaf>)
    requires Listing(j, leaves) && j.Arr? && !IsLeaf(j)
    ensures leaves != [] && leaves[0].path != [] && leaves[0].path[0] == INDEX_ZERO
  {
    hide Escape, ToString, Less;
    ItemToken(j, 0);
    assert ToDecimal(0) == INDEX_ZERO;
    var below, v := SomeLeaf(ChildAt(j, INDEX_ZERO));
    var first := Leaf([INDEX_ZERO] + below, v);
    assert first.path[1..] == below;
    assert first in leaves;
    var e := leaves[0];
    var t := e.path[0];
    if t != INDEX_ZERO {
      ValueToDecimal(Value(t));
      EscapeDecimal(Value(t));
      ZeroText(below);
      var rest := t[1..] + ToString(e.path[1..]);
      ToStringFromFront(e.path);
      assert ToString(e.path) == [SLASH] + [t[0]] + rest;
      LessByte([SLASH], ZERO, t[0], ToString(below), rest);
      assert ToString(first.path) == [SLASH] + [ZERO] + ToString(below);
      var i :| 0 <= i < |leaves| && leaves[i] == first;
      LessAsymmetric(ToString(first.path), ToString(e.path));
    }
  }

  /** The first entry of an object is one of its member "0" unless another key precedes it. */
  lemma FirstOfObject(j: Json, leaves: seq<Leaf>)
    requires Listing(j, leaves) && j.Obj? && !IsLeaf(j)
    ensures leaves != [] && leaves[0].path != []
    ensures leaves[0].path[0] == INDEX_ZERO <==>
            INDEX_ZERO in j.members && !exists k :: k in j.members && Precedes(k, j.members[INDEX_ZERO])
  {
    hide Escape, ToString, Less, Precedes;
    var path, v := SomeLeaf(j);
    assert Leaf(path, v) in leaves;
    var e := leaves[0];
    assert LeafAt(j, e.path, e.value);
    var t := e.path[0];
    assert e.path == [t] + e.path[1..];
    if INDEX_ZERO in j.members {
      var zero := j.members[INDEX_ZERO];
      NotBeforeItself(zero);
      if t == INDEX_ZERO {
        forall k | k in j.members ensures !Precedes(k, zero) {
          if k != INDEX_ZERO {
            var below, u := SomeLeaf(j.members[k]);
            PrecedesText(k, below, zero, e.path[1..], e.value);
            FirstIsLeast(j, leaves, [k] + below, u);
          }
        }
      } else {
        var below, u := SomeLeaf(zero);
        PrecedesText(t, e.path[1..], zero, below, u);
        FirstIsLeast(j, leaves, [INDEX_ZERO] + below, u);
        assert Precedes(t, zero);
      }
    }
  }

  lemma NotBeforeItself(zero: Json)
    ensures !Precedes(INDEX_ZERO, zero)
  {
  }

  lemma FirstIsLeast(j: Json, leaves: seq<Leaf>, path: Tokens, v: Json)
    requires Listing(j, leaves) && path != [] && HasToken(j, path[0]) && LeafAt(ChildAt(j, path[0]), path[1..], v)
    ensures leaves != [] && !Less(ToString(path), ToString(leaves[0].path))
  {
    hide ToString, Less, HasToken;
    var e := Leaf(path, v);
    assert LeafAt(j, e.path, e.value);
    assert e in leaves;
    var i :| 0 <= i < |leaves| && leaves[i] == e;
    if i == 0 {
      LessIrreflexive(ToString(path));
    } else if Less(ToString(path), ToString(leaves[0].path)) {
      LessAsymmetric(ToString(path), ToString(leaves[0].path));
    }
  }

  // ---- the theorem ----

  lemma {:induction false} PutAllNormal(j: Json, leaves: seq<Leaf>)
    requires Listing(j, leaves)
    ensures PutAll(Null, leaves) == Ok(Normal(j)) <==> Restorable(j)
    decreases j, 1
  {
    hide ToString, Less, Precedes;
    if IsLeaf(j) {
      OneLeaf(j, leaves);
    } else if j.Arr? {
      ArrayNormal(j, leaves);
    } else {
      ObjectNormal(j, leaves);
    }
  }

  lemma OneLeaf(j: Json, leaves: seq<Leaf>)
    requires Listing(j, leaves) && IsLeaf(j)
    ensures PutAll(Null, leaves) == Ok(Normal(j)) && Restorable(j)
  {
    hide ToString, Less;
    var e := Leaf([], LeafValue(j));
    assert e in leaves;
    forall i | 0 <= i < |leaves| ensures leaves[i] == e {
      assert leaves[i] in leaves;
      NoTokens(j, leaves[i]);
    }
    LessIrreflexive(ToString(e.path));
    AtMostOne(leaves, e);
    assert leaves == [e];
    PutAllCons(Null, e, []);
  }

  lemma AtMostOne(leaves: seq<Leaf>, e: Leaf)
    requires SortedLeaves(leaves) && (forall i | 0 <= i < |leaves| :: leaves[i] == e)
    requires !Less(ToString(e.path), ToString(e.path))
    ensures |leaves| <= 1
  {
    hide ToString, Less;
    assert |leaves| > 1 ==> Less(ToString(leaves[0].path), ToString(leaves[1].path));
  }

  lemma NoTokens(j: Json, e: Leaf)
    requires IsLeaf(j) && LeafAt(j, e.path, e.value)
    ensures e == Leaf([], LeafValue(j))
  {
  }

  lemma {:induction false} ArrayNormal(j: Json, leaves: seq<Leaf>)
    requires Listing(j, leaves) && j.Arr? && !IsLeaf(j)
    ensures PutAll(Null, leaves) == Ok(Normal(j)) <==> Restorable(j)
    decreases j, 0
  {
    hide ToString, Less, Put, Precedes, Restorable, Normal, Stoi, Value, AllDigits, Listing;
    FirstOfArray(j, leaves);
    StartFromNull(leaves);
    PathsNotEmpty(j, leaves);
    ArrayStays(Arr([]), leaves);
    if |j.items| > INT_MAX + 1 {
      TooLong(j, leaves);
      NotRestorable(j);
    } else {
      var start := Arr([]);
      ItemsFit(j, leaves);
      forall i | 0 <= i < |j.items|
        ensures PutAll(Null, Sub(leaves, ToDecimal(i))) == Ok(Normal(j.items[i])) <==> Restorable(j.items[i])
      {
        ItemToken(j, i);
        SubListing(j, leaves, ToDecimal(i));
        PutAllNormal(j.items[i], Sub(leaves, ToDecimal(i)));
      }
      ArrayRestorable(j);
      if forall i | 0 <= i < |j.items| :: PutAll(Null, Sub(leaves, ToDecimal(i))).Ok? {
        ItemsOk(j, leaves);
      }
      if PutAll(start, leaves).Ok? {
        var r := PutAll(start, leaves).value;
        ItemsCounted(j, leaves);
        forall i | 0 <= i < |j.items|
          ensures PutAll(Null, Sub(leaves, ToDecimal(i))) == Ok(r.items[i])
        {
          ItemFits(i);
          PutAllAt(start, leaves, ToDecimal(i));
          GetItem(r, i);
          GetItem(start, i);
        }
        NormalArray(j, r);
      }
    }
  }

  lemma StartFromNull(leaves: seq<Leaf>)
    requires leaves != [] && leaves[0].path != []
    ensures PutAll(Null, leaves) == PutAll(if leaves[0].path[0] == INDEX_ZERO then Arr([]) else Obj(map[]), leaves)
  {
    hide Put;
    PutFromNull(leaves[0].path, leaves[0].value);
  }

  lemma PathsNotEmpty(j: Json, leaves: seq<Leaf>)
    requires Listing(j, leaves) && !IsLeaf(j)
    ensures forall e | e in leaves :: e.path != [] && HasToken(j, e.path[0])
  {
    hide ToString, Less;
    forall e | e in leaves ensures e.path != [] && HasToken(j, e.path[0]) {
      assert LeafAt(j, e.path, e.value);
    }
  }

  lemma TooLong(j: Json, leaves: seq<Leaf>)
    requires Listing(j, leaves) && j.Arr? && |j.items| > INT_MAX + 1
    ensures exists e :: e in leaves && e.path != [] && Stoi(e.path[0]) == TooLarge
  {
    hide ToString, Less, Stoi, ToDecimal, Value;
    ItemToken(j, INT_MAX + 1);
    StoiToDecimal(INT_MAX + 1);
    var t := ToDecimal(INT_MAX + 1);
    var below, v := SomeLeaf(ChildAt(j, t));
    var e := Leaf([t] + below, v);
    assert e.path[1..] == below;
    assert LeafAt(j, e.path, e.value);
    assert e in leaves;
  }

  lemma NotRestorable(j: Json)
    requires j.Arr? && |j.items| > INT_MAX + 1
    ensures !Restorable(j)
  {
  }

  lemma ItemFits(i: nat)
    requires i <= INT_MAX
    ensures Fits(Arr([]), ToDecimal(i))
  {
    ValueToDecimal(i);
  }

  lemma ItemsFit(j: Json, leaves: seq<Leaf>)
    requires Listing(j, leaves) && j.Arr? && !IsLeaf(j) && |j.items| <= INT_MAX + 1
    ensures AllFit(Arr([]), leaves)
  {
    hide ToString, Less, Listing;
    PathsNotEmpty(j, leaves);
  }

  lemma ArrayRestorable(j: Json)
    requires j.Arr? && |j.items| <= INT_MAX + 1
    ensures Restorable(j) <==> forall i | 0 <= i < |j.items| :: Restorable(j.items[i])
  {
    hide Precedes;
    if forall i | 0 <= i < |j.items| :: Restorable(j.items[i]) {
      assert forall x | x in j.items :: Restorable(x);
    }
  }

  lemma GetItem(node: Json, i: nat)
    requires node.Arr?
    ensures Get(node, ToDecimal(i)) == if i < |node.items| then node.items[i] else Null
  {
    ValueToDecimal(i);
  }

  lemma ItemsOk(j: Json, leaves: seq<Leaf>)
    requires Listing(j, leaves) && j.Arr? && !IsLeaf(j) && AllFit(Arr([]), leaves)
    requires forall i | 0 <= i < |j.items| :: PutAll(Null, Sub(leaves, ToDecimal(i))).Ok?
    ensures PutAll(Arr([]), leaves).Ok?
  {
    hide ToString, Less, Put, Listing, PutAll;
    PathsNotEmpty(j, leaves);
    forall e | e in leaves ensures PutAll(Get(Arr([]), e.path[0]), Sub(leaves, e.path[0])).Ok? {
      var i := Value(e.path[0]);
      assert e.path[0] == ToDecimal(i);
      GetItem(Arr([]), i);
    }
    PutAllOk(Arr([]), leaves);
  }

  lemma ItemsCounted(j: Json, leaves: seq<Leaf>)
    requires Listing(j, leaves) && j.Arr? && !IsLeaf(j) && AllFit(Arr([]), leaves)
    requires PutAll(Arr([]), leaves).Ok?
    ensures PutAll(Arr([]), leaves).value.Arr?
    ensures |PutAll(Arr([]), leaves).value.items| == |j.items|
  {
    hide ToString, Less, Put, PutAll;
    PathsNotEmpty(j, leaves);
    var last := |j.items| - 1;
    ItemToken(j, last);
    ValueToDecimal(last);
    var t := ToDecimal(last);
    var below, v := SomeLeaf(ChildAt(j, t));
    var e := Leaf([t] + below, v);
    assert e.path[1..] == below;
    assert LeafAt(j, e.path, e.value);
    assert e in leaves;
    PutAllLength(Arr([]), leaves, |j.items|);
  }

  lemma NormalArray(j: Json, r: Json)
    requires j.Arr? && !IsLeaf(j) && r.Arr? && |r.items| == |j.items|
    ensures r == Normal(j) <==> forall i | 0 <= i < |j.items| :: r.items[i] == Normal(j.items[i])
  {
    if forall i | 0 <= i < |j.items| :: r.items[i] == Normal(j.items[i]) {
      assert r.items == Normal(j).items;
    }
  }

  lemma {:induction false} ObjectNormal(j: Json, leaves: seq<Leaf>)
    requires Listing(j, leaves) && j.Obj? && !IsLeaf(j)
    ensures PutAll(Null, leaves) == Ok(Normal(j)) <==> Restorable(j)
    decreases j, 0
  {
    hide ToString, Less, Put, Precedes, Normal, Listing;
    var m := j.members;
    FirstOfObject(j, leaves);
    StartFromNull(leaves);
    PathsNotEmpty(j, leaves);
    if leaves[0].path[0] == INDEX_ZERO {
      ArrayStays(Arr([]), leaves);
      NormalObject(j);
    } else {
      var start := Obj(map[]);
      forall k | k in m
        ensures PutAll(Null, Sub(leaves, k)) == Ok(Normal(m[k])) <==> Restorable(m[k])
      {
        SubListing(j, leaves, k);
        PutAllNormal(m[k], Sub(leaves, k));
      }
      if forall k | k in m :: PutAll(Null, Sub(leaves, k)).Ok? {
        PutAllOk(start, leaves);
      }
      NormalObject(j);
      if PutAll(start, leaves).Ok? {
        var r := PutAll(start, leaves).value;
        MembersCounted(j, leaves);
        forall k | k in m ensures PutAll(Null, Sub(leaves, k)) == Ok(r.members[k]) {
          PutAllAt(start, leaves, k);
        }
        if forall k | k in m :: r.members[k] == Normal(m[k]) {
          assert r.members == Normal(j).members;
        }
      }
    }
  }

  lemma NormalObject(j: Json)
    requires j.Obj? && !IsLeaf(j)
    ensures Normal(j) == Obj(map k | k in j.members :: Normal(j.members[k]))
  {
  }

  lemma MembersCounted(j: Json, leaves: seq<Leaf>)
    requires Listing(j, leaves) && j.Obj? && !IsLeaf(j)
    requires PutAll(Obj(map[]), leaves).Ok?
    ensures PutAll(Obj(map[]), leaves).value.Obj?
    ensures PutAll(Obj(map[]), leaves).value.members.Keys == j.members.Keys
  {
    hide ToString, Less, Put, PutAll;
    PathsNotEmpty(j, leaves);
    var r := PutAll(Obj(map[]), leaves).value;
    PutAllKeys(Obj(map[]), leaves, []);
    forall k ensures k in r.members <==> k in j.members {
      PutAllKeys(Obj(map[]), leaves, k);
      if k in j.members {
        var below, v := SomeLeaf(j.members[k]);
        var e := Leaf([k] + below, v);
        assert e.path[1..] == below;
        assert LeafAt(j, e.path, e.value);
        assert e in leaves;
      }
    }
  }

  /** The entries of a flattened document, in the order in which `unflatten` visits them. */
  function Visited(m: map<Bytes, Json>, keys: seq<Bytes>): seq<Leaf>
    requires forall k | k in keys :: k in m && Split(k).Ok?
  {
    seq(|keys|, i requires 0 <= i < |keys| => assert keys[i] in keys; Leaf(Split(keys[i]).value, m[keys[i]]))
  }

  lemma {:induction false} PutEntriesIsPutAll(node: Json, m: map<Bytes, Json>, keys: seq<Bytes>)
    requires forall k | k in keys :: k in m && Split(k).Ok? && m[k].IsPrimitive()
    ensures PutEntries(node, m, keys) == PutAll(node, Visited(m, keys))
    decreases |keys|
  {
    hide Split, Put;
    if keys != [] {
      assert keys[0] in keys;
      assert Visited(m, keys)[1..] == Visited(m, keys[1..]);
      var next := Put(node, Split(keys[0]).value, m[keys[0]]);
      if next.Ok? {
        PutEntriesIsPutAll(next.value, m, keys[1..]);
      }
    }
  }

  lemma EntryFacts(j: Json, s: Bytes)
    requires s in Entries(j)
    ensures Split(s).Ok? && ToString(Split(s).value) == s
    ensures LeafAt(j, Split(s).value, Entries(j)[s]) && Entries(j)[s].IsPrimitive()
  {
    hide Split, Entries, ToString, LeafAt;
    var path := EntryLeaf(j, s);
    SplitToString(path);
    LeafPrimitive(j, path, Entries(j)[s]);
  }

  lemma VisitedIsListing(j: Json)
    ensures forall s | s in Entries(j) :: Split(s).Ok? && Entries(j)[s].IsPrimitive()
    ensures Listing(j, Visited(Entries(j), SortedKeys(Entries(j).Keys)))
  {
    hide Split, Entries, ToString, Less, LeafAt;
    var m, keys := Entries(j), SortedKeys(Entries(j).Keys);
    forall s | s in m
      ensures Split(s).Ok? && m[s].IsPrimitive()
    {
      EntryFacts(j, s);
    }
    SortedKeysSorted(m.Keys);
    var leaves := Visited(m, keys);
    forall i | 0 <= i < |keys|
      ensures ToString(leaves[i].path) == keys[i] && LeafAt(j, leaves[i].path, leaves[i].value)
    {
      assert keys[i] in keys;
      EntryFacts(j, keys[i]);
    }
    assert SortedLeaves(leaves);
    forall e: Leaf | LeafAt(j, e.path, e.value) ensures e in leaves {
      LeafEntry(j, e.path, e.value);
      var i :| 0 <= i < |keys| && keys[i] == ToString(e.path);
      SplitToString(e.path);
      assert leaves[i] == e;
    }
  }

  lemma {:induction false} LeafPrimitive(j: Json, path: Tokens, v: Json)
    requires LeafAt(j, path, v)
    ensures v.IsPrimitive()
    decreases |path|
  {
    hide HasToken;
    if path != [] {
      LeafPrimitive(ChildAt(j, path[0]), path[1..], v);
    }
  }

  /** `unflatten(flatten(j))` is `j` with empty containers replaced by null, exactly when every
      object with a key "0" has another key whose entries come first. */
  lemma UnflattenFlatten(j: Json)
    ensures Unflattened(Flattened(j)) == Ok(Normal(j)) <==> Restorable(j)
  {
    hide Entries, SortedKeys, Visited, PutAll, PutEntries, Restorable, Normal, Listing, Split;
    VisitedIsListing(j);
    PutEntriesIsPutAll(Null, Entries(j), SortedKeys(Entries(j).Keys));
    PutAllNormal(j, Visited(Entries(j), SortedKeys(Entries(j).Keys)));
  }

  /** An input on which the documented invariant fails: the object {"0": true}. */
  lemma ZeroKeyIsLost()
    ensures var j := Obj(map[INDEX_ZERO := Bool(true)]);
            Normal(j) == j && Unflattened(Flattened(j)) != Ok(j)
  {
    hide Unflattened, Flattened, Precedes;
    var j := Obj(map[INDEX_ZERO := Bool(true)]);
    UnflattenFlatten(j);
    NotBeforeItself(Bool(true));
    assert Normal(j).members == j.members;
  }
}
