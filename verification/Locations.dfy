/** Places inside a document. A C++ reference into a document is modelled by the steps that lead
    to it from the root; reading and writing through the reference are Fetch and Store. */
module Locations {
  import opened ByteStrings
  import opened Json

  datatype Step = Key(key: Bytes) | Index(index: nat)

  type Location = seq<Step>

  predicate Has(j: Json, s: Step) {
    match s
    case Key(k) => j.Obj? && k in j.members
    case Index(i) => j.Arr? && i < |j.items|
  }

  function Child(j: Json, s: Step): (c: Json)
    requires Has(j, s)
    ensures c < j
  {
    match s
    case Key(k) => j.members[k]
    case Index(i) => j.items[i]
  }

  function WithChild(j: Json, s: Step, c: Json): Json
    requires Has(j, s)
  {
    match s
    case Key(k) => Obj(j.members[k := c])
    case Index(i) => Arr(j.items[i := c])
  }

  predicate Valid(j: Json, at: Location) {
    at == [] || (Has(j, at[0]) && Valid(Child(j, at[0]), at[1..]))
  }

  function Fetch(j: Json, at: Location): Json
    requires Valid(j, at)
  {
    if at == [] then j else Fetch(Child(j, at[0]), at[1..])
  }

  function Store(j: Json, at: Location, x: Json): Json
    requires Valid(j, at)
  {
    if at == [] then x else WithChild(j, at[0], Store(Child(j, at[0]), at[1..], x))
  }

  lemma ChildWithChild(j: Json, s: Step, c: Json, d: Json)
    requires Has(j, s)
    ensures Has(WithChild(j, s, c), s) && Child(WithChild(j, s, c), s) == c
    ensures forall s' | s' != s ::
              Has(WithChild(j, s, c), s') == Has(j, s') &&
              (Has(j, s') ==> Child(WithChild(j, s, c), s') == Child(j, s'))
    ensures WithChild(WithChild(j, s, c), s, d) == WithChild(j, s, d)
    ensures WithChild(j, s, Child(j, s)) == j
  {
    match s
    case Key(k) =>
      assert j.members[k := j.members[k]] == j.members;
      assert j.members[k := c][k := d] == j.members[k := d];
    case Index(i) =>
      assert j.items[i := j.items[i]] == j.items;
      assert j.items[i := c][i := d] == j.items[i := d];
  }

  /** Reading what was written; writing twice; writing what is there. */
  lemma {:induction false} FetchStore(j: Json, at: Location, x: Json, y: Json)
    requires Valid(j, at)
    ensures Valid(Store(j, at, x), at)
    ensures Fetch(Store(j, at, x), at) == x
    ensures Store(Store(j, at, x), at, y) == Store(j, at, y)
    ensures Store(j, at, Fetch(j, at)) == j
    decreases |at|
  {
    if at != [] {
      var c := Child(j, at[0]);
      FetchStore(c, at[1..], x, y);
      ChildWithChild(j, at[0], Store(c, at[1..], x), Store(c, at[1..], y));
    }
  }

  /** A location that is one step longer. */
  lemma {:induction false} Extend(j: Json, at: Location, s: Step, x: Json)
    requires Valid(j, at) && Has(Fetch(j, at), s)
    ensures Valid(j, at + [s])
    ensures Fetch(j, at + [s]) == Child(Fetch(j, at), s)
    ensures Store(j, at + [s], x) == Store(j, at, WithChild(Fetch(j, at), s, x))
    decreases |at|
  {
    if at == [] {
      assert at + [s] == [s];
    } else {
      Extend(Child(j, at[0]), at[1..], s, x);
      assert (at + [s])[1..] == at[1..] + [s];
    }
  }

  /** Writing at one place leaves every place that is neither above nor below it alone. */
  lemma {:induction false} StoreFrame(j: Json, at: Location, x: Json, other: Location)
    requires Valid(j, at) && !(at <= other) && !(other <= at)
    ensures Valid(Store(j, at, x), other) == Valid(j, other)
    ensures Valid(j, other) ==> Fetch(Store(j, at, x), other) == Fetch(j, other)
    decreases |at|
  {
    var c := Child(j, at[0]);
    ChildWithChild(j, at[0], Store(c, at[1..], x), Null);
    if at[0] == other[0] {
      assert at == [at[0]] + at[1..] && other == [other[0]] + other[1..];
      StoreFrame(c, at[1..], x, other[1..]);
    }
  }
}
