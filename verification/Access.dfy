/** Resolving a JSON Pointer in a document: `get_checked`, `get_unchecked`, `get_and_create`. */
module Access {
  import opened ByteStrings
  import opened Decimal
  import opened Json
  import opened Locations
  import opened Pointer

  const DASH: Bytes := [0x2D]
  const INDEX_ZERO: Bytes := [0x30]

  /** `static_cast<size_type>` of an `int`. */
  function ToSize(n: int): int {
    if n < 0 then n + TWO_TO_THE_64 else n
  }

  /** `static_cast<size_type>(std::stoi(token))`, with std::invalid_argument translated. */
  function ArrayIndex(token: Bytes): Result<int> {
    match Stoi(token)
    case NotANumber => Err(ParseError(109))
    case TooLarge => Err(StdOutOfRange)
    case Number(n) => Ok(ToSize(n))
  }

  predicate LeadingZero(token: Bytes) {
    |token| > 1 && token[0] == ZERO
  }

  /** One round of the loop of `get_checked`. */
  function ResolveChecked(j: Json, token: Bytes): (r: Result<Step>)
    ensures r.Ok? ==> Has(j, r.value)
  {
    match j
    case Obj(m) => if token in m then Ok(Key(token)) else Err(OutOfRange(403))
    case Arr(a) =>
      if token == DASH then Err(OutOfRange(402))
      else if LeadingZero(token) then Err(ParseError(106))
      else
        var i :- ArrayIndex(token);
        if 0 <= i < |a| then Ok(Index(i)) else Err(OutOfRange(401))
    case _ => Err(OutOfRange(404))
  }

  /** `get_checked`: where `at(ptr)` leads. */
  function LocateChecked(j: Json, ts: Tokens): (r: Result<Location>)
    ensures r.Ok? ==> Valid(j, r.value)
  {
    if ts == [] then Ok([])
    else
      var s :- ResolveChecked(j, ts[0]);
      var rest :- LocateChecked(Child(j, s), ts[1..]);
      assert ([s] + rest)[1..] == rest;
      Ok([s] + rest)
  }

  /** `at(ptr)` */
  function At(j: Json, ts: Tokens): Result<Json> {
    var l :- LocateChecked(j, ts);
    Ok(Fetch(j, l))
  }

  /** The loop of `get_checked`: `ptr` walks down the document. */
  method GetChecked(j: Json, ts: Tokens) returns (r: Result<Location>)
    ensures r == LocateChecked(j, ts)
  {
    hide Valid, Fetch, ResolveChecked, LocateChecked;
    var ptr: Location := [];
    var i := 0;
    assert ts[0..] == ts;
    NoSteps(LocateChecked(j, ts));
    AtRoot(j);
    while i < |ts|
      invariant 0 <= i <= |ts|
      invariant Valid(j, ptr)
      invariant LocateChecked(j, ts) == Under(ptr, LocateChecked(Fetch(j, ptr), ts[i..]))
    {
      var node := Fetch(j, ptr);
      CheckedStep(node, ts, i);
      match ResolveChecked(node, ts[i]) {
        case Err(e) => return Err(e);
        case Ok(s) =>
          Extend(j, ptr, s, Null);
          OneMore(ptr, s, LocateChecked(Child(node, s), ts[i + 1..]));
          ptr := ptr + [s];
          i := i + 1;
      }
    }
    CheckedStep(Fetch(j, ptr), ts, i);
    assert ptr + [] == ptr;
    return Ok(ptr);
  }

  lemma AtRoot(j: Json)
    ensures Valid(j, []) && Fetch(j, []) == j
  {
  }

  lemma CheckedStep(node: Json, ts: Tokens, i: nat)
    requires i <= |ts|
    ensures i == |ts| ==> LocateChecked(node, ts[i..]) == Ok([])
    ensures i < |ts| ==>
              var s := ResolveChecked(node, ts[i]);
              LocateChecked(node, ts[i..]) ==
              if s.Ok? then Under([s.value], LocateChecked(Child(node, s.value), ts[i + 1..])) else Err(s.error)
  {
    hide ResolveChecked;
    if i < |ts| {
      assert ts[i..][0] == ts[i] && ts[i..][1..] == ts[i + 1..];
    }
  }

  function Under(ptr: Location, r: Result<Location>): Result<Location> {
    match r
    case Ok(rest) => Ok(ptr + rest)
    case Err(e) => Err(e)
  }

  lemma NoSteps(r: Result<Location>)
    ensures Under([], r) == r
  {
    match r
    case Ok(l) => assert [] + l == l;
    case Err(_) =>
  }

  lemma OneMore(ptr: Location, s: Step, r: Result<Location>)
    ensures Under(ptr, Under([s], r)) == Under(ptr + [s], r)
  {
    match r
    case Ok(l) => assert ptr + ([s] + l) == (ptr + [s]) + l;
    case Err(_) =>
  }

  // ---- access that creates what is missing ----

  datatype Access = Unchecked | Creating

  /** A value after a step was prepared in it, and the step. */
  datatype Entry = Entry(node: Json, step: Step)

  /** A document and a place in it: a mutable reference. */
  datatype Place = Place(doc: Json, at: Location)

  predicate Numeric(token: Bytes) {
    forall c | c in token :: IsDigit(c)
  }

  function Nulls(n: nat): (a: seq<Json>)
    ensures |a| == n && forall i | 0 <= i < n :: a[i] == Null
  {
    seq(n, i => Null)
  }

  /** `operator[](idx)` on an array, which fills up with nulls. The number of elements to insert,
      `idx - size() + 1`, wraps to nothing for the largest index and an empty array. */
  function GrowTo(a: seq<Json>, idx: int): (r: Result<seq<Json>>)
    requires 0 <= idx
    ensures r.Ok? ==> idx < |r.value| && a <= r.value
    ensures r.Ok? && idx >= |a| ==> |r.value| == idx + 1 && forall i | |a| <= i <= idx :: r.value[i] == Null
    ensures idx < |a| ==> r == Ok(a)
  {
    if idx < |a| then Ok(a)
    else if idx < TWO_TO_THE_63 then Ok(a + Nulls(idx + 1 - |a|))
    else if idx == TWO_TO_THE_64 - 1 && a == [] then Err(UndefinedBehaviour)
    else Err(LengthError)
  }

  function Enter(a: seq<Json>, idx: int): (r: Result<Entry>)
    requires 0 <= idx
    ensures r.Ok? ==> Has(r.value.node, r.value.step)
    ensures idx < |a| ==> r == Ok(Entry(Arr(a), Index(idx)))
  {
    var b :- GrowTo(a, idx);
    Ok(Entry(Arr(b), Index(idx)))
  }

  /** `operator[](key)` on an object, which inserts a null for a missing key. */
  function EnterKey(m: map<Bytes, Json>, key: Bytes): (r: Entry)
    ensures Has(r.node, r.step)
  {
    Entry(Obj(if key in m then m else m[key := Null]), Key(key))
  }

  /** One round of `get_unchecked` or of `get_and_create` at the value `j`: what `j` becomes and
      the step taken from there. */
  function Resolve(access: Access, j: Json, token: Bytes): (r: Result<Entry>)
    ensures r.Ok? ==> Has(r.value.node, r.value.step)
  {
    match access
    case Unchecked =>
      (var k := if !j.Null? then j else if Numeric(token) || token == DASH then Arr([]) else Obj(map[]);
       match k
       case Obj(m) => Ok(EnterKey(m, token))
       case Arr(a) =>
         if LeadingZero(token) then Err(ParseError(106))
         else if token == DASH then Enter(a, |a|)
         else
           var i :- ArrayIndex(token);
           if i < 0 then Err(UndefinedBehaviour) else Enter(a, i)
       case _ => Err(OutOfRange(404)))
    case Creating =>
      match j
      case Null => if token == INDEX_ZERO then Enter([], 0) else Ok(EnterKey(map[], token))
      case Obj(m) => Ok(EnterKey(m, token))
      case Arr(a) =>
        var i :- ArrayIndex(token);
        if i < 0 then Err(UndefinedBehaviour) else Enter(a, i)
      case _ => Err(TypeError(313))
  }

  /** The place in the whole value for a place below the step taken. */
  function Above(e: Entry, below: Place): (p: Place)
    requires Has(e.node, e.step) && Valid(below.doc, below.at)
    ensures Valid(p.doc, p.at)
  {
    ChildWithChild(e.node, e.step, below.doc, Null);
    assert ([e.step] + below.at)[1..] == below.at;
    Place(WithChild(e.node, e.step, below.doc), [e.step] + below.at)
  }

  /** `operator[](ptr)` (Unchecked) and `get_and_create` (Creating): the document afterwards and
      the place reached in it. */
  function Locate(access: Access, j: Json, ts: Tokens): (r: Result<Place>)
    ensures r.Ok? ==> Valid(r.value.doc, r.value.at)
    decreases |ts|
  {
    if ts == [] then Ok(Place(j, []))
    else
      var e :- Resolve(access, j, ts[0]);
      var below :- Locate(access, Child(e.node, e.step), ts[1..]);
      Ok(Above(e, below))
  }

  function Graft(j: Json, ptr: Location, r: Result<Place>): Result<Place>
    requires Valid(j, ptr)
  {
    match r
    case Ok(below) => Ok(Place(Store(j, ptr, below.doc), ptr + below.at))
    case Err(e) => Err(e)
  }

  /** The loop of `get_unchecked` and `get_and_create`: `ptr` walks down a document that grows
      under it. */
  method GetMutable(access: Access, j: Json, ts: Tokens) returns (r: Result<Place>)
    ensures r == Locate(access, j, ts)
  {
    var doc := j;
    var ptr: Location := [];
    var i := 0;
    assert ts[0..] == ts;
    GraftNothing(j, Locate(access, j, ts));
    while i < |ts|
      invariant 0 <= i <= |ts|
      invariant Valid(doc, ptr)
      invariant Locate(access, j, ts) == Graft(doc, ptr, Locate(access, Fetch(doc, ptr), ts[i..]))
    {
      assert ts[i..][0] == ts[i] && ts[i..][1..] == ts[i + 1..];
      match Resolve(access, Fetch(doc, ptr), ts[i]) {
        case Err(e) => return Err(e);
        case Ok(e) =>
          StepDown(doc, ptr, e.node, e.step);
          GraftStep(doc, ptr, e, Locate(access, Child(e.node, e.step), ts[i + 1..]));
          doc := Store(doc, ptr, e.node);
          ptr := ptr + [e.step];
          i := i + 1;
      }
    }
    FetchStore(doc, ptr, Null, Null);
    assert ptr + [] == ptr;
    return Ok(Place(doc, ptr));
  }

  lemma GraftNothing(j: Json, r: Result<Place>)
    ensures Graft(j, [], r) == r
  {
    match r
    case Ok(below) => assert [] + below.at == below.at;
    case Err(_) =>
  }

  lemma StepDown(doc: Json, ptr: Location, k: Json, s: Step)
    requires Valid(doc, ptr) && Has(k, s)
    ensures Valid(Store(doc, ptr, k), ptr + [s])
    ensures Fetch(Store(doc, ptr, k), ptr + [s]) == Child(k, s)
  {
    FetchStore(doc, ptr, k, k);
    Extend(Store(doc, ptr, k), ptr, s, k);
  }

  lemma GraftStep(doc: Json, ptr: Location, e: Entry, r: Result<Place>)
    requires Valid(doc, ptr) && Has(e.node, e.step) && (r.Ok? ==> Valid(r.value.doc, r.value.at))
    requires Valid(Store(doc, ptr, e.node), ptr + [e.step])
    ensures Graft(Store(doc, ptr, e.node), ptr + [e.step], r) ==
            Graft(doc, ptr, if r.Ok? then Ok(Above(e, r.value)) else r)
  {
    if r.Ok? {
      var p := r.value;
      StoreTwice(doc, ptr, e.node, e.step, p.doc);
      assert ptr + ([e.step] + p.at) == ptr + [e.step] + p.at;
      assert Graft(Store(doc, ptr, e.node), ptr + [e.step], r) ==
             Ok(Place(Store(doc, ptr, WithChild(e.node, e.step, p.doc)), ptr + ([e.step] + p.at)));
    }
  }

  lemma StoreTwice(doc: Json, ptr: Location, k: Json, s: Step, c: Json)
    requires Valid(doc, ptr) && Has(k, s)
    ensures Valid(Store(doc, ptr, k), ptr + [s])
    ensures Store(Store(doc, ptr, k), ptr + [s], c) == Store(doc, ptr, WithChild(k, s, c))
  {
    FetchStore(doc, ptr, k, WithChild(k, s, c));
    Extend(Store(doc, ptr, k), ptr, s, c);
  }

  // ---- laws ----

  /** Whenever `at(ptr)` succeeds, `operator[](ptr)` reaches the same place and leaves the
      document as it is. */
  lemma {:induction false} CheckedThenUnchecked(j: Json, ts: Tokens)
    requires LocateChecked(j, ts).Ok?
    ensures Locate(Unchecked, j, ts) == Ok(Place(j, LocateChecked(j, ts).value))
    decreases |ts|
  {
    if ts != [] {
      var s := ResolveChecked(j, ts[0]).value;
      CheckedThenUnchecked(Child(j, s), ts[1..]);
      ChildWithChild(j, s, Null, Null);
    }
  }

  /** One more token. */
  lemma {:induction false} LocateSnoc(j: Json, ts: Tokens, t: Bytes)
    requires LocateChecked(j, ts).Ok?
    ensures LocateChecked(j, ts + [t]) ==
            var at := LocateChecked(j, ts).value;
            var r := ResolveChecked(Fetch(j, at), t);
            if r.Ok? then Ok(at + [r.value]) else Err(r.error)
    decreases |ts|
  {
    if ts == [] {
      assert ts + [t] == [t] && [t][1..] == [];
      var r := ResolveChecked(j, t);
      if r.Ok? {
        assert LocateChecked(Child(j, r.value), []) == Ok([]);
        assert [r.value] + [] == [] + [r.value];
      }
    } else {
      var s := ResolveChecked(j, ts[0]).value;
      LocateSnoc(Child(j, s), ts[1..], t);
      assert (ts + [t])[1..] == ts[1..] + [t];
      var rest := LocateChecked(Child(j, s), ts[1..]).value;
      var r := ResolveChecked(Fetch(Child(j, s), rest), t);
      if r.Ok? {
        assert [s] + (rest + [r.value]) == ([s] + rest) + [r.value];
      }
    }
  }

  /** Writing at the end of a pointer does not change where the pointer leads. */
  lemma {:induction false} LocateStore(j: Json, ts: Tokens, x: Json)
    requires LocateChecked(j, ts).Ok?
    ensures LocateChecked(Store(j, LocateChecked(j, ts).value, x), ts) == LocateChecked(j, ts)
    decreases |ts|
  {
    if ts != [] {
      var s := ResolveChecked(j, ts[0]).value;
      var c := Child(j, s);
      LocateStore(c, ts[1..], x);
      var rest := LocateChecked(c, ts[1..]).value;
      ChildWithChild(j, s, Store(c, rest, x), Null);
      assert ([s] + rest)[1..] == rest;
    }
  }

  /** The first token of a pointer that resolves also resolves alone. */
  lemma LocateTop(j: Json, ts: Tokens)
    requires ts != [] && LocateChecked(j, ts).Ok?
    ensures LocateChecked(j, ts[..1]).Ok?
  {
    assert ts[..1][0] == ts[0] && ts[..1][1..] == [];
  }

  /** An index written by `std::to_string` is resolved to itself while it fits an `int`. */
  lemma ResolveIndex(a: seq<Json>, i: nat)
    requires i <= INT_MAX
    ensures ToDecimal(i) != DASH && !LeadingZero(ToDecimal(i))
    ensures ArrayIndex(ToDecimal(i)) == Ok(i)
    ensures i < |a| ==> ResolveChecked(Arr(a), ToDecimal(i)) == Ok(Index(i))
  {
    StoiToDecimal(i);
    ValueToDecimal(i);
    assert IsDigit(ToDecimal(i)[0]);
  }

  /** A larger index is refused, checked or unchecked. */
  lemma ResolveTooLarge(a: seq<Json>, i: nat)
    requires i > INT_MAX
    ensures ResolveChecked(Arr(a), ToDecimal(i)) == Err(StdOutOfRange)
    ensures Resolve(Unchecked, Arr(a), ToDecimal(i)) == Err(StdOutOfRange)
    ensures ToDecimal(i) != DASH && Stoi(ToDecimal(i)) == TooLarge
  {
    StoiToDecimal(i);
    ValueToDecimal(i);
    assert IsDigit(ToDecimal(i)[0]);
  }

  lemma {:induction false} EscapeDecimal(i: nat)
    ensures Escape(ToDecimal(i)) == ToDecimal(i)
  {
    EscapeIsEncoded(ToDecimal(i));
    EncodedPlain(ToDecimal(i));
  }

  lemma {:induction false} EncodedPlain(s: Bytes)
    requires SLASH !in s && TILDE !in s
    ensures Encoded(s) == s
  {
    if s != [] {
      EncodedPlain(s[1..]);
    }
  }
}
