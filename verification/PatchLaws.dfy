/** What the operations of a JSON Patch do, as section 4 of RFC 6902 describes them, and how `patch` reports
    what it cannot apply. */
module PatchLaws {
  import opened Access
  import opened ByteStrings
  import opened Decimal
  import opened DiffProof
  import opened Json
  import opened Locations
  import opened Patch
  import opened Pointer

  // ---- operation objects ----

  /** An operation object with a name and a path; it may have other members. */
  predicate IsOperation(val: Json, name: string, ptr: Tokens) {
    && HasText(val, "op", Ascii(name))
    && val.Obj? && Ascii("path") in val.members
    && val.members[Ascii("path")].Str? && Split(val.members[Ascii("path")].s) == Ok(ptr)
  }

  predicate HasText(val: Json, name: string, s: Bytes) {
    val.Obj? && Ascii(name) in val.members && val.members[Ascii(name)] == Str(s)
  }

  predicate HasValue(val: Json, x: Json) {
    val.Obj? && Ascii("value") in val.members && val.members[Ascii("value")] == x
  }

  predicate ComesFrom(val: Json, from: Tokens) {
    && val.Obj? && Ascii("from") in val.members
    && val.members[Ascii("from")].Str? && Split(val.members[Ascii("from")].s) == Ok(from)
  }

  lemma Names()
    ensures Ascii("op") == OP && Ascii("path") == PATH && Ascii("from") == FROM && Ascii("value") == VALUE
    ensures Ascii("add") == ADD && Ascii("remove") == REMOVE && Ascii("replace") == REPLACE
    ensures Ascii("move") == MOVE && Ascii("copy") == COPY && Ascii("test") == TEST
  {
  }

  /** The name decides what is done with the path. */
  lemma NameDecides(doc: Json, val: Json, ptr: Tokens)
    ensures IsOperation(val, "add", ptr) && VALUE in val.members ==>
              PatchStep(doc, val) == OperationAdd(doc, ptr, val.members[VALUE])
    ensures IsOperation(val, "remove", ptr) ==> PatchStep(doc, val) == OperationRemove(doc, ptr)
    ensures IsOperation(val, "replace", ptr) && VALUE in val.members ==>
              PatchStep(doc, val) == OperationReplace(doc, ptr, val.members[VALUE])
    ensures forall from | IsOperation(val, "move", ptr) && ComesFrom(val, from) ::
              PatchStep(doc, val) == OperationMove(doc, from, ptr)
    ensures forall from | IsOperation(val, "copy", ptr) && ComesFrom(val, from) ::
              PatchStep(doc, val) == OperationCopy(doc, from, ptr)
    ensures IsOperation(val, "test", ptr) ==> PatchStep(doc, val) == OperationTest(doc, ptr, val.members)
  {
    hide Ascii, Split, OperationAdd, OperationRemove, OperationReplace, OperationMove, OperationCopy, OperationTest;
    Names();
    DifferentNames();
  }

  lemma DifferentNames()
    ensures ADD != REMOVE && ADD != REPLACE && ADD != MOVE && ADD != COPY && ADD != TEST
    ensures REMOVE != REPLACE && REMOVE != MOVE && REMOVE != COPY && REMOVE != TEST
    ensures REPLACE != MOVE && REPLACE != COPY && REPLACE != TEST && MOVE != COPY && MOVE != TEST && COPY != TEST
  {
    assert ADD[0] == 0x61 && REMOVE[0] == 0x72 && REPLACE[0] == 0x72 && MOVE[0] == 0x6D && COPY[0] == 0x63;
    assert TEST[0] == 0x74 && |REMOVE| == 6 && |REPLACE| == 7;
  }

  // ---- add ----

  /** `b` is `a` with `x` inserted at index `i`. */
  predicate Inserted(a: seq<Json>, b: seq<Json>, i: nat, x: Json) {
    && i <= |a| && |b| == |a| + 1 && b[i] == x
    && (forall k | 0 <= k < i :: b[k] == a[k])
    && forall k | i <= k < |a| :: b[k + 1] == a[k]
  }

  /** `add` below a pointer that resolves does something to the parent alone. */
  lemma AddBelow(doc: Json, val: Json, ptr: Tokens, at: Location, token: Bytes, x: Json)
    requires IsOperation(val, "add", ptr + [token]) && HasValue(val, x) && LocateChecked(doc, ptr) == Ok(at)
    ensures PatchStep(doc, val) ==
            var r := AddChild(Fetch(doc, at), token, x);
            if r.Ok? then Ok(Store(doc, at, r.value)) else Err(r.error)
  {
    hide LocateChecked, Locate, Fetch, Store, Split, AddChild, Ascii, PatchStep;
    var whole := ptr + [token];
    Names();
    NameDecides(doc, val, whole);
    assert whole[..|ptr|] == ptr;
    if |whole| > 1 {
      LocateTop(doc, ptr);
      assert whole[..1] == ptr[..1];
    }
    CheckedThenUnchecked(doc, ptr);
  }

  /** Into an array, at an index up to its length: the elements from there on move up by one. An index beyond
      is out of range. */
  lemma AddToArray(doc: Json, val: Json, ptr: Tokens, at: Location, a: seq<Json>, i: nat, x: Json)
    returns (b: seq<Json>)
    requires IsOperation(val, "add", ptr + [ToDecimal(i)]) && HasValue(val, x)
    requires LocateChecked(doc, ptr) == Ok(at) && Fetch(doc, at) == Arr(a) && i <= INT_MAX
    ensures i <= |a| ==> Inserted(a, b, i, x) && PatchStep(doc, val) == Ok(Store(doc, at, Arr(b)))
    ensures i > |a| ==> PatchStep(doc, val) == Err(OutOfRange(401))
  {
    hide Inserted, LocateChecked, Fetch, Store, IsOperation, HasValue, PatchStep, Stoi, ToDecimal;
    AddBelow(doc, val, ptr, at, ToDecimal(i), x);
    ResolveIndex(a, i);
    StoiToDecimal(i);
    b := if i <= |a| then a[..i] + [x] + a[i..] else [];
    if i <= |a| {
      InsertedIs(a, i, x);
    }
  }

  lemma InsertedIs(a: seq<Json>, i: nat, x: Json)
    requires i <= |a|
    ensures Inserted(a, a[..i] + [x] + a[i..], i, x)
  {
  }

  lemma RemovedIs(a: seq<Json>, i: nat)
    requires i < |a|
    ensures Inserted(a[..i] + a[i + 1..], a, i, a[i])
  {
  }

  /** Behind the last element. */
  lemma AppendToArray(doc: Json, val: Json, ptr: Tokens, at: Location, a: seq<Json>, x: Json)
    requires IsOperation(val, "add", ptr + [Ascii("-")]) && HasValue(val, x)
    requires LocateChecked(doc, ptr) == Ok(at) && Fetch(doc, at) == Arr(a)
    ensures Inserted(a, a + [x], |a|, x) && PatchStep(doc, val) == Ok(Store(doc, at, Arr(a + [x])))
  {
    hide LocateChecked, Fetch, Store, IsOperation, HasValue, PatchStep;
    assert Ascii("-") == DASH;
    AddBelow(doc, val, ptr, at, DASH, x);
  }

  /** Into an object: a new member, or a new value for an existing one; null becomes an object. */
  lemma AddToObject(doc: Json, val: Json, ptr: Tokens, at: Location, key: Bytes, x: Json)
    requires IsOperation(val, "add", ptr + [key]) && HasValue(val, x) && LocateChecked(doc, ptr) == Ok(at)
    ensures Fetch(doc, at).Obj? ==>
              PatchStep(doc, val) == Ok(Store(doc, at, Obj(Fetch(doc, at).members[key := x])))
    ensures Fetch(doc, at).Null? ==> PatchStep(doc, val) == Ok(Store(doc, at, Obj(map[key := x])))
    ensures Fetch(doc, at).IsPrimitive() && !Fetch(doc, at).Null? ==> PatchStep(doc, val) == Err(AssertionFailure)
  {
    hide LocateChecked, Fetch, Store, IsOperation, HasValue, PatchStep;
    AddBelow(doc, val, ptr, at, key, x);
  }

  /** The whole document is replaced. */
  lemma AddAtRoot(doc: Json, val: Json, x: Json)
    requires IsOperation(val, "add", []) && HasValue(val, x)
    ensures PatchStep(doc, val) == Ok(x)
  {
    hide IsOperation, PatchStep, Ascii;
    Names();
    NameDecides(doc, val, []);
  }

  /** The first token must lead somewhere, unless it is the only one; what is missing between it and the last
      token is created. */
  lemma AddCreates(doc: Json, val: Json, ptr: Tokens, token: Bytes, x: Json)
    requires IsOperation(val, "add", ptr + [token]) && HasValue(val, x) && ptr != []
    ensures LocateChecked(doc, ptr[..1]).Err? ==> PatchStep(doc, val) == Err(LocateChecked(doc, ptr[..1]).error)
    ensures LocateChecked(doc, ptr[..1]).Ok? ==>
              var place := Locate(Unchecked, doc, ptr);
              && (place.Err? ==> PatchStep(doc, val) == Err(place.error))
              && (place.Ok? && Fetch(place.value.doc, place.value.at).Null? ==>
                    PatchStep(doc, val) == Ok(Store(place.value.doc, place.value.at, Obj(map[token := x]))))
  {
    hide LocateChecked, Locate, Fetch, Store, IsOperation, PatchStep, Ascii;
    var whole := ptr + [token];
    Names();
    NameDecides(doc, val, whole);
    assert whole[..1] == ptr[..1] && whole[..|whole| - 1] == ptr;
  }

  // ---- remove ----

  lemma RemoveBelow(doc: Json, val: Json, ptr: Tokens, at: Location, token: Bytes)
    requires IsOperation(val, "remove", ptr + [token]) && LocateChecked(doc, ptr) == Ok(at)
    ensures PatchStep(doc, val) ==
            var r := RemoveChild(Fetch(doc, at), token);
            if r.Ok? then Ok(Store(doc, at, r.value)) else Err(r.error)
  {
    hide LocateChecked, Fetch, Store, Split, RemoveChild, IsOperation, PatchStep;
    NameDecides(doc, val, ptr + [token]);
    assert (ptr + [token])[..|ptr|] == ptr;
  }

  /** From an array: what is left gives back the array if the element is inserted again. */
  lemma RemoveFromArray(doc: Json, val: Json, ptr: Tokens, at: Location, a: seq<Json>, i: nat) returns (b: seq<Json>)
    requires IsOperation(val, "remove", ptr + [ToDecimal(i)])
    requires LocateChecked(doc, ptr) == Ok(at) && Fetch(doc, at) == Arr(a) && i <= INT_MAX
    ensures i < |a| ==> Inserted(b, a, i, a[i]) && PatchStep(doc, val) == Ok(Store(doc, at, Arr(b)))
    ensures i >= |a| ==> PatchStep(doc, val) == Err(OutOfRange(401))
  {
    hide Inserted, LocateChecked, Fetch, Store, IsOperation, PatchStep, Stoi, ToDecimal;
    RemoveBelow(doc, val, ptr, at, ToDecimal(i));
    StoiToDecimal(i);
    b := if i < |a| then a[..i] + a[i + 1..] else [];
    if i < |a| {
      RemovedIs(a, i);
    }
  }

  /** From an object: the other members stay. A parent that is no container is left as it is. */
  lemma RemoveFromObject(doc: Json, val: Json, ptr: Tokens, at: Location, key: Bytes)
    requires IsOperation(val, "remove", ptr + [key]) && LocateChecked(doc, ptr) == Ok(at)
    ensures Fetch(doc, at).Obj? ==>
              var m := Fetch(doc, at).members;
              PatchStep(doc, val) ==
              if key in m then Ok(Store(doc, at, Obj(map k | k in m && k != key :: m[k]))) else Err(OutOfRange(403))
    ensures Fetch(doc, at).IsPrimitive() ==> PatchStep(doc, val) == Ok(Store(doc, at, Fetch(doc, at)))
  {
    hide LocateChecked, Fetch, Store, IsOperation, PatchStep;
    RemoveBelow(doc, val, ptr, at, key);
    if Fetch(doc, at).Obj? {
      var m := Fetch(doc, at).members;
      assert m - {key} == map k | k in m && k != key :: m[k];
    }
  }

  /** The root cannot be removed, and nothing below a pointer that leads nowhere. */
  lemma RemoveNowhere(doc: Json, val: Json, ptr: Tokens)
    requires IsOperation(val, "remove", ptr)
    ensures ptr == [] ==> PatchStep(doc, val) == Err(OutOfRange(405))
    ensures ptr != [] && LocateChecked(doc, ptr[..|ptr| - 1]).Err? ==>
              PatchStep(doc, val) == Err(LocateChecked(doc, ptr[..|ptr| - 1]).error)
  {
    hide LocateChecked, Fetch, Store, IsOperation, PatchStep;
    NameDecides(doc, val, ptr);
  }

  /** A token that is no index of an array: `std::stoi` rejects it, or its number is negative. */
  lemma NoIndex(doc: Json, val: Json, ptr: Tokens, at: Location, token: Bytes)
    requires IsOperation(val, "remove", ptr + [token]) || IsOperation(val, "add", ptr + [token])
    requires IsOperation(val, "add", ptr + [token]) ==>
               token != Ascii("-") && HasString(val, "op") && Ascii("value") in val.members
    requires LocateChecked(doc, ptr) == Ok(at) && Fetch(doc, at).Arr? && |Fetch(doc, at).items| < TWO_TO_THE_63
    ensures Stoi(token).NotANumber? ==> PatchStep(doc, val) == Err(InvalidArgument)
    ensures Stoi(token).TooLarge? ==> PatchStep(doc, val) == Err(StdOutOfRange)
    ensures Stoi(token).Number? && -INT_MAX - 1 <= Stoi(token).value < 0 ==> PatchStep(doc, val) == Err(OutOfRange(401))
  {
    hide LocateChecked, Fetch, Store, IsOperation, PatchStep, Stoi;
    assert Ascii("-") == DASH;
    if IsOperation(val, "add", ptr + [token]) {
      AddBelow(doc, val, ptr, at, token, val.members[Ascii("value")]);
    } else {
      RemoveBelow(doc, val, ptr, at, token);
    }
  }

  // ---- replace, move, copy, test ----

  /** The value must be there; nothing else changes. */
  lemma Replaces(doc: Json, val: Json, ptr: Tokens, x: Json)
    requires IsOperation(val, "replace", ptr) && HasValue(val, x)
    ensures PatchStep(doc, val) ==
            var at := LocateChecked(doc, ptr);
            if at.Ok? then Ok(Store(doc, at.value, x)) else Err(at.error)
  {
    hide LocateChecked, Store, IsOperation, PatchStep, Ascii;
    Names();
    NameDecides(doc, val, ptr);
  }

  /** A move is a `remove` of a value that must be there, followed by an `add` of it. */
  lemma Moves(doc: Json, val: Json, ptr: Tokens, from: Tokens, removal: Json, addition: Json)
    requires IsOperation(val, "move", ptr) && ComesFrom(val, from)
    requires IsOperation(removal, "remove", from) && IsOperation(addition, "add", ptr)
    ensures At(doc, from).Err? ==> PatchStep(doc, val) == Err(At(doc, from).error)
    ensures At(doc, from).Ok? && HasValue(addition, At(doc, from).value) ==>
              PatchStep(doc, val) == PatchAll(doc, [removal, addition])
  {
    hide LocateChecked, Locate, At, Fetch, Store, IsOperation, PatchStep, ComesFrom, Ascii, OperationRemove,
         OperationAdd, PatchAll;
    Names();
    NameDecides(doc, val, ptr);
    NameDecides(doc, removal, from);
    var rest := OperationRemove(doc, from);
    if rest.Ok? {
      NameDecides(rest.value, addition, ptr);
    }
    PatchTwo(doc, removal, addition);
  }

  lemma PatchTwo(doc: Json, first: Json, second: Json)
    ensures PatchAll(doc, [first, second]) ==
            var r := PatchStep(doc, first);
            if r.Ok? then PatchStep(r.value, second) else Err(r.error)
  {
    hide PatchStep;
    var r := PatchStep(doc, first);
    assert [first, second][1..] == [second];
    if r.Ok? {
      PatchOne(r.value, second);
    }
  }

  /** A copy writes a value that must be there where `operator[]` leads. */
  lemma Copies(doc: Json, val: Json, ptr: Tokens, from: Tokens)
    requires IsOperation(val, "copy", ptr) && ComesFrom(val, from)
    ensures At(doc, from).Err? ==> PatchStep(doc, val) == Err(At(doc, from).error)
    ensures var v, place := At(doc, from), Locate(Unchecked, doc, ptr);
            v.Ok? ==> PatchStep(doc, val) ==
                      if place.Ok? then Ok(Store(place.value.doc, place.value.at, v.value)) else Err(place.error)
    ensures At(doc, from).Ok? && LocateChecked(doc, ptr).Ok? ==>
              PatchStep(doc, val) == Ok(Store(doc, LocateChecked(doc, ptr).value, At(doc, from).value))
  {
    hide LocateChecked, Locate, At, Fetch, Store, IsOperation, PatchStep, ComesFrom;
    NameDecides(doc, val, ptr);
    if LocateChecked(doc, ptr).Ok? {
      CheckedThenUnchecked(doc, ptr);
    }
  }

  /** A test leaves the document as it is or fails: it succeeds exactly if the pointer leads to a value that
      equals the given one. */
  lemma Tests(doc: Json, val: Json, ptr: Tokens, x: Json)
    requires IsOperation(val, "test", ptr) && HasValue(val, x)
    ensures PatchStep(doc, val).Ok? <==> At(doc, ptr).Ok? && JEq(At(doc, ptr).value, x)
    ensures PatchStep(doc, val).Ok? ==> PatchStep(doc, val).value == doc
    ensures At(doc, ptr).Ok? && !JEq(At(doc, ptr).value, x) ==> PatchStep(doc, val) == Err(OtherError(501))
    ensures At(doc, ptr).Err? ==>
              PatchStep(doc, val) == Err(if At(doc, ptr).error.OutOfRange? then OtherError(501) else At(doc, ptr).error)
  {
    hide At, JEq, IsOperation, PatchStep, Ascii;
    Names();
    NameDecides(doc, val, ptr);
  }

  // ---- what is no operation ----

  predicate HasString(val: Json, name: string) {
    val.Obj? && Ascii(name) in val.members && val.members[Ascii(name)].Str?
  }

  predicate UnknownName(op: Bytes) {
    op !in [Ascii("add"), Ascii("remove"), Ascii("replace"), Ascii("move"), Ascii("copy"), Ascii("test")]
  }

  /** The errors of a malformed operation: an element that is no object; a missing name, path, value or origin; a
      path that is no pointer; an unknown name. */
  lemma Malformed(doc: Json, val: Json)
    ensures !val.Obj? ==> PatchStep(doc, val) == Err(ParseError(104))
    ensures val.Obj? && (!HasString(val, "op") || !HasString(val, "path")) ==>
              PatchStep(doc, val) == Err(ParseError(105))
    ensures HasString(val, "op") && HasString(val, "path") ==>
              var op, path := val.members[Ascii("op")].s, Split(val.members[Ascii("path")].s);
              && (path.Err? ==> PatchStep(doc, val) == Err(path.error))
              && (path.Ok? && UnknownName(op) ==> PatchStep(doc, val) == Err(ParseError(105)))
              && (path.Ok? && (op == Ascii("add") || op == Ascii("replace")) && Ascii("value") !in val.members ==>
                    PatchStep(doc, val) == Err(ParseError(105)))
              && (path.Ok? && (op == Ascii("move") || op == Ascii("copy")) && !HasString(val, "from") ==>
                    PatchStep(doc, val) == Err(ParseError(105)))
  {
    hide Ascii, Split, OperationAdd, OperationRemove, OperationReplace, OperationMove, OperationCopy, OperationTest;
    Names();
    DifferentNames();
  }

  /** A patch that is no array is refused. */
  lemma NoArray(doc: Json, patch: Json)
    requires !patch.Arr?
    ensures Patched(doc, patch) == Err(ParseError(104))
  {
  }
}
