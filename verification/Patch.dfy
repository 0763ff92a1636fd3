/** JSON Patch (RFC 6902): `patch` and `diff`. */
module Patch {
  import opened Access
  import opened ByteStrings
  import opened Decimal
  import opened Json
  import opened Locations
  import opened Pointer

  const OP: Bytes := [0x6F, 0x70]                                  // op
  const PATH: Bytes := [0x70, 0x61, 0x74, 0x68]                    // path
  const FROM: Bytes := [0x66, 0x72, 0x6F, 0x6D]                    // from
  const VALUE: Bytes := [0x76, 0x61, 0x6C, 0x75, 0x65]             // value
  const ADD: Bytes := [0x61, 0x64, 0x64]                           // add
  const REMOVE: Bytes := [0x72, 0x65, 0x6D, 0x6F, 0x76, 0x65]      // remove
  const REPLACE: Bytes := [0x72, 0x65, 0x70, 0x6C, 0x61, 0x63, 0x65] // replace
  const MOVE: Bytes := [0x6D, 0x6F, 0x76, 0x65]                    // move
  const COPY: Bytes := [0x63, 0x6F, 0x70, 0x79]                    // copy
  const TEST: Bytes := [0x74, 0x65, 0x73, 0x74]                    // test

  // ---- the operations ----

  /** `std::stoi` without the translation of its exceptions. */
  function RawIndex(token: Bytes): Result<int> {
    match Stoi(token)
    case NotANumber => Err(InvalidArgument)
    case TooLarge => Err(StdOutOfRange)
    case Number(n) => Ok(ToSize(n))
  }

  /** What `operation_add` does to the parent. */
  function AddChild(parent: Json, last: Bytes, val: Json): Result<Json> {
    match parent
    case Null => Ok(Obj(map[last := val]))
    case Obj(m) => Ok(Obj(m[last := val]))
    case Arr(a) =>
      if last == DASH then Ok(Arr(a + [val]))
      else
        var i :- RawIndex(last);
        if 0 <= i <= |a| then Ok(Arr(a[..i] + [val] + a[i..])) else Err(OutOfRange(401))
    case _ => Err(AssertionFailure)
  }

  function OperationAdd(doc: Json, ptr: Tokens, val: Json): Result<Json> {
    if ptr == [] then Ok(val)
    else
      var top := LocateChecked(doc, ptr[..1]);
      if |ptr| > 1 && top.Err? then Err(top.error)
      else
        var parent :- Locate(Unchecked, doc, ptr[..|ptr| - 1]);
        var changed :- AddChild(Fetch(parent.doc, parent.at), ptr[|ptr| - 1], val);
        Ok(Store(parent.doc, parent.at, changed))
  }

  /** What `operation_remove` does to the parent; a parent that is no container stays as it is. */
  function RemoveChild(parent: Json, last: Bytes): Result<Json> {
    match parent
    case Obj(m) => if last in m then Ok(Obj(m - {last})) else Err(OutOfRange(403))
    case Arr(a) =>
      var i :- RawIndex(last);
      if 0 <= i < |a| then Ok(Arr(a[..i] + a[i + 1..])) else Err(OutOfRange(401))
    case _ => Ok(parent)
  }

  function OperationRemove(doc: Json, ptr: Tokens): Result<Json> {
    if ptr == [] then Err(OutOfRange(405))
    else
      var at :- LocateChecked(doc, ptr[..|ptr| - 1]);
      var changed :- RemoveChild(Fetch(doc, at), ptr[|ptr| - 1]);
      Ok(Store(doc, at, changed))
  }

  function OperationReplace(doc: Json, ptr: Tokens, val: Json): Result<Json> {
    var at :- LocateChecked(doc, ptr);
    Ok(Store(doc, at, val))
  }

  function OperationMove(doc: Json, from: Tokens, ptr: Tokens): Result<Json> {
    var v :- At(doc, from);
    var rest :- OperationRemove(doc, from);
    OperationAdd(rest, ptr, v)
  }

  /** `result[ptr] = result.at(from_ptr)`, the right-hand side first. */
  function OperationCopy(doc: Json, from: Tokens, ptr: Tokens): Result<Json> {
    var v :- At(doc, from);
    var place :- Locate(Unchecked, doc, ptr);
    Ok(Store(place.doc, place.at, v))
  }

  /** A pointer that leads nowhere fails the test; a malformed array index is still an error. */
  function OperationTest(doc: Json, ptr: Tokens, op: map<Bytes, Json>): Result<Json> {
    var found := At(doc, ptr);
    if found.Err? && !found.error.OutOfRange? then Err(found.error)
    else if found.Err? then Err(OtherError(501))
    else
      var expected :- Member(op, VALUE);
      if JEq(found.value, expected) then Ok(doc) else Err(OtherError(501))
  }

  /** `get_value` */
  function Member(op: map<Bytes, Json>, name: Bytes): Result<Json> {
    if name in op then Ok(op[name]) else Err(ParseError(105))
  }

  function StringMember(op: map<Bytes, Json>, name: Bytes): Result<Bytes> {
    if name in op && op[name].Str? then Ok(op[name].s) else Err(ParseError(105))
  }

  /** One element of the patch document. */
  function PatchStep(doc: Json, val: Json): Result<Json> {
    if !val.Obj? then Err(ParseError(104))
    else
      var op :- StringMember(val.members, OP);
      var path :- StringMember(val.members, PATH);
      var ptr :- Split(path);
      if op == ADD then
        var v :- Member(val.members, VALUE);
        OperationAdd(doc, ptr, v)
      else if op == REMOVE then
        OperationRemove(doc, ptr)
      else if op == REPLACE then
        var v :- Member(val.members, VALUE);
        OperationReplace(doc, ptr, v)
      else if op == MOVE then
        var fromPath :- StringMember(val.members, FROM);
        var from :- Split(fromPath);
        OperationMove(doc, from, ptr)
      else if op == COPY then
        var fromPath :- StringMember(val.members, FROM);
        var from :- Split(fromPath);
        OperationCopy(doc, from, ptr)
      else if op == TEST then
        OperationTest(doc, ptr, val.members)
      else Err(ParseError(105))
  }

  /** The elements of a patch document, one after the other. */
  function PatchAll(doc: Json, ops: seq<Json>): Result<Json>
    decreases |ops|
  {
    if ops == [] then Ok(doc)
    else
      var next :- PatchStep(doc, ops[0]);
      PatchAll(next, ops[1..])
  }

  function Patched(doc: Json, patch: Json): Result<Json> {
    if patch.Arr? then PatchAll(doc, patch.items) else Err(ParseError(104))
  }

  /** `patch`: `result` is the working copy that the loop updates. */
  method ApplyPatch(doc: Json, patch: Json) returns (r: Result<Json>)
    ensures r == Patched(doc, patch)
  {
    if !patch.Arr? {
      return Err(ParseError(104));
    }
    var result := doc;
    var i := 0;
    assert patch.items[0..] == patch.items;
    while i < |patch.items|
      invariant 0 <= i <= |patch.items|
      invariant PatchAll(doc, patch.items) == PatchAll(result, patch.items[i..])
    {
      match PatchStep(result, patch.items[i]) {
        case Err(e) =>
          return Err(e);
        case Ok(next) =>
          assert patch.items[i..][1..] == patch.items[i + 1..];
          result := next;
          i := i + 1;
      }
    }
    return Ok(result);
  }

  lemma {:induction false} PatchAllAppend(doc: Json, a: seq<Json>, b: seq<Json>)
    requires PatchAll(doc, a).Ok?
    ensures PatchAll(doc, a + b) == PatchAll(PatchAll(doc, a).value, b)
    decreases |a|
  {
    if a == [] {
      assert a + b == b;
    } else {
      assert (a + b)[1..] == a[1..] + b;
      PatchAllAppend(PatchStep(doc, a[0]).value, a[1..], b);
    }
  }

  // ---- diff ----

  function ReplaceOp(path: Bytes, val: Json): Json {
    Obj(map[OP := Str(REPLACE), PATH := Str(path), VALUE := val])
  }

  function RemoveOp(path: Bytes): Json {
    Obj(map[OP := Str(REMOVE), PATH := Str(path)])
  }

  function AddOp(path: Bytes, val: Json): Json {
    Obj(map[OP := Str(ADD), PATH := Str(path), VALUE := val])
  }

  function Below(path: Bytes, token: Bytes): Bytes {
    path + [SLASH] + token
  }

  function Min(a: nat, b: nat): nat {
    if a < b then a else b
  }

  /** The operations of `diff`. */
  function Diff(source: Json, target: Json, path: Bytes): seq<Json>
    decreases source, 1, 0
  {
    if JEq(source, target) then []
    else if source.Arr? && target.Arr? then
      DiffItems(source, target.items, path, Min(|source.items|, |target.items|))
      + RemoveItems(path, |target.items|, |source.items|)
      + AddItems(path, target.items, Min(|source.items|, |target.items|), |target.items|)
    else if source.Obj? && target.Obj? then
      DiffMembers(source, target.members, path, SortedKeys(source.members.Keys))
      + AddMembers(source.members, target.members, path, SortedKeys(target.members.Keys))
    else [ReplaceOp(path, target)]
  }

  /** The first `n` elements of both arrays. */
  function DiffItems(source: Json, target: seq<Json>, path: Bytes, n: nat): seq<Json>
    requires source.Arr? && n <= |source.items| && n <= |target|
    decreases source, 0, n
  {
    if n == 0 then []
    else DiffItems(source, target, path, n - 1)
         + Diff(source.items[n - 1], target[n - 1], Below(path, ToDecimal(n - 1)))
  }

  /** Removal of the elements `lo` to `hi - 1`, the last one first. */
  function RemoveItems(path: Bytes, lo: nat, hi: nat): seq<Json> {
    if hi <= lo then []
    else [RemoveOp(Below(path, ToDecimal(hi - 1)))] + RemoveItems(path, lo, hi - 1)
  }

  function AddItems(path: Bytes, target: seq<Json>, lo: nat, hi: nat): seq<Json>
    requires hi <= |target|
  {
    if hi <= lo then []
    else AddItems(path, target, lo, hi - 1) + [AddOp(Below(path, ToDecimal(hi - 1)), target[hi - 1])]
  }

  function DiffMember(source: Json, target: map<Bytes, Json>, path: Bytes, key: Bytes): seq<Json>
    requires source.Obj? && key in source.members
    decreases source, 0, 0
  {
    if key in target then Diff(source.members[key], target[key], Below(path, Escape(key)))
    else [RemoveOp(Below(path, Escape(key)))]
  }

  function DiffMembers(source: Json, target: map<Bytes, Json>, path: Bytes, keys: seq<Bytes>): seq<Json>
    requires source.Obj? && forall k | k in keys :: k in source.members
    decreases source, 0, |keys|
  {
    if keys == [] then []
    else DiffMember(source, target, path, keys[0]) + DiffMembers(source, target, path, keys[1..])
  }

  function AddMembers(source: map<Bytes, Json>, target: map<Bytes, Json>, path: Bytes, keys: seq<Bytes>): seq<Json>
    requires forall k | k in keys :: k in target
  {
    if keys == [] then []
    else (if keys[0] in source then [] else [AddOp(Below(path, Escape(keys[0])), target[keys[0]])])
         + AddMembers(source, target, path, keys[1..])
  }

  /** `diff` */
  method ComputeDiff(source: Json, target: Json, path: Bytes) returns (result: seq<Json>)
    ensures result == Diff(source, target, path)
    decreases source, 1
  {
    hide JEq, DiffItems, DiffMembers, RemoveItems, AddItems, AddMembers, SortedKeys;
    if JEq(source, target) {
      result := [];
    } else if !SameType(source, target) {
      result := [ReplaceOp(path, target)];
    } else if source.Arr? {
      result := DiffArrays(source, target, path);
    } else if source.Obj? {
      result := DiffObjects(source, target, path);
    } else {
      result := [ReplaceOp(path, target)];
    }
  }

  /** The array case of `diff`: the common elements, the rest of the source, the rest of the target.
      Removals are inserted at a fixed position, so that the last element goes first. */
  method DiffArrays(source: Json, target: Json, path: Bytes) returns (result: seq<Json>)
    requires source.Arr? && target.Arr? && !JEq(source, target)
    ensures result == Diff(source, target, path)
    decreases source, 0
  {
    hide JEq, Escape, ToDecimal, RemoveOp, AddOp, Diff;
    result := [];
    var s, t := source.items, target.items;
    var i := 0;
    while i < |s| && i < |t|
      invariant 0 <= i <= |s| && i <= |t|
      invariant result == DiffItems(source, t, path, i)
    {
      var tempDiff := ComputeDiff(s[i], t[i], path + [SLASH] + ToDecimal(i));
      result := result + tempDiff;
      i := i + 1;
    }
    var endIndex := |result|;
    ghost var common := result;
    while i < |s|
      invariant i <= |s| && (i == |s| || |t| <= i)
      invariant |common| == endIndex && result == common + RemoveItems(path, |t|, i)
    {
      var op := RemoveOp(path + [SLASH] + ToDecimal(i));
      assert result[..endIndex] == common && result[endIndex..] == RemoveItems(path, |t|, i);
      result := result[..endIndex] + [op] + result[endIndex..];
      i := i + 1;
    }
    ghost var shortened := result;
    assert shortened + [] == shortened;
    while i < |t|
      invariant |s| <= i && (i <= |t| || i == |s|)
      invariant result == shortened + AddItems(path, t, Min(|s|, |t|), Min(i, |t|))
    {
      result := result + [AddOp(path + [SLASH] + ToDecimal(i), t[i])];
      i := i + 1;
    }
    DiffCases(source, target, path);
  }

  lemma DiffCases(source: Json, target: Json, path: Bytes)
    requires !JEq(source, target)
    ensures source.Arr? && target.Arr? ==>
              var n := Min(|source.items|, |target.items|);
              Diff(source, target, path) ==
              DiffItems(source, target.items, path, n) + RemoveItems(path, |target.items|, |source.items|)
              + AddItems(path, target.items, n, |target.items|)
    ensures source.Obj? && target.Obj? ==>
              Diff(source, target, path) ==
              DiffMembers(source, target.members, path, SortedKeys(source.members.Keys))
              + AddMembers(source.members, target.members, path, SortedKeys(target.members.Keys))
  {
    hide JEq, DiffItems, DiffMembers, RemoveItems, AddItems, AddMembers, SortedKeys;
  }

  /** The object case of `diff`: the members of the source, then those only the target has. */
  method DiffObjects(source: Json, target: Json, path: Bytes) returns (result: seq<Json>)
    requires source.Obj? && target.Obj? && !JEq(source, target)
    ensures result == Diff(source, target, path)
    decreases source, 0
  {
    hide JEq, Escape, SortedKeys, RemoveOp, AddOp, Diff, DiffMembers, AddMembers;
    result := [];
    var s, t := source.members, target.members;
    var keys := SortedKeys(s.Keys);
    var i := 0;
    assert keys[0..] == keys;
    while i < |keys|
      invariant 0 <= i <= |keys|
      invariant result + DiffMembers(source, t, path, keys[i..]) == DiffMembers(source, t, path, keys)
    {
      var key := EscapeInPlace(keys[i]);
      NextMember(source, t, path, keys, i, result);
      if keys[i] in t {
        var tempDiff := ComputeDiff(s[keys[i]], t[keys[i]], path + [SLASH] + key);
        result := result + tempDiff;
      } else {
        result := result + [RemoveOp(path + [SLASH] + key)];
      }
      i := i + 1;
    }
    ghost var first := result;
    var added := SortedKeys(t.Keys);
    i := 0;
    assert added[0..] == added;
    while i < |added|
      invariant 0 <= i <= |added|
      invariant result + AddMembers(s, t, path, added[i..]) == first + AddMembers(s, t, path, added)
    {
      NextAdded(s, t, path, added, i, result);
      if added[i] !in s {
        var key := EscapeInPlace(added[i]);
        result := result + [AddOp(path + [SLASH] + key, t[added[i]])];
      }
      i := i + 1;
    }
    NoMembers(source, t, path);
    assert keys[|keys|..] == [] && first + [] == first;
    assert added[|added|..] == [] && result + [] == result;
    DiffCases(source, target, path);
  }

  lemma NoMembers(source: Json, target: map<Bytes, Json>, path: Bytes)
    requires source.Obj?
    ensures DiffMembers(source, target, path, []) == []
    ensures AddMembers(source.members, target, path, []) == []
  {
  }

  lemma NextMember(source: Json, target: map<Bytes, Json>, path: Bytes, keys: seq<Bytes>, i: nat, result: seq<Json>)
    requires source.Obj? && (forall k | k in keys :: k in source.members) && i < |keys|
    ensures result + DiffMembers(source, target, path, keys[i..]) ==
            (result + DiffMember(source, target, path, keys[i])) + DiffMembers(source, target, path, keys[i + 1..])
  {
    hide DiffMember;
    assert keys[i..][1..] == keys[i + 1..];
  }

  lemma NextAdded(source: map<Bytes, Json>, target: map<Bytes, Json>, path: Bytes, keys: seq<Bytes>, i: nat,
                  result: seq<Json>)
    requires (forall k | k in keys :: k in target) && i < |keys|
    ensures result + AddMembers(source, target, path, keys[i..]) ==
            (if keys[i] in source then result
             else result + [AddOp(Below(path, Escape(keys[i])), target[keys[i]])])
            + AddMembers(source, target, path, keys[i + 1..])
  {
    hide AddOp, Escape, Below;
    assert keys[i..][1..] == keys[i + 1..];
  }
}
