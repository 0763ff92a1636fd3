/** Case by case: where a pointer leads, what is created on the way, and how each way to resolve it fails. */
module AccessCases {
  import opened Access
  import opened ByteStrings
  import opened Decimal
  import opened Json
  import opened Locations
  import opened Pointer

  // ---- numbers in tokens ----

  predicate Blanks(s: Bytes) {
    forall c | c in s :: c in Ascii(" \t\n\U{0B}\U{0C}\r")
  }

  lemma SpaceClass(c: byte)
    ensures IsSpace(c) <==> c in Ascii(" \t\n\U{0B}\U{0C}\r")
  {
    assert Ascii(" \t\n\U{0B}\U{0C}\r") == [0x20, 0x09, 0x0A, 0x0B, 0x0C, 0x0D];
  }

  lemma {:induction false} BlanksSkipped(blanks: Bytes, rest: Bytes)
    requires Blanks(blanks) && (rest == [] || !IsSpace(rest[0]))
    ensures SkipSpace(blanks + rest) == rest
    decreases |blanks|
  {
    if blanks == [] {
      assert blanks + rest == rest;
    } else {
      SpaceClass(blanks[0]);
      assert (blanks + rest)[1..] == blanks[1..] + rest;
      BlanksSkipped(blanks[1..], rest);
    }
  }

  /** `std::stoi` reads white space, an optional sign and at least one digit, and ignores what follows the
      digits; the number must fit an `int`. */
  lemma StoiReads(blanks: Bytes, sign: Bytes, digits: Bytes, rest: Bytes)
    requires Blanks(blanks) && sign in [[], Ascii("+"), Ascii("-")]
    requires digits != [] && AllDigits(digits) && (rest == [] || !IsDigit(rest[0]))
    ensures var n := if sign == Ascii("-") then -1 * Value(digits) else Value(digits);
            Stoi(blanks + (sign + (digits + rest))) ==
            if -0x8000_0000 <= n <= 0x7FFF_FFFF then Number(n) else TooLarge
  {
    hide Value, SkipSpace;
    Signs();
    var t := sign + (digits + rest);
    assert t[0] == if sign == [] then digits[0] else sign[0];
    BlanksSkipped(blanks, t);
    assert sign != [] ==> t[1..] == digits + rest;
    assert sign == [] ==> t == digits + rest;
    assert (digits + rest)[..|digits|] == digits;
    DigitCountAll(digits + rest, |digits|);
  }

  lemma Signs()
    ensures Ascii("+") == [PLUS] && Ascii("-") == [MINUS] == DASH && Ascii("0") == INDEX_ZERO == [ZERO]
  {
  }

  /** Without a digit there it finds no number. */
  lemma StoiRejects(blanks: Bytes, sign: Bytes, rest: Bytes)
    requires Blanks(blanks) && sign in [[], Ascii("+"), Ascii("-")]
    requires rest == [] || !IsDigit(rest[0])
    requires rest == [] || (sign == [] ==> !IsSpace(rest[0]) && rest[0] != PLUS && rest[0] != MINUS)
    ensures Stoi(blanks + (sign + rest)) == NotANumber
  {
    hide Value, SkipSpace;
    Signs();
    var t := sign + rest;
    assert sign != [] ==> t[0] == sign[0] && t[1..] == rest;
    assert sign == [] ==> t == rest;
    BlanksSkipped(blanks, t);
  }

  // ---- at ----

  /** A token that cannot be resolved ends the walk with its error, whatever follows. */
  lemma {:induction false} CheckedStops(j: Json, ts: Tokens, t: Bytes, more: Tokens)
    requires LocateChecked(j, ts).Ok?
    requires ResolveChecked(Fetch(j, LocateChecked(j, ts).value), t).Err?
    ensures LocateChecked(j, ts + [t] + more) ==
            Err(ResolveChecked(Fetch(j, LocateChecked(j, ts).value), t).error)
    decreases |ts|
  {
    hide ResolveChecked;
    var whole := ts + [t] + more;
    if ts == [] {
      assert whole[0] == t;
    } else {
      var s := ResolveChecked(j, ts[0]).value;
      assert whole[0] == ts[0] && whole[1..] == ts[1..] + [t] + more;
      CheckedStops(Child(j, s), ts[1..], t, more);
    }
  }

  /** `at` goes on through existing members and elements. */
  lemma AtGoesOn(j: Json, ts: Tokens, t: Bytes, node: Json)
    requires At(j, ts) == Ok(node)
    ensures node.Obj? && t in node.members ==> At(j, ts + [t]) == Ok(node.members[t])
    ensures forall i | 0 <= i < 0x8000_0000 && node.Arr? && i < |node.items| && t == ToDecimal(i) ::
              At(j, ts + [t]) == Ok(node.items[i])
  {
    hide LocateChecked, Fetch, ToDecimal, Stoi;
    LocateSnoc(j, ts, t);
    var at := LocateChecked(j, ts).value;
    if r: Step :| Has(node, r) && ResolveChecked(node, t) == Ok(r) {
      Extend(j, at, r, Null);
    }
    forall i | 0 <= i < 0x8000_0000 && node.Arr? && i < |node.items| && t == ToDecimal(i)
      ensures At(j, ts + [t]) == Ok(node.items[i])
    {
      ResolveIndex(node.items, i);
      Extend(j, at, Index(i), Null);
    }
  }

  /** The errors of `at`: a missing key, the index behind the last element, a leading zero, a token that is no
      number or does not fit an `int`, an index out of range, and a step into a value that has no children. */
  lemma AtFails(j: Json, ts: Tokens, t: Bytes, more: Tokens, node: Json)
    requires At(j, ts) == Ok(node)
    ensures node.Obj? && t !in node.members ==> At(j, ts + [t] + more) == Err(OutOfRange(403))
    ensures node.Arr? && t == Ascii("-") ==> At(j, ts + [t] + more) == Err(OutOfRange(402))
    ensures node.Arr? && |t| > 1 && [t[0]] == Ascii("0") ==> At(j, ts + [t] + more) == Err(ParseError(106))
    ensures node.Arr? && PlainToken(t) && Stoi(t).NotANumber? ==> At(j, ts + [t] + more) == Err(ParseError(109))
    ensures node.Arr? && PlainToken(t) && Stoi(t).TooLarge? ==> At(j, ts + [t] + more) == Err(StdOutOfRange)
    ensures node.Arr? && |node.items| < TWO_TO_THE_63 && PlainToken(t) && Stoi(t).Number?
            && -0x8000_0000 <= Stoi(t).value && !(0 <= Stoi(t).value < |node.items|) ==>
              At(j, ts + [t] + more) == Err(OutOfRange(401))
    ensures node.IsPrimitive() ==> At(j, ts + [t] + more) == Err(OutOfRange(404))
  {
    hide LocateChecked, Fetch, Stoi;
    Signs();
    if ResolveChecked(node, t).Err? {
      CheckedStops(j, ts, t, more);
    }
  }

  /** Neither the token behind the last element nor a number with a leading zero. */
  predicate PlainToken(t: Bytes) {
    t != Ascii("-") && !(|t| > 1 && [t[0]] == Ascii("0"))
  }

  // ---- operator[] and get_and_create ----

  /** Resolving one list of tokens and then another from where the first leads. */
  lemma {:induction false} LocateAppend(access: Access, j: Json, ts: Tokens, us: Tokens)
    requires Locate(access, j, ts).Ok?
    ensures var p := Locate(access, j, ts).value;
            Locate(access, j, ts + us) == Graft(p.doc, p.at, Locate(access, Fetch(p.doc, p.at), us))
    decreases |ts|
  {
    hide Resolve;
    if ts == [] {
      assert ts + us == us;
      GraftNothing(j, Locate(access, j, us));
    } else {
      var whole := ts + us;
      var e := Resolve(access, j, ts[0]).value;
      var c := Child(e.node, e.step);
      assert whole[0] == ts[0] && whole[1..] == ts[1..] + us;
      LocateAppend(access, c, ts[1..], us);
      AboveGraft(e, Locate(access, c, ts[1..]).value, Locate(access, c, whole[1..]), us, access);
    }
  }

  lemma AboveGraft(e: Entry, below: Place, r: Result<Place>, us: Tokens, access: Access)
    requires Has(e.node, e.step) && Valid(below.doc, below.at)
    requires r == Graft(below.doc, below.at, Locate(access, Fetch(below.doc, below.at), us))
    requires r.Ok? ==> Valid(r.value.doc, r.value.at)
    ensures var p := Above(e, below);
            (if r.Ok? then Ok(Above(e, r.value)) else r) ==
            Graft(p.doc, p.at, Locate(access, Fetch(p.doc, p.at), us))
  {
    hide Locate;
    var p := Above(e, below);
    ChildWithChild(e.node, e.step, below.doc, Null);
    assert p.at[0] == e.step && p.at[1..] == below.at;
    var more := Locate(access, Fetch(below.doc, below.at), us);
    if more.Ok? {
      var deeper := Store(below.doc, below.at, more.value.doc);
      ChildWithChild(e.node, e.step, below.doc, deeper);
      assert [e.step] + (below.at + more.value.at) == p.at + more.value.at;
    }
  }

  /** `b` is `a`, filled up with nulls to have an element `i`. */
  predicate FilledUp(a: seq<Json>, b: seq<Json>, i: nat) {
    && |b| == (if i < |a| then |a| else i + 1)
    && (forall k | 0 <= k < |a| :: b[k] == a[k])
    && forall k | |a| <= k < |b| :: b[k] == Null
  }

  /** One step into an object: a missing key is added with a null. */
  lemma StepIntoObject(access: Access, m: map<Bytes, Json>, t: Bytes)
    ensures Locate(access, Obj(m), [t]) == Ok(Place(Obj(if t in m then m else m[t := Null]), [Key(t)]))
  {
    OneStep(access, Obj(m), t);
  }

  lemma OneStep(access: Access, j: Json, t: Bytes)
    ensures Locate(access, j, [t]) ==
            var e := Resolve(access, j, t);
            if e.Ok? then Ok(Place(e.value.node, [e.value.step])) else Err(e.error)
  {
    hide Resolve;
    var e := Resolve(access, j, t);
    if e.Ok? {
      ChildWithChild(e.value.node, e.value.step, Null, Null);
      assert Locate(access, Child(e.value.node, e.value.step), [t][1..]) ==
             Ok(Place(Child(e.value.node, e.value.step), []));
      assert [e.value.step] + [] == [e.value.step];
    }
  }

  /** One step into an array, at a written index: it is filled up with nulls. */
  lemma StepIntoArray(access: Access, a: seq<Json>, i: nat) returns (b: seq<Json>)
    requires i <= INT_MAX
    ensures FilledUp(a, b, i) && Locate(access, Arr(a), [ToDecimal(i)]) == Ok(Place(Arr(b), [Index(i)]))
  {
    hide Stoi, ToDecimal;
    OneStep(access, Arr(a), ToDecimal(i));
    ResolveIndex(a, i);
    b := GrowTo(a, i).value;
  }

  /** `operator[]` with the token behind the last element appends a null; `get_and_create` does not know it. */
  lemma StepBehindLast(a: seq<Json>)
    requires |a| < TWO_TO_THE_63
    ensures Locate(Unchecked, Arr(a), [Ascii("-")]) == Ok(Place(Arr(a + [Null]), [Index(|a|)]))
    ensures Locate(Creating, Arr(a), [Ascii("-")]) == Err(ParseError(109))
  {
    Signs();
    OneStep(Unchecked, Arr(a), DASH);
    OneStep(Creating, Arr(a), DASH);
    StoiRejects([], Ascii("-"), []);
    assert [] + (Ascii("-") + []) == DASH;
    assert Nulls(1) == [Null];
  }

  /** The errors at an array. */
  lemma StepFails(access: Access, a: seq<Json>, t: Bytes)
    requires |a| < TWO_TO_THE_63
    ensures access.Unchecked? && |t| > 1 && [t[0]] == Ascii("0") ==> Locate(access, Arr(a), [t]) == Err(ParseError(106))
    ensures PlainToken(t) && Stoi(t).NotANumber? ==> Locate(access, Arr(a), [t]) == Err(ParseError(109))
    ensures PlainToken(t) && Stoi(t).TooLarge? ==> Locate(access, Arr(a), [t]) == Err(StdOutOfRange)
  {
    hide Stoi;
    Signs();
    OneStep(access, Arr(a), t);
  }

  /** A negative number is converted to a size first. The array cannot be filled up so far, except that for -1 and
      an empty array the number of nulls to add wraps to zero, and the element is not there. */
  lemma StepToNegative(access: Access, a: seq<Json>, t: Bytes)
    requires |a| < TWO_TO_THE_63 && PlainToken(t) && Stoi(t).Number? && -0x8000_0000 <= Stoi(t).value < 0
    ensures Locate(access, Arr(a), [t]) ==
            Err(if Stoi(t).value == -1 && a == [] then UndefinedBehaviour else LengthError)
  {
    hide Stoi;
    Signs();
    OneStep(access, Arr(a), t);
  }

  /** A null becomes an array for `operator[]` if the token has only digits or is the one behind the last
      element; for `get_and_create` only if it is `0`. Otherwise it becomes an object. */
  lemma StepIntoNull(t: Bytes)
    ensures Locate(Unchecked, Null, [t]) ==
            Locate(Unchecked, if AllDigits(t) || t == Ascii("-") then Arr([]) else Obj(map[]), [t])
    ensures Locate(Creating, Null, [t]) ==
            if t == Ascii("0") then Ok(Place(Arr([Null]), [Index(0)])) else Ok(Place(Obj(map[t := Null]), [Key(t)]))
  {
    hide Stoi;
    Signs();
    OneStep(Unchecked, Null, t);
    OneStep(Unchecked, Arr([]), t);
    OneStep(Unchecked, Obj(map[]), t);
    OneStep(Creating, Null, t);
    assert Nulls(1) == [Null] && [] + [Null] == [Null];
    assert Numeric(t) <==> AllDigits(t);
  }

  /** There is no step into another primitive value. */
  lemma StepIntoPrimitive(j: Json, t: Bytes)
    requires j.IsPrimitive() && !j.Null?
    ensures Locate(Unchecked, j, [t]) == Err(OutOfRange(404)) && Locate(Creating, j, [t]) == Err(TypeError(313))
  {
    OneStep(Unchecked, j, t);
    OneStep(Creating, j, t);
  }

  // ---- the text of a pointer ----

  /** Escaping byte by byte. */
  lemma EscapeByByte(c: byte, s: Bytes)
    ensures Escape([]) == []
    ensures Escape([c] + s) ==
            (if [c] == Ascii("~") then Ascii("~0") else if [c] == Ascii("/") then Ascii("~1") else [c]) + Escape(s)
  {
    hide ReplaceAll;
    assert Ascii("~") == [TILDE] && Ascii("~0") == [TILDE, ZERO];
    assert Ascii("/") == [SLASH] && Ascii("~1") == [TILDE, ONE];
    EscapeIsEncoded([]);
    EscapeIsEncoded(s);
    EscapeIsEncoded([c] + s);
    assert ([c] + s)[1..] == s;
  }

  /** Every token is written behind a slash. */
  lemma PointerText(t: Bytes, ts: Tokens)
    ensures ToString([]) == [] && ToString([t] + ts) == Ascii("/") + Escape(t) + ToString(ts)
  {
    hide Escape;
    assert Ascii("/") == [SLASH];
    ToStringFromFront([t] + ts);
    assert ([t] + ts)[1..] == ts;
  }

  /** The tilde at `i` begins an escape. */
  predicate EscapeAt(s: Bytes, i: nat)
    requires i < |s|
  {
    i + 1 < |s| && ([s[i + 1]] == Ascii("0") || [s[i + 1]] == Ascii("1"))
  }

  predicate TildesEscape(s: Bytes) {
    forall i | 0 <= i < |s| && [s[i]] == Ascii("~") :: EscapeAt(s, i)
  }

  lemma PointerBytes()
    ensures Ascii("~") == [TILDE] && Ascii("/") == [SLASH] && Ascii("0") == [ZERO] && Ascii("1") == [ONE]
    ensures TILDE != SLASH && ZERO != TILDE && ONE != TILDE && ZERO != SLASH && ONE != SLASH
  {
  }

  /** In front of a text a part counts for itself if all its tildes escape. */
  lemma TildesInFront(p: Bytes, s: Bytes)
    requires TildesEscape(p)
    ensures TildesEscape(p + s) <==> TildesEscape(s)
  {
    hide Ascii;
    var whole := p + s;
    if TildesEscape(s) {
      forall i | 0 <= i < |whole| && [whole[i]] == Ascii("~") ensures EscapeAt(whole, i) {
        if i < |p| {
          assert [p[i]] == Ascii("~");
          assert EscapeAt(p, i);
        } else {
          assert [s[i - |p|]] == Ascii("~");
          assert EscapeAt(s, i - |p|);
        }
      }
    }
    if TildesEscape(whole) {
      forall i | 0 <= i < |s| && [s[i]] == Ascii("~") ensures EscapeAt(s, i) {
        assert [whole[|p| + i]] == Ascii("~");
        assert EscapeAt(whole, |p| + i);
      }
    }
  }

  /** A tilde that does not escape before a slash does not escape at all. */
  lemma TildesBeforeSlash(p: Bytes, s: Bytes)
    requires !TildesEscape(p) && (s == [] || s[0] == SLASH)
    ensures !TildesEscape(p + s)
  {
    PointerBytes();
    hide Ascii;
    var i :| 0 <= i < |p| && [p[i]] == Ascii("~") && !EscapeAt(p, i);
    assert [(p + s)[i]] == Ascii("~");
    assert !EscapeAt(p + s, i);
  }

  lemma {:induction false} WellEscapedIff(s: Bytes)
    requires SLASH !in s
    ensures WellEscaped(s) <==> TildesEscape(s)
    decreases |s|
  {
    PointerBytes();
    hide Ascii;
    if s == [] {
    } else if s[0] != TILDE {
      WellEscapedIff(s[1..]);
      assert s == [s[0]] + s[1..];
      TildesInFront([s[0]], s[1..]);
    } else if |s| >= 2 && (s[1] == ZERO || s[1] == ONE) {
      WellEscapedIff(s[2..]);
      assert s == [s[0], s[1]] + s[2..];
      assert EscapeAt([s[0], s[1]], 0);
      TildesInFront([s[0], s[1]], s[2..]);
    } else {
      assert [s[0]] == Ascii("~") && !EscapeAt(s, 0);
    }
  }

  /** The token in front of the next slash, then the rest. */
  lemma SplitUnfold(s: Bytes)
    ensures var n, r := TokenLength(s), SplitAfterSlash(s);
            && (!WellEscaped(s[..n]) ==> r == Err(ParseError(108)))
            && (WellEscaped(s[..n]) && n == |s| ==> r.Ok?)
            && (WellEscaped(s[..n]) && n < |s| ==>
                  var rest := SplitAfterSlash(s[n + 1..]); r.Ok? == rest.Ok? && (rest.Err? ==> r == rest))
  {
    hide WellEscaped, Unescape;
  }

  lemma {:induction false} SplitAfterSlashIff(s: Bytes)
    ensures SplitAfterSlash(s).Ok? <==> TildesEscape(s)
    ensures SplitAfterSlash(s).Err? ==> SplitAfterSlash(s) == Err(ParseError(108))
    decreases |s|
  {
    hide Ascii, SplitAfterSlash, WellEscaped, TildesEscape;
    SplitUnfold(s);
    var n := TokenLength(s);
    WellEscapedIff(s[..n]);
    Halves(s, n);
    if !WellEscaped(s[..n]) {
      TildesBeforeSlash(s[..n], s[n..]);
    } else if n < |s| {
      TildesInFront(s[..n], s[n..]);
      SplitAfterSlashIff(s[n + 1..]);
      SlashInFront(s[n + 1..]);
    }
  }

  lemma Halves(s: Bytes, n: nat)
    requires n <= |s| && (n < |s| ==> s[n] == SLASH)
    ensures s == s[..n] + s[n..] && (n == |s| ==> s[..n] == s)
    ensures n < |s| ==> s[n..] == [SLASH] + s[n + 1..]
  {
  }

  lemma SlashInFront(s: Bytes)
    ensures TildesEscape([SLASH] + s) <==> TildesEscape(s)
  {
    PointerBytes();
    hide Ascii;
    TildesInFront([SLASH], s);
  }

  /** A text is a pointer exactly if it is empty, or begins with a slash and every tilde in it is followed by 0
      or 1; anything else is refused with error 107 or 108. */
  lemma SplitIff(s: Bytes)
    ensures s == [] ==> Split(s) == Ok([])
    ensures s != [] && [s[0]] != Ascii("/") ==> Split(s) == Err(ParseError(107))
    ensures s != [] && [s[0]] == Ascii("/") && TildesEscape(s) ==> Split(s).Ok?
    ensures s != [] && [s[0]] == Ascii("/") && !TildesEscape(s) ==> Split(s) == Err(ParseError(108))
  {
    PointerBytes();
    hide Ascii, SplitAfterSlash, TildesEscape;
    if s != [] && s[0] == SLASH {
      SplitAfterSlashIff(s[1..]);
      SlashInFront(s[1..]);
      assert s == [SLASH] + s[1..];
    }
  }
}
