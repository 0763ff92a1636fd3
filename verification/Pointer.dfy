/** JSON Pointer (RFC 6901): the textual form of a list of reference tokens. */
module Pointer {
  import opened ByteStrings
  import opened Json

  const SLASH: byte := 0x2F
  const TILDE: byte := 0x7E
  const ZERO: byte := 0x30
  const ONE: byte := 0x31

  type Tokens = seq<Bytes>

  /** `s` from left to right with every occurrence of `f` replaced by `t`. */
  function ReplaceAll(s: Bytes, f: Bytes, t: Bytes): Bytes
    requires f != []
    decreases |s|
  {
    if |s| < |f| then s
    else if f <= s then t + ReplaceAll(s[|f|..], f, t)
    else [s[0]] + ReplaceAll(s[1..], f, t)
  }

  /** `s.find(f, pos)`: the first position not before `pos` where `f` occurs. */
  method Find(s: Bytes, f: Bytes, start: nat) returns (found: bool, pos: nat)
    requires f != [] && start <= |s|
    ensures found ==> start <= pos <= |s| - |f| && f <= s[pos..]
    ensures found ==> forall i | start <= i < pos :: !(f <= s[i..])
    ensures !found ==> forall i | start <= i <= |s| :: !(f <= s[i..])
  {
    pos := start;
    while pos + |f| <= |s|
      invariant start <= pos <= |s|
      invariant forall i | start <= i < pos :: !(f <= s[i..])
    {
      if f <= s[pos..] {
        return true, pos;
      }
      pos := pos + 1;
    }
    return false, 0;
  }

  lemma {:induction false} ReplaceAllSkips(s: Bytes, f: Bytes, t: Bytes, n: nat)
    requires f != [] && n <= |s|
    requires forall i | 0 <= i < n :: !(f <= s[i..])
    ensures ReplaceAll(s, f, t) == s[..n] + ReplaceAll(s[n..], f, t)
  {
    if n == 0 {
      assert s[0..] == s;
    } else {
      assert !(f <= s[0..]) && s[0..] == s;
      forall i | 0 <= i < n - 1 ensures !(f <= s[1..][i..]) {
        assert s[1..][i..] == s[i + 1..];
      }
      if |s| < |f| {
        assert |s[n..]| < |f|;
      } else {
        ReplaceAllSkips(s[1..], f, t, n - 1);
        assert s[1..][n - 1..] == s[n..];
        assert s[..n] == [s[0]] + s[1..][..n - 1];
      }
    }
  }

  lemma Hit(s: Bytes, f: Bytes, t: Bytes)
    requires f != []
    ensures ReplaceAll(f + s, f, t) == t + ReplaceAll(s, f, t)
  {
    assert (f + s)[|f|..] == s;
  }

  lemma Miss(c: byte, s: Bytes, f: Bytes, t: Bytes)
    requires |f| == 2 && (f[0] != c || (s != [] && s[0] != f[1]))
    ensures ReplaceAll([c] + s, f, t) == [c] + ReplaceAll(s, f, t)
  {
    assert ([c] + s)[1..] == s;
  }

  lemma Exhausted(f: Bytes, t: Bytes)
    requires f != []
    ensures ReplaceAll([], f, t) == []
  {
  }

  /** The in-place loop: the part before `pos` is final, the part from `pos` untouched. */
  method ReplaceSubstring(s: Bytes, f: Bytes, t: Bytes) returns (r: Bytes)
    requires f != []
    ensures r == ReplaceAll(s, f, t)
  {
    hide ReplaceAll;
    r := s;
    var found, pos := Find(r, f, 0);
    ghost var scanned := 0;
    assert r[..0] + ReplaceAll(r[0..], f, t) == ReplaceAll(s, f, t) by { assert r[0..] == s; }
    while found
      invariant 0 <= scanned <= |r|
      invariant r[..scanned] + ReplaceAll(r[scanned..], f, t) == ReplaceAll(s, f, t)
      invariant found ==> scanned <= pos <= |r| - |f| && f <= r[pos..]
      invariant found ==> forall i | scanned <= i < pos :: !(f <= r[i..])
      invariant !found ==> forall i | scanned <= i <= |r| :: !(f <= r[i..])
      decreases |r| - scanned
    {
      SkipTo(r, f, t, scanned, pos);
      ghost var head, rest := r[..pos], r[pos + |f|..];
      assert r[pos..] == f + rest;
      Hit(rest, f, t);
      assert head + (t + ReplaceAll(rest, f, t)) == (head + t) + ReplaceAll(rest, f, t);
      r := r[..pos] + t + r[pos + |f|..];
      assert r[..pos + |t|] == head + t && r[pos + |t|..] == rest;
      scanned := pos + |t|;
      found, pos := Find(r, f, pos + |t|);
    }
    SkipTo(r, f, t, scanned, |r|);
    Exhausted(f, t);
    assert r[..|r|] == r && r[|r|..] == [] && r + [] == r;
  }

  lemma SkipTo(r: Bytes, f: Bytes, t: Bytes, from: nat, to: nat)
    requires f != [] && from <= to <= |r|
    requires forall i | from <= i < to :: !(f <= r[i..])
    ensures r[..from] + ReplaceAll(r[from..], f, t) == r[..to] + ReplaceAll(r[to..], f, t)
  {
    hide ReplaceAll;
    forall i | 0 <= i < to - from ensures !(f <= r[from..][i..]) {
      assert r[from..][i..] == r[from + i..];
    }
    ReplaceAllSkips(r[from..], f, t, to - from);
    assert r[from..][to - from..] == r[to..];
    assert r[..to] == r[..from] + r[from..][..to - from];
  }

  function Escape(s: Bytes): Bytes {
    ReplaceAll(ReplaceAll(s, [TILDE], [TILDE, ZERO]), [SLASH], [TILDE, ONE])
  }

  function Unescape(s: Bytes): Bytes {
    ReplaceAll(ReplaceAll(s, [TILDE, ONE], [SLASH]), [TILDE, ZERO], [TILDE])
  }

  method EscapeInPlace(s: Bytes) returns (r: Bytes)
    ensures r == Escape(s)
  {
    r := ReplaceSubstring(s, [TILDE], [TILDE, ZERO]);
    r := ReplaceSubstring(r, [SLASH], [TILDE, ONE]);
  }

  method UnescapeInPlace(s: Bytes) returns (r: Bytes)
    ensures r == Unescape(s)
  {
    r := ReplaceSubstring(s, [TILDE, ONE], [SLASH]);
    r := ReplaceSubstring(r, [TILDE, ZERO], [TILDE]);
  }

  // ---- RFC 6901, sections 3 and 4, read byte by byte ----

  function Encoded(s: Bytes): Bytes {
    if s == [] then []
    else (if s[0] == TILDE then [TILDE, ZERO] else if s[0] == SLASH then [TILDE, ONE] else [s[0]])
         + Encoded(s[1..])
  }

  /** The grammar of a reference token: no slash, and every tilde starts an escape. */
  predicate WellEscaped(s: Bytes) {
    s == [] ||
    (s[0] != SLASH &&
     if s[0] == TILDE then |s| >= 2 && (s[1] == ZERO || s[1] == ONE) && WellEscaped(s[2..])
     else WellEscaped(s[1..]))
  }

  function Decoded(s: Bytes): Bytes
    requires WellEscaped(s)
  {
    if s == [] then []
    else if s[0] == TILDE then [if s[1] == ZERO then TILDE else SLASH] + Decoded(s[2..])
    else [s[0]] + Decoded(s[1..])
  }

  lemma ReplaceByte(c: byte, s: Bytes, f: byte, t: Bytes)
    ensures ReplaceAll([c] + s, [f], t) == (if c == f then t else [c]) + ReplaceAll(s, [f], t)
  {
    if c == f {
      Hit(s, [f], t);
    } else {
      assert ([c] + s)[1..] == s && ([c] + s)[0] != [f][0];
    }
  }

  lemma {:induction false} EscapeIsEncoded(s: Bytes)
    ensures Escape(s) == Encoded(s)
  {
    hide ReplaceAll;
    if s == [] {
      ReplaceNothing();
    } else {
      var c, rest := s[0], s[1..];
      EscapeIsEncoded(rest);
      var tail := ReplaceAll(rest, [TILDE], [TILDE, ZERO]);
      assert s == [c] + rest;
      ReplaceByte(c, rest, TILDE, [TILDE, ZERO]);
      if c == TILDE {
        assert [TILDE, ZERO] + tail == [TILDE] + ([ZERO] + tail);
        ReplaceByte(TILDE, [ZERO] + tail, SLASH, [TILDE, ONE]);
        ReplaceByte(ZERO, tail, SLASH, [TILDE, ONE]);
      } else {
        ReplaceByte(c, tail, SLASH, [TILDE, ONE]);
      }
    }
  }

  lemma ReplaceNothing()
    ensures Escape([]) == []
  {
  }

  /** Two passes in this order read an escaped token as one left-to-right pass would: `~01`
      is a tilde followed by a one, not a slash. */
  lemma {:induction false} UnescapeIsDecoded(s: Bytes)
    requires WellEscaped(s)
    ensures Unescape(s) == Decoded(s)
    decreases |s|
  {
    if s == [] {
    } else if s[0] == TILDE {
      var rest := s[2..];
      UnescapeIsDecoded(rest);
      var tail := ReplaceAll(rest, [TILDE, ONE], [SLASH]);
      assert s == [TILDE, s[1]] + rest;
      if s[1] == ZERO {
        Miss(TILDE, [ZERO] + rest, [TILDE, ONE], [SLASH]);
        Miss(ZERO, rest, [TILDE, ONE], [SLASH]);
        assert s == [TILDE] + ([ZERO] + rest);
        assert ReplaceAll(s, [TILDE, ONE], [SLASH]) == [TILDE, ZERO] + tail;
        Hit(tail, [TILDE, ZERO], [TILDE]);
      } else {
        Hit(rest, [TILDE, ONE], [SLASH]);
        Miss(SLASH, tail, [TILDE, ZERO], [TILDE]);
      }
    } else {
      UnescapeIsDecoded(s[1..]);
      assert s == [s[0]] + s[1..];
      Miss(s[0], s[1..], [TILDE, ONE], [SLASH]);
      Miss(s[0], ReplaceAll(s[1..], [TILDE, ONE], [SLASH]), [TILDE, ZERO], [TILDE]);
    }
  }

  lemma {:induction false} DecodedEncoded(s: Bytes)
    ensures WellEscaped(Encoded(s)) && Decoded(Encoded(s)) == s
  {
    if s != [] {
      DecodedEncoded(s[1..]);
      var e := Encoded(s);
      if s[0] == TILDE || s[0] == SLASH {
        assert e[2..] == Encoded(s[1..]);
      } else {
        assert e[1..] == Encoded(s[1..]);
      }
    }
  }

  lemma {:induction false} EncodedDecoded(s: Bytes)
    requires WellEscaped(s)
    ensures Encoded(Decoded(s)) == s
    decreases |s|
  {
    if s == [] {
    } else if s[0] == TILDE {
      EncodedDecoded(s[2..]);
      assert Decoded(s)[1..] == Decoded(s[2..]);
      assert s == [TILDE, s[1]] + s[2..];
    } else {
      EncodedDecoded(s[1..]);
      assert Decoded(s)[1..] == Decoded(s[1..]);
    }
  }

  lemma {:induction false} WellEscapedNoSlash(s: Bytes)
    requires WellEscaped(s)
    ensures SLASH !in s
    decreases |s|
  {
    if s == [] {
    } else if s[0] == TILDE {
      WellEscapedNoSlash(s[2..]);
      assert s == [s[0], s[1]] + s[2..];
    } else {
      WellEscapedNoSlash(s[1..]);
      assert s == [s[0]] + s[1..];
    }
  }

  /** What callers use of an escaped key. */
  lemma Escaped(s: Bytes)
    ensures WellEscaped(Escape(s)) && Unescape(Escape(s)) == s && SLASH !in Escape(s)
  {
    EscapeIsEncoded(s);
    DecodedEncoded(s);
    UnescapeIsDecoded(Encoded(s));
    WellEscapedNoSlash(Encoded(s));
  }

  // ---- to_string and split ----

  /** `to_string`: a left fold over the tokens. */
  function ToString(ts: Tokens): Bytes {
    if ts == [] then [] else ToString(ts[..|ts| - 1]) + [SLASH] + Escape(ts[|ts| - 1])
  }

  lemma {:induction false} ToStringFromFront(ts: Tokens)
    requires ts != []
    ensures ToString(ts) == [SLASH] + Escape(ts[0]) + ToString(ts[1..])
  {
    hide Escape, ToString;
    var n := |ts|;
    ToStringLast(ts);
    if n == 1 {
      assert ts[..0] == [] && ts[1..] == [];
      ToStringOfNothing();
    } else {
      ToStringFromFront(ts[..n - 1]);
      assert ts[1..][..n - 2] == ts[..n - 1][1..];
      ToStringLast(ts[1..]);
      var first, middle, last := [SLASH] + Escape(ts[0]), ToString(ts[..n - 1][1..]), [SLASH] + Escape(ts[n - 1]);
      RegroupLast(first, [], middle, last);
      RegroupLast(ToString(ts[..n - 1]), [SLASH], Escape(ts[n - 1]), []);
      RegroupLast(middle, [SLASH], Escape(ts[n - 1]), []);
    }
  }

  lemma ToStringLast(ts: Tokens)
    requires ts != []
    ensures ToString(ts) == ToString(ts[..|ts| - 1]) + [SLASH] + Escape(ts[|ts| - 1])
  {
    hide Escape;
  }

  lemma ToStringOfNothing()
    ensures ToString([]) == []
  {
  }

  lemma ToStringSnoc(ts: Tokens, t: Bytes)
    ensures ToString(ts + [t]) == ToString(ts) + [SLASH] + Escape(t)
  {
    assert (ts + [t])[..|ts|] == ts;
  }

  function Prepend(ts: Tokens, r: Result<Tokens>): Result<Tokens> {
    match r
    case Ok(rest) => Ok(ts + rest)
    case Err(e) => Err(e)
  }

  lemma PrependNothing(r: Result<Tokens>)
    ensures Prepend([], r) == r
  {
    match r
    case Ok(ts) => assert [] + ts == ts;
    case Err(_) =>
  }

  /** The tokens of the text that follows a slash. */
  function SplitAfterSlash(s: Bytes): Result<Tokens>
    decreases |s|
  {
    var n := TokenLength(s);
    if !WellEscaped(s[..n]) then Err(ParseError(108))
    else if n == |s| then Ok([Unescape(s[..n])])
    else Prepend([Unescape(s[..n])], SplitAfterSlash(s[n + 1..]))
  }

  /** The number of bytes before the first slash. */
  function TokenLength(s: Bytes): (n: nat)
    ensures n <= |s| && SLASH !in s[..n] && (n < |s| ==> s[n] == SLASH)
  {
    if s == [] || s[0] == SLASH then 0
    else
      var n := 1 + TokenLength(s[1..]);
      assert s[..n] == [s[0]] + s[1..][..n - 1];
      n
  }

  lemma TokenLengthUnique(s: Bytes, n: nat)
    requires n <= |s| && SLASH !in s[..n] && (n < |s| ==> s[n] == SLASH)
    ensures TokenLength(s) == n
  {
    var m := TokenLength(s);
    assert forall i | 0 <= i < n :: s[..n][i] == s[i] && s[..n][i] in s[..n];
    assert forall i | 0 <= i < m :: s[..m][i] == s[i] && s[..m][i] in s[..m];
  }

  /** The specification of `split`. */
  function Split(s: Bytes): Result<Tokens> {
    if s == [] then Ok([])
    else if s[0] != SLASH then Err(ParseError(107))
    else SplitAfterSlash(s[1..])
  }

  lemma {:induction false} SplitUnits(t: Bytes, rest: Bytes)
    requires rest == [] || rest[0] == SLASH
    ensures SplitAfterSlash(Escape(t) + rest) ==
            if rest == [] then Ok([t]) else Prepend([t], SplitAfterSlash(rest[1..]))
  {
    Escaped(t);
    var s, n := Escape(t) + rest, |Escape(t)|;
    assert s[..n] == Escape(t);
    TokenLengthUnique(s, n);
    if rest == [] {
      assert s == Escape(t);
    } else {
      assert s[n + 1..] == rest[1..];
    }
  }

  /** `ptr == json_pointer(ptr.to_string())`, for every list of tokens. */
  lemma {:induction false} SplitToString(ts: Tokens)
    ensures Split(ToString(ts)) == Ok(ts)
  {
    hide ReplaceAll, Escape, SplitAfterSlash;
    if ts != [] {
      ToStringFromFront(ts);
      var rest := ToString(ts[1..]);
      SplitToString(ts[1..]);
      assert ToString(ts)[1..] == Escape(ts[0]) + rest;
      if |ts| == 1 {
        assert ts == [ts[0]];
      } else {
        ToStringFromFront(ts[1..]);
        assert Split(rest) == SplitAfterSlash(rest[1..]);
        assert ts == [ts[0]] + ts[1..];
      }
      SplitUnits(ts[0], rest);
    }
  }

  /** The other direction: a text that `split` accepts is the text of its tokens. Together with
      SplitToString this makes pointers and lists of tokens the same thing. */
  lemma ToStringSplit(s: Bytes)
    requires Split(s).Ok?
    ensures ToString(Split(s).value) == s
  {
    if s != [] {
      ToStringSplitAfterSlash(s[1..]);
    }
  }

  lemma {:induction false} ToStringSplitAfterSlash(s: Bytes)
    requires SplitAfterSlash(s).Ok?
    ensures SplitAfterSlash(s).value != []
    ensures ToString(SplitAfterSlash(s).value) == [SLASH] + s
    decreases |s|
  {
    hide ReplaceAll, Escape, Unescape;
    var n := TokenLength(s);
    EscapeUnescape(s[..n]);
    if n == |s| {
      ToStringCons(Unescape(s[..n]), []);
      assert [Unescape(s[..n])] + [] == [Unescape(s[..n])];
    } else {
      ToStringSplitAfterSlash(s[n + 1..]);
      Joined(s, n, Unescape(s[..n]), SplitAfterSlash(s[n + 1..]).value);
    }
  }

  lemma SplitAt(s: Bytes, n: nat)
    requires n < |s| && s[n] == SLASH
    ensures s[..n] + ([SLASH] + s[n + 1..]) == s
  {
  }

  lemma Joined(s: Bytes, n: nat, t: Bytes, rest: Tokens)
    requires n < |s| && s[n] == SLASH
    requires Escape(t) == s[..n] && ToString(rest) == [SLASH] + s[n + 1..]
    ensures ToString([t] + rest) == [SLASH] + s
  {
    hide Escape, ToString;
    ToStringCons(t, rest);
    SplitAt(s, n);
    RegroupLast([SLASH], s[..n], [], [SLASH] + s[n + 1..]);
  }

  lemma ToStringCons(t: Bytes, rest: Tokens)
    ensures ToString([t] + rest) == [SLASH] + Escape(t) + ToString(rest)
  {
    ToStringFromFront([t] + rest);
    assert ([t] + rest)[1..] == rest;
  }

  lemma EscapeUnescape(raw: Bytes)
    requires WellEscaped(raw)
    ensures Escape(Unescape(raw)) == raw
  {
    UnescapeIsDecoded(raw);
    EncodedDecoded(raw);
    EscapeIsEncoded(Unescape(raw));
  }

  lemma ToStringInjective(a: Tokens, b: Tokens)
    requires ToString(a) == ToString(b)
    ensures a == b
  {
    SplitToString(a);
    SplitToString(b);
  }

  // ---- the loop of `split` ----

  /** The check of one raw token: every tilde is followed by a zero or a one. */
  method ProperlyEscaped(token: Bytes) returns (ok: bool)
    requires SLASH !in token
    ensures ok <==> WellEscaped(token)
  {
    hide WellEscaped;
    var found, pos := FindByte(TILDE, token, 0);
    ghost var done := 0;
    assert token[0..] == token;
    while found
      invariant 0 <= done <= |token|
      invariant WellEscaped(token) <==> WellEscaped(token[done..])
      invariant found ==> done <= pos < |token| && token[pos] == TILDE
      invariant forall i | done <= i < (if found then pos else |token|) :: token[i] != TILDE
      decreases |token| - done
    {
      PlainPrefix(token, done, pos);
      if pos == |token| - 1 || (token[pos + 1] != ZERO && token[pos + 1] != ONE) {
        EscapeMissing(token, pos);
        return false;
      }
      EscapeSkipped(token, pos);
      done := pos + 2;
      found, pos := FindByte(TILDE, token, pos + 1);
    }
    PlainPrefix(token, done, |token|);
    EscapeMissing(token, |token|);
    return true;
  }

  lemma EscapeSkipped(token: Bytes, pos: nat)
    requires pos + 1 < |token| && token[pos] == TILDE && (token[pos + 1] == ZERO || token[pos + 1] == ONE)
    ensures WellEscaped(token[pos..]) == WellEscaped(token[pos + 2..])
  {
    assert token[pos..][2..] == token[pos + 2..];
  }

  lemma EscapeMissing(token: Bytes, pos: nat)
    requires pos <= |token| && (pos < |token| ==> token[pos] == TILDE)
    requires pos + 1 < |token| ==> token[pos + 1] != ZERO && token[pos + 1] != ONE
    ensures WellEscaped(token[pos..]) == (pos == |token|)
  {
  }

  /** `find_first_of(c, start)` */
  method FindByte(c: byte, s: Bytes, start: nat) returns (found: bool, pos: nat)
    requires start <= |s|
    ensures found ==> start <= pos < |s| && s[pos] == c
    ensures forall i | start <= i < (if found then pos else |s|) :: s[i] != c
  {
    found, pos := Find(s, [c], start);
    assert forall i | 0 <= i < |s| :: [c] <= s[i..] <==> s[i] == c;
  }

  lemma {:induction false} PlainPrefix(s: Bytes, from: nat, to: nat)
    requires from <= to <= |s| && SLASH !in s
    requires forall i | from <= i < to :: s[i] != TILDE
    ensures WellEscaped(s[from..]) <==> WellEscaped(s[to..])
    decreases |s| - from
  {
    if from < to {
      PlainPrefix(s, from + 1, to);
      assert s[from..][1..] == s[from + 1..];
    }
  }

  lemma SplitStep(s: Bytes, start: nat, slash: nat, result: Tokens)
    requires start <= slash <= |s| && SLASH !in s[start..slash] && (slash < |s| ==> s[slash] == SLASH)
    ensures Prepend(result, SplitAfterSlash(s[start..])) ==
            if !WellEscaped(s[start..slash]) then Err(ParseError(108))
            else if slash == |s| then Ok(result + [Unescape(s[start..slash])])
            else Prepend(result + [Unescape(s[start..slash])], SplitAfterSlash(s[slash + 1..]))
  {
    hide ReplaceAll, Unescape, WellEscaped;
    var rest, n := s[start..], slash - start;
    assert rest[..n] == s[start..slash];
    TokenLengthUnique(rest, n);
    if slash < |s| {
      assert rest[n + 1..] == s[slash + 1..];
      var t := Unescape(rest[..n]);
      match SplitAfterSlash(s[slash + 1..])
      case Ok(ts) => assert result + ([t] + ts) == (result + [t]) + ts;
      case Err(_) =>
    }
  }

  /** `split`. `start` and `slash` are the loop variables of the source; `more` is false once
      `start` would be `npos + 1`. */
  method SplitLoop(reference: Bytes) returns (r: Result<Tokens>)
    ensures r == Split(reference)
  {
    hide SplitAfterSlash, WellEscaped, Unescape, Prepend, TokenLength;
    if reference == [] {
      return Ok([]);
    }
    if reference[0] != SLASH {
      return Err(ParseError(107));
    }
    var result: Tokens := [];
    var start := 1;
    var more := true;
    PrependNothing(SplitAfterSlash(reference[1..]));
    while more
      invariant more ==> 1 <= start <= |reference|
      invariant Split(reference) ==
                if more then Prepend(result, SplitAfterSlash(reference[start..])) else Ok(result)
      decreases more, |reference| - start
    {
      var found, slash := FindByte(SLASH, reference, start);
      if !found {
        slash := |reference|;
      }
      var token := reference[start..slash];
      SplitStep(reference, start, slash, result);
      var ok := ProperlyEscaped(token);
      if !ok {
        return Err(ParseError(108));
      }
      token := UnescapeInPlace(token);
      result := result + [token];
      start := slash + 1;
      more := found;
    }
    return Ok(result);
  }
}
