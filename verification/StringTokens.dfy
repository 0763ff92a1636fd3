/** Strings as the scanner sees them: which byte strings survive being written and scanned, and what
    `get_string` does with a token. */
module StringTokens {
  import opened ByteStrings
  import opened Json
  import opened Scanner
  import opened Strings
  import opened TokenGrammar

  /** The length of the first character, by section 4 of RFC 3629; 0 if it is not well-formed. */
  function Utf8Length(s: Bytes): (n: nat)
    requires s != []
    ensures n <= |s|
  {
    if s[0] < 0x80 then 1 else CharLength(s, 0)
  }

  predicate Utf8(s: Bytes) {
    s == [] || (Utf8Length(s) > 0 && Utf8(s[Utf8Length(s)..]))
  }

  /** Bytes from 0x80 on are written as they are; everything else begins with a smaller byte. */
  lemma FirstByte(text: Bytes, i: nat, s: Bytes)
    requires Stands(text, i, Escaped(s) + [QUOTE])
    ensures s != [] && s[0] >= 0x80 ==> At(text, i) == s[0] && Stands(text, i + 1, Escaped(s[1..]) + [QUOTE])
    ensures s == [] || s[0] < 0x80 ==> At(text, i) < 0x80
  {
    hide Escaped;
    UnfoldEscaped(s);
    if s == [] {
      assert text[i..i + 1][0] == QUOTE;
    } else {
      var e := EscapedByte(s[0]);
      assert Escaped(s) + [QUOTE] == e + (Escaped(s[1..]) + [QUOTE]);
      StandsParts(text, i, e, Escaped(s[1..]) + [QUOTE]);
      assert text[i..i + |e|][0] == text[i] == e[0];
    }
  }

  lemma UnfoldEscaped(s: Bytes)
    ensures Escaped(s) == if s == [] then [] else EscapedByte(s[0]) + Escaped(s[1..])
  {
  }

  /** A multi-byte character is seen in the text exactly if it is there in the string. */
  lemma MultiByte(text: Bytes, i: nat, s: Bytes)
    requires Stands(text, i, Escaped(s) + [QUOTE]) && s != [] && s[0] >= 0x80
    ensures CharLength(text, i) == CharLength(s, 0)
    ensures var n := CharLength(s, 0); n > 0 ==> Stands(text, i + n, Escaped(s[n..]) + [QUOTE])
  {
    hide Escaped, IsHex, IsEscape, Stands;
    FirstByte(text, i, s);
    FirstByte(text, i + 1, s[1..]);
    if |s| > 1 && s[1] >= 0x80 {
      assert s[1..][1..] == s[2..];
      FirstByte(text, i + 2, s[2..]);
      if |s| > 2 && s[2] >= 0x80 {
        assert s[2..][1..] == s[3..];
        FirstByte(text, i + 3, s[3..]);
        if |s| > 3 && s[3] >= 0x80 {
          assert s[3..][1..] == s[4..];
        }
      }
    }
  }

  /** What stands in a text for a single byte below 0x80. */
  lemma SingleByte(text: Bytes, i: nat, c: byte)
    requires Stands(text, i, EscapedByte(c)) && c < 0x80
    ensures CharLength(text, i) == |EscapedByte(c)| && At(text, i) != QUOTE
  {
    var e := EscapedByte(c);
    assert forall k | 0 <= k < |e| :: text[i..i + |e|][k] == e[k];
    assert forall k | 0 <= k < |e| :: At(text, i + k) == e[k];
    if ShortEscape(c) == 0 && c <= 0x1F {
      assert At(text, i + 2) == e[2] && At(text, i + 3) == e[3] && At(text, i + 4) == e[4] && At(text, i + 5) == e[5];
    } else if ShortEscape(c) != 0 {
      assert At(text, i + 1) == e[1];
    }
  }

  /** The quoted escape of a byte string is a string token if and only if the byte string is
      well-formed UTF-8. */
  lemma {:induction false} EscapedStringEnd(text: Bytes, i: nat, s: Bytes)
    requires Stands(text, i, Escaped(s) + [QUOTE])
    ensures StringEnd(text, i) == if Utf8(s) then Some(i + |Escaped(s)| + 1) else None
    decreases |s|, 1
  {
    hide CharLength, EscapedByte, Escaped, StringEnd, Utf8, Utf8Length;
    UnfoldEscaped(s);
    StringEndUnfold(text, i);
    Utf8Unfold(s);
    if s == [] {
      assert text[i..i + 1][0] == QUOTE;
    } else if s[0] < 0x80 {
      var e, rest := EscapedByte(s[0]), Escaped(s[1..]);
      assert Escaped(s) + [QUOTE] == e + (rest + [QUOTE]);
      StandsParts(text, i, e, rest + [QUOTE]);
      SingleByte(text, i, s[0]);
      EscapedStringEnd(text, i + |e|, s[1..]);
      EscapedNotEmpty(s[0]);
    } else {
      EscapedHighBytes(text, i, s);
    }
  }

  lemma {:induction false} EscapedHighBytes(text: Bytes, i: nat, s: Bytes)
    requires Stands(text, i, Escaped(s) + [QUOTE]) && s != [] && s[0] >= 0x80
    ensures StringEnd(text, i) == if Utf8(s) then Some(i + |Escaped(s)| + 1) else None
    decreases |s|, 0
  {
    hide CharLength, EscapedByte, Escaped, StringEnd, Utf8, Utf8Length, Stands;
    StringEndUnfold(text, i);
    Utf8Unfold(s);
    FirstByte(text, i, s);
    MultiByte(text, i, s);
    var n := CharLength(s, 0);
    if n > 0 {
      EscapedStringEnd(text, i + n, s[n..]);
      HighBytes(s, n);
    }
  }

  lemma StringEndUnfold(text: Bytes, i: nat)
    ensures StringEnd(text, i) ==
            if At(text, i) == QUOTE then Some(i + 1)
            else if CharLength(text, i) == 0 then None
            else StringEnd(text, i + CharLength(text, i))
  {
    hide CharLength;
  }

  lemma Utf8Unfold(s: Bytes)
    ensures s == [] ==> Utf8(s)
    ensures s != [] && s[0] < 0x80 ==> Utf8(s) == Utf8(s[1..])
    ensures s != [] && s[0] >= 0x80 ==>
              var n := CharLength(s, 0); n <= |s| && Utf8(s) == (n > 0 && Utf8(s[n..]))
  {
    hide CharLength;
  }

  lemma EscapedNotEmpty(c: byte)
    ensures |EscapedByte(c)| > 0
  {
  }

  /** The bytes of a multi-byte character are not escaped. */
  lemma HighBytes(s: Bytes, n: nat)
    requires s != [] && s[0] >= 0x80 && n == CharLength(s, 0) && n > 0
    ensures n <= |s| && |Escaped(s)| == n + |Escaped(s[n..])|
  {
    hide Escaped;
    UnfoldEscaped(s);
    UnfoldEscaped(s[1..]);
    assert s[1..][1..] == s[2..];
    if n > 2 {
      UnfoldEscaped(s[2..]);
      assert s[2..][1..] == s[3..];
      if n > 3 {
        UnfoldEscaped(s[3..]);
        assert s[3..][1..] == s[4..];
      }
    }
  }

  // ---- get_string on the tokens of the scanner ----

  lemma CharBytes(text: Bytes, i: nat)
    requires CharLength(text, i) > 0 && At(text, i) != BACKSLASH
    ensures forall k | i < k < i + CharLength(text, i) :: k < |text| && text[k] >= 0x80
    ensures CharLength(text, i) <= 4 && i < |text|
  {
    hide IsHex, IsEscape;
  }

  lemma EscapeBytes(text: Bytes, i: nat)
    requires CharLength(text, i) > 0 && At(text, i) == BACKSLASH
    ensures i + CharLength(text, i) <= |text|
    ensures text[i + 1] != 0x75 ==> CharLength(text, i) == 2
    ensures text[i + 1] == 0x75 ==> CharLength(text, i) == 6 && HasCodeUnit(text[i + 2..])
  {
    hide IsHex;
  }

  /** A run of bytes without a backslash is taken over as it is. */
  lemma {:induction false} DecodePlain(s: Bytes, n: nat)
    requires n <= |s| && forall k | 0 <= k < n :: s[k] != BACKSLASH
    ensures Decode(s) == Glue(s[..n], Decode(s[n..]))
    decreases n
  {
    if n == 0 {
      assert s[0..] == s;
      GlueNothing(Decode(s));
    } else {
      DecodePlain(s[1..], n - 1);
      assert s[1..][n - 1..] == s[n..];
      GlueTwice([s[0]], s[1..][..n - 1], Decode(s[n..]));
      assert s[..n] == [s[0]] + s[1..][..n - 1];
    }
  }

  lemma GlueNothing(r: Result<Bytes>)
    ensures Glue([], r) == r
  {
    match r
    case Ok(x) => assert [] + x == x;
    case Err(_) =>
  }

  lemma GlueTwice(a: Bytes, b: Bytes, r: Result<Bytes>)
    ensures Glue(a, Glue(b, r)) == Glue(a + b, r)
  {
    match r
    case Ok(x) => assert a + (b + x) == a + b + x;
    case Err(_) =>
  }

  /** An escaped code unit, alone or as the first of a surrogate pair. */
  lemma DecodeUnicode(s: Bytes)
    requires |s| >= 6 && s[0] == BACKSLASH && s[1] == 0x75 && HasCodeUnit(s[2..])
    ensures var first, pair := CodeUnit(s[2..]), |s| >= 8 && s[6] == BACKSLASH && s[7] == 0x75;
            && (!IsHighSurrogate(first) && !IsLowSurrogate(first) ==>
                  ToUnicode(first, 0).Ok? && Decode(s) == Glue(ToUnicode(first, 0).value, Decode(s[6..])))
            && (IsLowSurrogate(first) || (IsHighSurrogate(first) && !pair) ==> Decode(s) == Err(ParseError(102)))
            && (IsHighSurrogate(first) && pair && HasCodeUnit(s[8..]) ==>
                  var u := ToUnicode(first, CodeUnit(s[8..]));
                  Decode(s) == if u.Ok? then Glue(u.value, Decode(s[12..])) else Err(ParseError(102)))
  {
    hide IsHex, CodeUnit, ToUnicode;
    var first := CodeUnit(s[2..]);
    NeverTooLarge(first, 0);
    if HasCodeUnit(s[2..]) && |s| >= 8 && HasCodeUnit(s[8..]) {
      NeverTooLarge(first, CodeUnit(s[8..]));
      SurrogateError(first, CodeUnit(s[8..]));
    }
  }

  lemma SurrogateError(first: nat, second: nat)
    ensures IsHighSurrogate(first) && !IsLowSurrogate(second) ==> ToUnicode(first, second) == Err(ParseError(102))
  {
  }

  /** On a token of the scanner `get_string` never looks for hexadecimal digits in vain: it gives a
      string, or it reports a lone surrogate. */
  lemma {:induction false} GetStringDefined(text: Bytes, i: nat)
    requires StringEnd(text, i).Some?
    ensures Defined(Decode(text[i..StringEnd(text, i).value - 1]))
    decreases Left(text, i), 1
  {
    hide CharLength, HasCodeUnit, StringEnd, Decode;
    GetStringEmpty(text, i);
    var end := StringEnd(text, i).value - 1;
    var s := text[i..end];
    if At(text, i) == QUOTE {
      DecodeNothing();
      assert s == [];
    } else {
      var n := CharLength(text, i);
      StringEndAfter(text, i);
      GetStringDefined(text, i + n);
      assert forall k | 0 <= k < n :: s[k] == text[i + k];
      assert s[n..] == text[i + n..end];
      if At(text, i) != BACKSLASH {
        CharBytes(text, i);
        DecodePlain(s, n);
      } else {
        EscapeBytes(text, i);
        if s[1] != 0x75 {
          DecodeEscape(s);
        } else {
          CodePointDefined(text, i, end);
        }
      }
    }
  }

  predicate Defined(r: Result<Bytes>) {
    r.Ok? || r == Err(ParseError(102))
  }

  lemma DecodeEscape(s: Bytes)
    requires |s| >= 2 && s[0] == BACKSLASH && s[1] != 0x75
    ensures Decode(s) == Glue(Unescaped(s[1]), Decode(s[2..]))
  {
  }

  lemma {:induction false} CodePointDefined(text: Bytes, i: nat, end: nat)
    requires StringEnd(text, i) == Some(end + 1) && At(text, i) == BACKSLASH && At(text, i + 1) == 0x75
    requires CharLength(text, i) == 6 && i + 6 <= end < |text| && HasCodeUnit(text[i + 2..])
    requires Defined(Decode(text[i + 6..end]))
    ensures Defined(Decode(text[i..end]))
    decreases Left(text, i), 0
  {
    hide CharLength, HasCodeUnit, StringEnd, Decode, ToUnicode, CodeUnit;
    var s := text[i..end];
    HexInside(text, i, end);
    assert s[6..] == text[i + 6..end];
    DecodeUnicode(s);
    if |s| >= 8 && s[6] == BACKSLASH && s[7] == 0x75 {
      StringEndAfter(text, i);
      StringEndAfter(text, i + 6);
      EscapeBytes(text, i + 6);
      HexInside(text, i + 6, end);
      assert text[i + 6..end][2..] == s[8..];
      GetStringDefined(text, i + 12);
      assert s[12..] == text[i + 12..end];
    }
  }

  lemma GetStringEmpty(text: Bytes, i: nat)
    requires StringEnd(text, i).Some?
    ensures At(text, i) == QUOTE ==> StringEnd(text, i).value == i + 1
    ensures i < |text|
  {
    hide CharLength;
  }

  lemma StringEndAfter(text: Bytes, i: nat)
    requires StringEnd(text, i).Some? && At(text, i) != QUOTE
    ensures var n := CharLength(text, i);
            n > 0 && StringEnd(text, i + n) == StringEnd(text, i) && i + n < StringEnd(text, i).value <= |text|
  {
    hide CharLength;
  }

  lemma HexInside(text: Bytes, i: nat, end: nat)
    requires i + 6 <= end <= |text| && HasCodeUnit(text[i + 2..])
    ensures HasCodeUnit(text[i..end][2..])
  {
    hide IsHex;
    var a, b := text[i + 2..], text[i..end][2..];
    assert a[0] == b[0] && a[1] == b[1] && a[2] == b[2] && a[3] == b[3];
  }

  // ---- the loop of get_string ----

  /** `std::find(i, end, c)` */
  method Find(content: Bytes, i: nat, end: nat, c: byte) returns (e: nat)
    requires i <= end <= |content|
    ensures i <= e <= end && (e < end ==> content[e] == c)
    ensures forall k | i <= k < e :: content[k] != c
  {
    e := i;
    while e < end && content[e] != c
      invariant i <= e <= end
      invariant forall k | i <= k < e :: content[k] != c
    {
      e := e + 1;
    }
  }

  /** Bytes that are copied one by one. */
  method CopyRun(front: Bytes, content: Bytes, i: nat, e: nat) returns (result: Bytes)
    requires i <= e <= |content|
    ensures result == front + content[i..e]
  {
    result := front;
    for k := i to e
      invariant result == front + content[i..k]
    {
      result := result + [content[k]];
    }
  }

  /** `get_string`, on the token between `start` and `cursor` of a buffer. The look beyond an escaped
      high surrogate may leave the token, but then it meets the closing quote. */
  method GetString(content: Bytes, start: nat, cursor: nat) returns (r: Result<Bytes>)
    requires start + 2 <= cursor <= |content| && content[cursor - 1] == QUOTE
    requires Decode(content[start + 1..cursor - 1]) != Err(UndefinedBehaviour)
    ensures r == Decode(content[start + 1..cursor - 1])
  {
    hide Decode, Glue;
    var result: Bytes := [];
    var i := start + 1;
    var end := cursor - 1;
    ghost var whole := Decode(content[start + 1..end]);
    GlueNothing(whole);
    while i < end
      invariant start < i <= end
      invariant whole == Glue(result, Decode(content[i..end]))
    {
      var e := Find(content, i, end, BACKSLASH);
      if e != i {
        PlainRun(content, i, e, end, result);
        result := CopyRun(result, content, i, e);
        i := e;
      } else {
        GlueKeeps(result, Decode(content[i..end]));
        var n, u := ReadEscaped(content, i, end);
        if u.Err? {
          return u;
        }
        GlueTwice(result, u.value, Decode(content[i + n..end]));
        result := result + u.value;
        i := i + n;
      }
    }
    assert content[i..end] == [];
    DecodeNothing();
    GlueEnd(result);
    return Ok(result);
  }

  lemma PlainRun(content: Bytes, i: nat, e: nat, end: nat, front: Bytes)
    requires i <= e <= end <= |content| && forall k | i <= k < e :: content[k] != BACKSLASH
    ensures Glue(front, Decode(content[i..end])) == Glue(front + content[i..e], Decode(content[e..end]))
  {
    hide Decode;
    var s := content[i..end];
    assert forall k | 0 <= k < e - i :: s[k] == content[i + k];
    DecodePlain(s, e - i);
    assert s[..e - i] == content[i..e] && s[e - i..] == content[e..end];
    GlueTwice(front, content[i..e], Decode(content[e..end]));
  }

  lemma GlueKeeps(front: Bytes, r: Result<Bytes>)
    ensures r.Err? ==> Glue(front, r) == r
    ensures Glue(front, r) != Err(UndefinedBehaviour) <==> r != Err(UndefinedBehaviour)
  {
  }

  lemma GlueEnd(front: Bytes)
    ensures Glue(front, Ok([])) == Ok(front)
  {
    assert front + [] == front;
  }

  /** An escape sequence: the number of bytes it takes, and its character. */
  method ReadEscaped(content: Bytes, i: nat, end: nat) returns (n: nat, u: Result<Bytes>)
    requires i < end < |content| && content[i] == BACKSLASH && content[end] == QUOTE
    requires Decode(content[i..end]) != Err(UndefinedBehaviour)
    ensures u.Err? ==> Decode(content[i..end]) == u
    ensures u.Ok? ==> i < i + n <= end && Decode(content[i..end]) == Glue(u.value, Decode(content[i + n..end]))
  {
    hide Decode, Glue;
    ghost var s := content[i..end];
    DecodeShort(s);
    var c := content[i + 1];
    assert s[1] == c;
    if c != 0x75 {
      DecodeEscape(s);
      assert s[2..] == content[i + 2..end];
      return 2, Ok(Unescaped(c));
    }
    n, u := ReadCodePoint(content, i, end);
    if u.Ok? {
      assert s[n..] == content[i + n..end];
    }
  }

  lemma DecodeShort(s: Bytes)
    requires s != [] && s[0] == BACKSLASH && Decode(s) != Err(UndefinedBehaviour)
    ensures |s| >= 2
    ensures s[1] == 0x75 ==> |s| >= 6 && HasCodeUnit(s[2..])
    ensures s[1] == 0x75 && IsHighSurrogate(CodeUnit(s[2..])) && |s| >= 8 && s[6] == BACKSLASH && s[7] == 0x75 ==>
              |s| >= 12 && HasCodeUnit(s[8..])
  {
    hide IsHex, CodeUnit, ToUnicode;
  }

  /** The case of a code point: the number of bytes it takes, and its character. */
  method ReadCodePoint(content: Bytes, i: nat, end: nat) returns (n: nat, u: Result<Bytes>)
    requires i + 2 <= end < |content| && content[i] == BACKSLASH && content[i + 1] == 0x75 && content[end] == QUOTE
    requires Decode(content[i..end]) != Err(UndefinedBehaviour)
    ensures u.Err? ==> Decode(content[i..end]) == u
    ensures u.Ok? ==> i + n <= end && n <= |content[i..end]| && n > 0
                      && Decode(content[i..end]) == Glue(u.value, Decode(content[i..end][n..]))
  {
    hide Decode, ToUnicode, IsHex;
    ghost var s := content[i..end];
    DecodeShort(s);
    DecodeUnicode(s);
    SliceInside(content, i, end, 2, 6);
    SameUnit(content[i + 2..i + 6], s[2..]);
    var codepoint := CodeUnit(content[i + 2..i + 6]);
    if IsHighSurrogate(codepoint) {
      assert |s| >= 7 ==> s[6] == content[i + 6];
      assert |s| >= 8 ==> s[7] == content[i + 7];
      if i + 7 >= |content| || content[i + 6] != BACKSLASH || content[i + 7] != 0x75 {
        return 0, Err(ParseError(102));
      }
      SliceInside(content, i, end, 8, 12);
      SameUnit(content[i + 8..i + 12], s[8..]);
      var codepoint2 := CodeUnit(content[i + 8..i + 12]);
      SurrogateError(codepoint, codepoint2);
      NeverTooLarge(codepoint, codepoint2);
      return 12, ToUnicode(codepoint, codepoint2);
    } else if IsLowSurrogate(codepoint) {
      return 0, Err(ParseError(102));
    } else {
      return 6, ToUnicode(codepoint, 0);
    }
  }

  lemma SliceInside(content: Bytes, i: nat, end: nat, from: nat, to: nat)
    requires i + to <= end <= |content| && from <= to
    ensures content[i + from..i + to] == content[i..end][from..to] == content[i..end][from..][..to - from]
  {
    var a, b, c := content[i + from..i + to], content[i..end][from..to], content[i..end][from..][..to - from];
    assert |a| == |b| == |c| == to - from;
    assert forall k | 0 <= k < to - from :: a[k] == content[i + from + k] && b[k] == content[i + from + k];
    assert forall k | 0 <= k < to - from :: c[k] == content[i + from + k];
    assert a == b && a == c;
  }

  lemma SameUnit(a: Bytes, s: Bytes)
    requires |a| == 4 && |s| >= 4 && s[..4] == a && HasCodeUnit(s)
    ensures HasCodeUnit(a) && CodeUnit(a) == CodeUnit(s)
  {
    assert s[..4][0] == s[0] && s[..4][1] == s[1] && s[..4][2] == s[2] && s[..4][3] == s[3];
  }
}
