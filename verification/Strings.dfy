/** Strings in JSON text: escaping on the way out (`extra_space`, `dump_escaped`), decoding on the
    way in (`get_string`, `to_unicode`). */
module Strings {
  import opened ByteStrings
  import opened Json
  import opened Scanner
  import opened TokenGrammar

  const QUOTE: byte := 0x22
  const BACKSLASH: byte := 0x5C

  // ---- escaping ----

  /** The letter after the backslash for the characters that have a short escape; 0 for others. */
  function ShortEscape(c: byte): byte {
    if c == 0x22 then 0x22
    else if c == 0x5C then 0x5C
    else if c == 0x08 then 0x62
    else if c == 0x0C then 0x66
    else if c == 0x0A then 0x6E
    else if c == 0x0D then 0x72
    else if c == 0x09 then 0x74
    else 0
  }

  /** `hexify` */
  function HexDigit(n: nat): byte
    requires n < 16
  {
    if n < 10 then 0x30 + n else 0x61 + n - 10
  }

  function EscapedByte(c: byte): Bytes {
    if ShortEscape(c) != 0 then [BACKSLASH, ShortEscape(c)]
    else if c <= 0x1F then [BACKSLASH, 0x75, 0x30, 0x30, HexDigit(c / 16), HexDigit(c % 16)]
    else [c]
  }

  /** What `dump_escaped` writes. */
  function Escaped(s: Bytes): Bytes {
    if s == [] then [] else EscapedByte(s[0]) + Escaped(s[1..])
  }

  /** `extra_space`: a fold over the characters. */
  function ExtraSpace(s: Bytes): nat {
    if s == [] then 0
    else
      var c := s[|s| - 1];
      ExtraSpace(s[..|s| - 1]) + if ShortEscape(c) != 0 then 1 else if c <= 0x1F then 5 else 0
  }

  lemma {:induction false} EscapedSnoc(s: Bytes, c: byte)
    ensures Escaped(s + [c]) == Escaped(s) + EscapedByte(c)
  {
    if s == [] {
      assert [] + [c] == [c] && [c][1..] == [];
    } else {
      assert (s + [c])[1..] == s[1..] + [c];
      EscapedSnoc(s[1..], c);
    }
  }

  /** The space that `extra_space` computes is the space the escapes take. */
  lemma {:induction false} EscapedLength(s: Bytes)
    ensures |Escaped(s)| == |s| + ExtraSpace(s)
  {
    if s != [] {
      var n := |s| - 1;
      EscapedLength(s[..n]);
      EscapedSnoc(s[..n], s[n]);
      assert s == s[..n] + [s[n]];
    }
  }

  lemma {:induction false} NothingToEscape(s: Bytes)
    requires ExtraSpace(s) == 0
    ensures Escaped(s) == s
  {
    if s != [] {
      var n := |s| - 1;
      NothingToEscape(s[..n]);
      EscapedSnoc(s[..n], s[n]);
      assert s == s[..n] + [s[n]];
    }
  }

  lemma {:induction false} ExtraSpaceGrows(s: Bytes, n: nat)
    requires n <= |s|
    ensures ExtraSpace(s[..n]) <= ExtraSpace(s)
    decreases |s|
  {
    if n < |s| {
      ExtraSpaceGrows(s[..|s| - 1], n);
      assert s[..|s| - 1][..n] == s[..n];
    } else {
      assert s[..n] == s;
    }
  }

  lemma NothingWritten()
    ensures Escaped([]) == [] && ExtraSpace([]) == 0
  {
  }

  /** `dump_escaped`: a buffer of the size that `extra_space` gives, full of backslashes, is
      overwritten from left to right. No write leaves the buffer, and the last one fills it. */
  method DumpEscaped(s: Bytes) returns (written: Bytes)
    ensures written == Escaped(s)
  {
    hide Escaped, ExtraSpace, EscapedByte;
    NothingWritten();
    var space := ExtraSpace(s);
    if space == 0 {
      NothingToEscape(s);
      return s;
    }
    var result := new byte[|s| + space](_ => BACKSLASH);
    var pos := 0;
    for i := 0 to |s|
      invariant pos == i + ExtraSpace(s[..i]) <= result.Length
      invariant result[..pos] == Escaped(s[..i])
      invariant forall k | pos <= k < result.Length :: result[k] == BACKSLASH
    {
      RoomFor(s, i);
      pos := WriteEscape(result, pos, s[i]);
    }
    assert s[..|s|] == s;
    assert pos == |s| + space;
    return result[..];
  }

  /** The characters behind a backslash, one after the other. */
  method WriteCodePoint(result: array<byte>, start: nat, chars: Bytes) returns (pos: nat)
    requires start + 1 + |chars| <= result.Length
    requires forall k | start <= k < result.Length :: result[k] == BACKSLASH
    modifies result
    ensures pos == start + 1 + |chars|
    ensures result[..pos] == old(result[..start]) + [BACKSLASH] + chars
    ensures forall k | pos <= k < result.Length :: result[k] == BACKSLASH
  {
    pos := start;
    ghost var front := result[..start] + [BACKSLASH];
    for m := 0 to |chars|
      invariant pos == start + m && result[..pos + 1] == front + chars[..m]
      invariant forall k | pos < k < result.Length :: result[k] == BACKSLASH
    {
      pos := pos + 1;
      result[pos] := chars[m];
      assert chars[..m + 1] == chars[..m] + [chars[m]];
      assert result[..pos + 1] == result[..pos] + [chars[m]];
    }
    pos := pos + 1;
    assert chars[..|chars|] == chars;
  }

  /** The `switch` of `dump_escaped` for one character. */
  method WriteEscape(result: array<byte>, start: nat, c: byte) returns (pos: nat)
    requires start + |EscapedByte(c)| <= result.Length
    requires forall k | start <= k < result.Length :: result[k] == BACKSLASH
    modifies result
    ensures pos == start + |EscapedByte(c)|
    ensures result[..pos] == old(result[..start]) + EscapedByte(c)
    ensures forall k | pos <= k < result.Length :: result[k] == BACKSLASH
  {
    pos := start;
    if ShortEscape(c) != 0 {
      if c != BACKSLASH {
        result[pos + 1] := ShortEscape(c);
      }
      pos := pos + 2;
      assert result[..pos] == result[..start] + [BACKSLASH, ShortEscape(c)];
    } else if c <= 0x1F {
      var chars := [0x75, 0x30, 0x30, HexDigit(c / 16), HexDigit(c % 16)];
      assert EscapedByte(c) == [BACKSLASH] + chars;
      pos := WriteCodePoint(result, start, chars);
    } else {
      result[pos] := c;
      pos := pos + 1;
      assert result[..pos] == result[..start] + [c];
    }
  }

  lemma RoomFor(s: Bytes, i: nat)
    requires i < |s|
    ensures i + ExtraSpace(s[..i]) + |EscapedByte(s[i])| == i + 1 + ExtraSpace(s[..i + 1]) <= |s| + ExtraSpace(s)
    ensures Escaped(s[..i + 1]) == Escaped(s[..i]) + EscapedByte(s[i])
  {
    hide Escaped, ExtraSpace, EscapedByte;
    ExtraSpaceGrows(s, i + 1);
    assert s[..i + 1] == s[..i] + [s[i]];
    EscapedSnoc(s[..i], s[i]);
    ExtraSpaceSnoc(s[..i], s[i]);
  }

  lemma ExtraSpaceSnoc(s: Bytes, c: byte)
    ensures ExtraSpace(s + [c]) + 1 == ExtraSpace(s) + |EscapedByte(c)|
  {
    var t := s + [c];
    assert t[..|t| - 1] == s && t[|t| - 1] == c;
  }

  // ---- decoding ----

  /** The value of a hexadecimal digit (`std::strtoul`). */
  function HexValue(c: byte): nat
    requires IsHex(c)
  {
    if c <= 0x39 then c - 0x30 else if c <= 0x46 then c - 0x37 else c - 0x57
  }

  predicate HasCodeUnit(s: Bytes) {
    |s| >= 4 && IsHex(s[0]) && IsHex(s[1]) && IsHex(s[2]) && IsHex(s[3])
  }

  function CodeUnit(s: Bytes): (n: nat)
    requires HasCodeUnit(s)
    ensures n < 0x1_0000
  {
    0x1000 * HexValue(s[0]) + 0x100 * HexValue(s[1]) + 0x10 * HexValue(s[2]) + HexValue(s[3])
  }

  predicate IsHighSurrogate(n: nat) {
    0xD800 <= n <= 0xDBFF
  }

  predicate IsLowSurrogate(n: nat) {
    0xDC00 <= n <= 0xDFFF
  }

  /** `to_unicode` */
  function ToUnicode(first: nat, second: nat): Result<Bytes> {
    if IsHighSurrogate(first) && !IsLowSurrogate(second) then Err(ParseError(102))
    else
      var point := if IsHighSurrogate(first) then first * 0x400 + second - 0x35FDC00 else first;
      if point < 0x80 then Ok([point])
      else if point <= 0x7FF then Ok([0xC0 + point / 0x40 % 0x20, 0x80 + point % 0x40])
      else if point <= 0xFFFF then
        Ok([0xE0 + point / 0x1000 % 0x10, 0x80 + point / 0x40 % 0x40, 0x80 + point % 0x40])
      else if point <= 0x10FFFF then
        Ok([0xF0 + point / 0x4_0000 % 0x8, 0x80 + point / 0x1000 % 0x40, 0x80 + point / 0x40 % 0x40,
            0x80 + point % 0x40])
      else Err(ParseError(103))
  }

  /** Four hexadecimal digits never name a code point that is too large. */
  lemma NeverTooLarge(first: nat, second: nat)
    requires first < 0x1_0000 && second < 0x1_0000
    ensures ToUnicode(first, second).Err? <==> IsHighSurrogate(first) && !IsLowSurrogate(second)
    ensures ToUnicode(first, second).Ok? ==> 1 <= |ToUnicode(first, second).value| <= 4
  {
  }

  /** The character for the letter after a backslash. */
  function Unescaped(c: byte): Bytes {
    if c == 0x74 then [0x09]
    else if c == 0x62 then [0x08]
    else if c == 0x66 then [0x0C]
    else if c == 0x6E then [0x0A]
    else if c == 0x72 then [0x0D]
    else if c == 0x5C || c == 0x2F || c == 0x22 then [c]
    else []
  }

  function Glue(front: Bytes, r: Result<Bytes>): Result<Bytes> {
    match r
    case Ok(rest) => Ok(front + rest)
    case Err(e) => Err(e)
  }

  /** `get_string`: the value of what stands between the quotes. Four hexadecimal digits that are not
      there, which the scanner lets no token lack, would be read from elsewhere. */
  function Decode(s: Bytes): Result<Bytes>
    decreases |s|
  {
    if s == [] then Ok([])
    else if s[0] != BACKSLASH then Glue([s[0]], Decode(s[1..]))
    else if |s| == 1 then Err(UndefinedBehaviour)
    else if s[1] != 0x75 then Glue(Unescaped(s[1]), Decode(s[2..]))
    else if !HasCodeUnit(s[2..]) then Err(UndefinedBehaviour)
    else
      var first := CodeUnit(s[2..]);
      if IsHighSurrogate(first) then
        if |s| < 8 || s[6] != BACKSLASH || s[7] != 0x75 then Err(ParseError(102))
        else if !HasCodeUnit(s[8..]) then Err(UndefinedBehaviour)
        else
          var u :- ToUnicode(first, CodeUnit(s[8..]));
          Glue(u, Decode(s[12..]))
      else if IsLowSurrogate(first) then Err(ParseError(102))
      else
        var u :- ToUnicode(first, 0);
        Glue(u, Decode(s[6..]))
  }

  lemma ControlByte(c: byte)
    requires c <= 0x1F
    ensures HasCodeUnit([0x30, 0x30, HexDigit(c / 16), HexDigit(c % 16)])
    ensures CodeUnit([0x30, 0x30, HexDigit(c / 16), HexDigit(c % 16)]) == c
    ensures ToUnicode(c, 0) == Ok([c])
  {
  }

  lemma DecodeByte(c: byte, rest: Bytes)
    ensures Decode(EscapedByte(c) + rest) == Glue([c], Decode(rest))
  {
    var e := EscapedByte(c);
    var s := e + rest;
    if ShortEscape(c) != 0 {
      assert s[2..] == rest;
      assert Unescaped(ShortEscape(c)) == [c] && ShortEscape(c) != 0x75;
    } else if c <= 0x1F {
      ControlByte(c);
      var hex := [0x30, 0x30, HexDigit(c / 16), HexDigit(c % 16)];
      assert s[6..] == rest;
      assert s[2..][..4] == hex;
      SameHex(s[2..], hex);
    } else {
      assert s[1..] == rest;
    }
  }

  lemma SameHex(s: Bytes, hex: Bytes)
    requires |s| >= 4 && |hex| == 4 && s[..4] == hex && HasCodeUnit(hex)
    ensures HasCodeUnit(s) && CodeUnit(s) == CodeUnit(hex)
  {
    assert s[..4][0] == s[0] && s[..4][1] == s[1] && s[..4][2] == s[2] && s[..4][3] == s[3];
  }

  /** Decoding undoes escaping, for every byte string. */
  lemma {:induction false} DecodeEscaped(s: Bytes)
    ensures Decode(Escaped(s)) == Ok(s)
  {
    hide Decode, EscapedByte;
    if s == [] {
      DecodeNothing();
    } else {
      DecodeByte(s[0], Escaped(s[1..]));
      DecodeEscaped(s[1..]);
      assert s == [s[0]] + s[1..];
    }
  }

  lemma DecodeNothing()
    ensures Decode([]) == Ok([])
  {
  }
}
