/** How `dump` spells a document: the pretty-printed text is the compact text with line breaks, indentation and a
    space behind every colon, and characters are escaped as section 7 of RFC 7159 allows. */
module Layout {
  import opened ByteStrings
  import opened Decimal
  import opened Json
  import opened Serializer
  import opened Strings
  import opened Tokens

  // ---- formatting a compact text ----

  predicate Opens(c: byte) {
    [c] == Ascii("[") || [c] == Ascii("{")
  }

  predicate Closes(c: byte) {
    [c] == Ascii("]") || [c] == Ascii("}")
  }

  /** A line break and the indentation of a depth. The indentation is an unsigned 32-bit number. */
  function NewLine(depth: int, step: nat): Bytes {
    Ascii("\n") + seq(Indentation(depth, step), _ => 0x20)
  }

  function Indentation(depth: int, step: nat): nat {
    depth * step % 0x1_0000_0000
  }

  /** Line breaks go behind opening brackets and commas and before closing brackets, unless the brackets are empty;
      strings are copied. */
  function Format(s: Bytes, depth: int, step: nat): Bytes
    decreases |s|
  {
    if s == [] then []
    else if [s[0]] == Ascii("\"") then [s[0]] + FormatString(s[1..], depth, step)
    else if Opens(s[0]) && |s| > 1 && Closes(s[1]) then s[..2] + Format(s[2..], depth, step)
    else if Opens(s[0]) then [s[0]] + NewLine(depth + 1, step) + Format(s[1..], depth + 1, step)
    else if Closes(s[0]) then NewLine(depth - 1, step) + [s[0]] + Format(s[1..], depth - 1, step)
    else if [s[0]] == Ascii(",") then [s[0]] + NewLine(depth, step) + Format(s[1..], depth, step)
    else if [s[0]] == Ascii(":") then Ascii(": ") + Format(s[1..], depth, step)
    else [s[0]] + Format(s[1..], depth, step)
  }

  /** The rest of a string: a backslash takes the next byte with it. */
  function FormatString(s: Bytes, depth: int, step: nat): Bytes
    decreases |s|
  {
    if s == [] then []
    else if [s[0]] == Ascii("\"") then [s[0]] + Format(s[1..], depth, step)
    else if [s[0]] == Ascii("\\") && |s| > 1 then s[..2] + FormatString(s[2..], depth, step)
    else [s[0]] + FormatString(s[1..], depth, step)
  }

  // ---- the characters of strings ----

  /** How one byte of a string is spelled. */
  lemma EscapeSpelling(c: byte)
    ensures [c] == Ascii("\"") ==> EscapedByte(c) == Ascii("\\\"")
    ensures [c] == Ascii("\\") ==> EscapedByte(c) == Ascii("\\\\")
    ensures c == 0x08 ==> EscapedByte(c) == Ascii("\\b")
    ensures c == 0x09 ==> EscapedByte(c) == Ascii("\\t")
    ensures c == 0x0A ==> EscapedByte(c) == Ascii("\\n")
    ensures c == 0x0C ==> EscapedByte(c) == Ascii("\\f")
    ensures c == 0x0D ==> EscapedByte(c) == Ascii("\\r")
    ensures c < 0x20 && c !in [0x08, 0x09, 0x0A, 0x0C, 0x0D] ==>
              EscapedByte(c) == Ascii("\\u00") + [Ascii("0123456789abcdef")[c / 16], Ascii("0123456789abcdef")[c % 16]]
    ensures 0x20 <= c && [c] != Ascii("\"") && [c] != Ascii("\\") ==> EscapedByte(c) == [c]
  {
    Spelled();
    if c < 0x20 {
      LowerDigit(c / 16);
      LowerDigit(c % 16);
    }
  }

  lemma Spelled()
    ensures Ascii("\"") == [0x22] && Ascii("\\") == [0x5C]
    ensures Ascii("\\\"") == [0x5C, 0x22] && Ascii("\\\\") == [0x5C, 0x5C]
    ensures Ascii("\\b") == [0x5C, 0x62] && Ascii("\\t") == [0x5C, 0x74] && Ascii("\\n") == [0x5C, 0x6E]
    ensures Ascii("\\f") == [0x5C, 0x66] && Ascii("\\r") == [0x5C, 0x72] && Ascii("\\u00") == [0x5C, 0x75, 0x30, 0x30]
  {
  }

  lemma LowerDigit(n: nat)
    requires n < 16
    ensures Ascii("0123456789abcdef")[n] == HexDigit(n)
  {
  }

  // ---- formatting byte by byte ----

  predicate PlainByte(c: byte) {
    c != 0x22 && c != 0x5B && c != 0x5D && c != 0x7B && c != 0x7D && c != 0x2C && c != 0x3A
  }

  lemma Marks()
    ensures Ascii("[") == [0x5B] && Ascii("]") == [0x5D] && Ascii("{") == [0x7B] && Ascii("}") == [0x7D]
    ensures Ascii(",") == [0x2C] && Ascii(":") == [0x3A] && Ascii(": ") == [0x3A, 0x20]
    ensures Ascii("\"") == [0x22] && Ascii("\\") == [0x5C] && Ascii("\n") == [0x0A]
  {
  }

  lemma FormatByte(c: byte, rest: Bytes, depth: int, step: nat)
    ensures Format([], depth, step) == []
    ensures PlainByte(c) ==> Format([c] + rest, depth, step) == [c] + Format(rest, depth, step)
    ensures c == 0x22 ==> Format([c] + rest, depth, step) == [c] + FormatString(rest, depth, step)
    ensures c == 0x2C ==> Format([c] + rest, depth, step) == [c] + NewLine(depth, step) + Format(rest, depth, step)
    ensures c == 0x3A ==> Format([c] + rest, depth, step) == [c, 0x20] + Format(rest, depth, step)
    ensures c == 0x5D || c == 0x7D ==>
              Format([c] + rest, depth, step) == NewLine(depth - 1, step) + [c] + Format(rest, depth - 1, step)
    ensures (c == 0x5B || c == 0x7B) && rest != [] && rest[0] != 0x5D && rest[0] != 0x7D ==>
              Format([c] + rest, depth, step) == [c] + NewLine(depth + 1, step) + Format(rest, depth + 1, step)
  {
    hide NewLine, FormatString;
    Marks();
    hide Ascii;
    assert ([c] + rest)[1..] == rest;
  }

  /** An empty pair of brackets. */
  lemma FormatEmpty(opening: byte, closing: byte, rest: Bytes, depth: int, step: nat)
    requires (opening == 0x5B && closing == 0x5D) || (opening == 0x7B && closing == 0x7D)
    ensures Format([opening, closing] + rest, depth, step) == [opening, closing] + Format(rest, depth, step)
  {
    hide NewLine, FormatString;
    Marks();
    hide Ascii;
    var s := [opening, closing] + rest;
    assert s[..2] == [opening, closing] && s[2..] == rest;
  }

  predicate Plain(s: Bytes) {
    forall i | 0 <= i < |s| :: PlainByte(s[i])
  }

  lemma {:induction false} FormatPlain(s: Bytes, rest: Bytes, depth: int, step: nat)
    requires Plain(s)
    ensures Format(s + rest, depth, step) == s + Format(rest, depth, step)
  {
    hide Format, PlainByte;
    if s == [] {
      assert s + rest == rest;
    } else {
      assert s + rest == [s[0]] + (s[1..] + rest);
      FormatByte(s[0], s[1..] + rest, depth, step);
      FormatPlain(s[1..], rest, depth, step);
      assert s == [s[0]] + s[1..];
    }
  }

  lemma StringByte(c: byte, rest: Bytes, depth: int, step: nat)
    ensures c == 0x22 ==> FormatString([c] + rest, depth, step) == [c] + Format(rest, depth, step)
    ensures c != 0x22 && c != 0x5C ==> FormatString([c] + rest, depth, step) == [c] + FormatString(rest, depth, step)
  {
    hide Format;
    Marks();
    hide Ascii;
    assert ([c] + rest)[1..] == rest;
  }

  lemma StringPair(c: byte, rest: Bytes, depth: int, step: nat)
    ensures FormatString([0x5C, c] + rest, depth, step) == [0x5C, c] + FormatString(rest, depth, step)
  {
    hide Format;
    Marks();
    hide Ascii;
    var s := [0x5C, c] + rest;
    assert s[..2] == [0x5C, c] && s[2..] == rest;
  }

  lemma FormatEscape(c: byte, rest: Bytes, depth: int, step: nat)
    ensures FormatString(EscapedByte(c) + rest, depth, step) == EscapedByte(c) + FormatString(rest, depth, step)
  {
    hide FormatString;
    if ShortEscape(c) != 0 {
      StringPair(ShortEscape(c), rest, depth, step);
    } else if c <= 0x1F {
      var x, y := HexDigit(c / 16), HexDigit(c % 16);
      var all: Bytes := [0x5C, 0x75, 0x30, 0x30, x, y];
      assert all + rest == [0x5C, 0x75] + ([0x30] + ([0x30] + ([x] + ([y] + rest))));
      StringPair(0x75, [0x30] + ([0x30] + ([x] + ([y] + rest))), depth, step);
      StringByte(0x30, [0x30] + ([x] + ([y] + rest)), depth, step);
      StringByte(0x30, [x] + ([y] + rest), depth, step);
      StringByte(x, [y] + rest, depth, step);
      StringByte(y, rest, depth, step);
    } else {
      StringByte(c, rest, depth, step);
    }
  }

  lemma {:induction false} FormatEscaped(s: Bytes, rest: Bytes, depth: int, step: nat)
    ensures FormatString(Escaped(s) + ([0x22] + rest), depth, step) == Escaped(s) + ([0x22] + Format(rest, depth, step))
    decreases |s|
  {
    hide Format, FormatString, EscapedByte;
    if s == [] {
      assert Escaped(s) + ([0x22] + rest) == [0x22] + rest;
      StringByte(0x22, rest, depth, step);
    } else {
      var e, more := EscapedByte(s[0]), Escaped(s[1..]) + ([0x22] + rest);
      assert Escaped(s) + ([0x22] + rest) == e + more;
      FormatEscape(s[0], more, depth, step);
      FormatEscaped(s[1..], rest, depth, step);
    }
  }

  lemma FormatText(s: Bytes, rest: Bytes, depth: int, step: nat)
    ensures Format(StringText(s) + rest, depth, step) == StringText(s) + Format(rest, depth, step)
  {
    hide Format, FormatString, Escaped;
    var more := Escaped(s) + ([0x22] + rest);
    assert StringText(s) + rest == [0x22] + more;
    FormatByte(0x22, more, depth, step);
    FormatEscaped(s, rest, depth, step);
  }

  // ---- the pretty text is the formatted compact text ----

  /** The texts of the floating-point numbers in a document are not empty and hold no brackets, commas, colons or
      quotes. */
  predicate FloatsPlain(j: Json, style: Style) {
    match j
    case Float(bits) => style.dumpFloat(bits) != [] && Plain(style.dumpFloat(bits))
    case Arr(a) => forall x | x in a :: FloatsPlain(x, style)
    case Obj(m) => forall k | k in m :: FloatsPlain(m[k], style)
    case _ => true
  }

  lemma DumpStarts(j: Json, style: Style, indent: nat)
    requires FloatsPlain(j, style)
    ensures Dump(j, style, indent) != []
    ensures Dump(j, style, indent)[0] != 0x5D && Dump(j, style, indent)[0] != 0x7D
  {
    hide DumpItems, DumpMembers, Escaped, ToDecimal, SortedKeys;
    ValueToDecimal(0);
  }

  lemma LeadIsNewLine(style: Style, depth: nat)
    requires style.pretty
    ensures Lead(style, Indentation(depth, style.indentStep)) == NewLine(depth, style.indentStep)
    ensures Deeper(style, Indentation(depth, style.indentStep)) == Indentation(depth + 1, style.indentStep)
  {
    Marks();
    hide Ascii;
    Wraps(depth * style.indentStep, style.indentStep);
    assert (depth + 1) * style.indentStep == depth * style.indentStep + style.indentStep;
  }

  lemma Wraps(a: nat, b: nat)
    ensures (a % 0x1_0000_0000 + b) % 0x1_0000_0000 == (a + b) % 0x1_0000_0000
  {
  }

  lemma ScalarsPlain(j: Json, style: Style, indent: nat)
    requires FloatsPlain(j, style) && !j.Arr? && !j.Obj? && !j.Str?
    ensures Plain(Dump(j, style, indent))
    ensures forall other, n | other == style.(pretty := !style.pretty) :: Dump(j, other, n) == Dump(j, style, indent)
  {
    hide ToDecimal;
    if j.Int? {
      DigitsPlain(if j.i < 0 then -1 * j.i else j.i);
    } else if j.Uint? {
      DigitsPlain(j.u);
    }
  }

  lemma DigitsPlain(n: nat)
    ensures Plain(ToDecimal(n)) && Plain([MINUS] + ToDecimal(n))
  {
    hide ToDecimal;
    var s := [MINUS] + ToDecimal(n);
    assert forall i | 0 <= i < |s| :: i == 0 || s[i] == ToDecimal(n)[i - 1];
  }

  /** Two styles that differ in the line breaks alone. */
  ghost predicate Twins(compact: Style, pretty: Style) {
    !compact.pretty && pretty == compact.(pretty := true)
  }

  /** The compact text of a document, formatted from a depth on, is the pretty text at that depth. */
  lemma {:induction false} FormatDump(j: Json, compact: Style, pretty: Style, n: nat, depth: nat, rest: Bytes)
    requires Twins(compact, pretty) && FloatsPlain(j, compact)
    ensures var step := compact.indentStep;
            Format(Dump(j, compact, n) + rest, depth, step) ==
            Dump(j, pretty, Indentation(depth, step)) + Format(rest, depth, step)
    decreases j, 2
  {
    hide Format, Dump, Plain, Indentation, Escaped, FloatsPlain;
    var step := compact.indentStep;
    if j.Str? {
      TextText(j, compact, n);
      TextText(j, pretty, Indentation(depth, step));
      FormatText(j.s, rest, depth, step);
    } else if j == Arr([]) || j == Obj(map[]) {
      EmptyText(j, compact, n);
      EmptyText(j, pretty, Indentation(depth, step));
      FormatEmpty(if j.Arr? then 0x5B else 0x7B, if j.Arr? then 0x5D else 0x7D, rest, depth, step);
    } else if j.Arr? {
      FormatArray(j, compact, pretty, n, depth, rest);
    } else if j.Obj? {
      FormatObject(j, compact, pretty, n, depth, rest);
    } else {
      SamePlain(j, compact, pretty);
      ScalarsPlain(j, compact, n);
      ScalarsPlain(j, pretty, Indentation(depth, step));
      FormatPlain(Dump(j, compact, n), rest, depth, step);
    }
  }

  lemma TextText(j: Json, style: Style, n: nat)
    requires j.Str?
    ensures Dump(j, style, n) == StringText(j.s)
  {
    hide StringText;
  }

  lemma EmptyText(j: Json, style: Style, n: nat)
    requires j == Arr([]) || j == Obj(map[])
    ensures Dump(j, style, n) == if j.Arr? then [0x5B, 0x5D] else [0x7B, 0x7D]
  {
  }

  lemma {:induction false} SamePlain(j: Json, compact: Style, pretty: Style)
    requires Twins(compact, pretty) && FloatsPlain(j, compact) && !j.Arr? && !j.Obj?
    ensures FloatsPlain(j, pretty)
  {
  }

  lemma LeadIsNothing(style: Style, n: nat)
    requires !style.pretty
    ensures Lead(style, n) == [] && ColonText(style) == [0x3A]
  {
  }

  lemma {:induction false} FormatArray(j: Json, compact: Style, pretty: Style, n: nat, depth: nat, rest: Bytes)
    requires Twins(compact, pretty) && FloatsPlain(j, compact) && j.Arr? && j.items != []
    ensures var step := compact.indentStep;
            Format(Dump(j, compact, n) + rest, depth, step) ==
            Dump(j, pretty, Indentation(depth, step)) + Format(rest, depth, step)
    decreases j, 1, 0
  {
    hide Format, Dump, Indentation, FloatsPlain, DumpItems, NewLine, Lead, Deeper;
    var step, m := compact.indentStep, Deeper(compact, n);
    var items, tail := DumpItems(j, 0, compact, m), [0x5D] + rest;
    DumpArrayText(j, compact, n);
    DumpArrayText(j, pretty, Indentation(depth, step));
    LeadIsNothing(compact, n);
    LeadIsNewLine(pretty, depth);
    assert Dump(j, compact, n) + rest == [0x5B] + (items + tail);
    ItemsStart(j, 0, compact, m);
    FormatByte(0x5B, items + tail, depth, step);
    FormatItems(j, 0, compact, pretty, m, depth + 1, tail);
    FormatByte(0x5D, rest, depth + 1, step);
    var all := DumpItems(j, 0, pretty, Indentation(depth + 1, step));
    assert [0x5B] + (all + (NewLine(depth, step) + [0x5D] + Format(rest, depth, step))) ==
           [0x5B] + all + NewLine(depth, step) + [0x5D] + Format(rest, depth, step);
    assert [0x5B] + NewLine(depth + 1, step) + Format(items + tail, depth + 1, step) ==
           [0x5B] + (NewLine(depth + 1, step) + Format(items + tail, depth + 1, step));
  }

  lemma ItemsStart(j: Json, k: nat, style: Style, n: nat)
    requires j.Arr? && k < |j.items| && !style.pretty && FloatsPlain(j, style)
    ensures DumpItems(j, k, style, n) != []
    ensures DumpItems(j, k, style, n)[0] != 0x5D && DumpItems(j, k, style, n)[0] != 0x7D
  {
    hide Dump;
    DumpStarts(j.items[k], style, n);
    LeadIsNothing(style, n);
    assert DumpItems(j, k, style, n)[0] == Dump(j.items[k], style, n)[0];
  }

  lemma {:induction false} FormatItems(j: Json, k: nat, compact: Style, pretty: Style, n: nat, depth: nat, tail: Bytes)
    requires Twins(compact, pretty) && FloatsPlain(j, compact) && j.Arr? && k < |j.items|
    ensures var step := compact.indentStep;
            NewLine(depth, step) + Format(DumpItems(j, k, compact, n) + tail, depth, step) ==
            DumpItems(j, k, pretty, Indentation(depth, step)) + Format(tail, depth, step)
    decreases j, 0, |j.items| - k
  {
    hide Format, Dump, Indentation, NewLine, Lead, Deeper;
    var step := compact.indentStep;
    var first := Dump(j.items[k], compact, n);
    var more := if k + 1 == |j.items| then tail else [COMMA] + (DumpItems(j, k + 1, compact, n) + tail);
    LeadIsNothing(compact, n);
    LeadIsNewLine(pretty, depth);
    ItemsText(j, k, compact, n, tail);
    ItemsText(j, k, pretty, Indentation(depth, step), Format(tail, depth, step));
    assert DumpItems(j, k, compact, n) + tail == first + more;
    FormatDump(j.items[k], compact, pretty, n, depth, more);
    if k + 1 < |j.items| {
      FormatByte(COMMA, DumpItems(j, k + 1, compact, n) + tail, depth, step);
      FormatItems(j, k + 1, compact, pretty, n, depth, tail);
      CommaJoins(NewLine(depth, step), Format(DumpItems(j, k + 1, compact, n) + tail, depth, step));
    }
    Regroup([], NewLine(depth, step), Dump(j.items[k], pretty, Indentation(depth, step)), Format(more, depth, step));
  }

  lemma CommaJoins(line: Bytes, s: Bytes)
    ensures [COMMA] + line + s == [COMMA] + (line + s)
  {
  }

  lemma ItemsText(j: Json, k: nat, style: Style, n: nat, tail: Bytes)
    requires j.Arr? && k < |j.items|
    ensures DumpItems(j, k, style, n) + tail ==
            Lead(style, n) + (Dump(j.items[k], style, n)
                              + if k + 1 == |j.items| then tail
                                else [COMMA] + (DumpItems(j, k + 1, style, n) + tail))
  {
    hide Dump, Lead;
  }

  lemma {:induction false} FormatObject(j: Json, compact: Style, pretty: Style, n: nat, depth: nat, rest: Bytes)
    requires Twins(compact, pretty) && FloatsPlain(j, compact) && j.Obj? && j.members != map[]
    ensures var step := compact.indentStep;
            Format(Dump(j, compact, n) + rest, depth, step) ==
            Dump(j, pretty, Indentation(depth, step)) + Format(rest, depth, step)
    decreases j, 1, 0
  {
    hide Format, Dump, Indentation, FloatsPlain, DumpMembers, NewLine, Lead, Deeper, SortedKeys;
    var step, m := compact.indentStep, Deeper(compact, n);
    var keys := SortedKeys(j.members.Keys);
    assert |keys| > 0;
    var members, tail := DumpMembers(j, keys, compact, m), [0x7D] + rest;
    DumpObjectText(j, compact, n);
    DumpObjectText(j, pretty, Indentation(depth, step));
    LeadIsNothing(compact, n);
    LeadIsNewLine(pretty, depth);
    assert Dump(j, compact, n) + rest == [0x7B] + (members + tail);
    MembersStart(j, keys, compact, m);
    FormatByte(0x7B, members + tail, depth, step);
    FormatMembers(j, keys, compact, pretty, m, depth + 1, tail);
    FormatByte(0x7D, rest, depth + 1, step);
    var all := DumpMembers(j, keys, pretty, Indentation(depth + 1, step));
    assert [0x7B] + (all + (NewLine(depth, step) + [0x7D] + Format(rest, depth, step))) ==
           [0x7B] + all + NewLine(depth, step) + [0x7D] + Format(rest, depth, step);
    assert [0x7B] + NewLine(depth + 1, step) + Format(members + tail, depth + 1, step) ==
           [0x7B] + (NewLine(depth + 1, step) + Format(members + tail, depth + 1, step));
  }

  lemma MembersStart(j: Json, keys: seq<Bytes>, style: Style, n: nat)
    requires j.Obj? && keys != [] && (forall k | k in keys :: k in j.members) && !style.pretty
    ensures DumpMembers(j, keys, style, n) != [] && DumpMembers(j, keys, style, n)[0] == 0x22
  {
    hide Dump, Escaped;
    LeadIsNothing(style, n);
    assert DumpMember(j, keys[0], style, n)[0] == 0x22;
  }

  lemma {:induction false} FormatMembers(j: Json, keys: seq<Bytes>, compact: Style, pretty: Style, n: nat, depth: nat,
                                         tail: Bytes)
    requires Twins(compact, pretty) && FloatsPlain(j, compact)
    requires j.Obj? && keys != [] && forall k | k in keys :: k in j.members
    ensures var step := compact.indentStep;
            NewLine(depth, step) + Format(DumpMembers(j, keys, compact, n) + tail, depth, step) ==
            DumpMembers(j, keys, pretty, Indentation(depth, step)) + Format(tail, depth, step)
    decreases j, 0, |keys| + 1
  {
    hide Format, Dump, Indentation, NewLine, Lead, Deeper, StringText, ColonText;
    var step := compact.indentStep;
    var indent := Indentation(depth, step);
    var more := if |keys| == 1 then tail else [COMMA] + (DumpMembers(j, keys[1..], compact, n) + tail);
    MembersText(j, keys, compact, n, tail);
    MembersText(j, keys, pretty, indent, Format(tail, depth, step));
    FormatMember(j, keys[0], compact, pretty, n, depth, more);
    if |keys| > 1 {
      FormatByte(COMMA, DumpMembers(j, keys[1..], compact, n) + tail, depth, step);
      FormatMembers(j, keys[1..], compact, pretty, n, depth, tail);
      CommaJoins(NewLine(depth, step), Format(DumpMembers(j, keys[1..], compact, n) + tail, depth, step));
    }
  }

  lemma MembersText(j: Json, keys: seq<Bytes>, style: Style, n: nat, tail: Bytes)
    requires j.Obj? && keys != [] && forall k | k in keys :: k in j.members
    ensures DumpMembers(j, keys, style, n) + tail ==
            DumpMember(j, keys[0], style, n)
            + if |keys| == 1 then tail else [COMMA] + (DumpMembers(j, keys[1..], style, n) + tail)
  {
    hide DumpMember;
  }

  lemma {:induction false} FormatMember(j: Json, key: Bytes, compact: Style, pretty: Style, n: nat, depth: nat,
                                        more: Bytes)
    requires Twins(compact, pretty) && FloatsPlain(j, compact) && j.Obj? && key in j.members
    ensures var step := compact.indentStep;
            NewLine(depth, step) + Format(DumpMember(j, key, compact, n) + more, depth, step) ==
            DumpMember(j, key, pretty, Indentation(depth, step)) + Format(more, depth, step)
    decreases j, 0, 0
  {
    hide Format, Dump, Indentation, NewLine, Lead, Deeper, StringText;
    var step := compact.indentStep;
    var indent := Indentation(depth, step);
    var text, value := StringText(key), Dump(j.members[key], compact, n) + more;
    LeadIsNothing(compact, n);
    LeadIsNewLine(pretty, depth);
    assert DumpMember(j, key, compact, n) + more == text + ([0x3A] + value);
    FormatText(key, [0x3A] + value, depth, step);
    FormatByte(0x3A, value, depth, step);
    FormatDump(j.members[key], compact, pretty, n, depth, more);
    var line, written, end := NewLine(depth, step), Dump(j.members[key], pretty, indent), Format(more, depth, step);
    assert line + (text + ([0x3A, 0x20] + (written + end))) == line + text + [0x3A, 0x20] + written + end;
  }

  /** `dump` with an indent writes the formatted text that `dump` without one writes. */
  lemma PrettyIsFormatted(j: Json, compact: Style, pretty: Style)
    requires Twins(compact, pretty) && FloatsPlain(j, compact)
    ensures Dump(j, pretty, 0) == Format(Dump(j, compact, 0), 0, compact.indentStep)
  {
    hide Format, Dump, FloatsPlain;
    var text := Dump(j, compact, 0);
    FormatDump(j, compact, pretty, 0, 0, []);
    FormatByte(0, [], 0, compact.indentStep);
    assert text + [] == text && Dump(j, pretty, 0) + [] == Dump(j, pretty, 0);
    assert Indentation(0, compact.indentStep) == 0;
  }
}
