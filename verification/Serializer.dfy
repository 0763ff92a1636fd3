/** The serializer: `dump`, compact or pretty-printed. */
module Serializer {
  import opened ByteStrings
  import opened Decimal
  import opened Json
  import opened Strings
  import opened Tokens

  /** How to print. `dumpFloat` stands for `dump_float`, which is `snprintf` at heart. */
  datatype Style = Style(pretty: bool, indentStep: nat, dumpFloat: uint64 -> Bytes)

  const COMMA: byte := 0x2C
  const COLON: byte := 0x3A
  const NEWLINE: byte := 0x0A
  const SPACE: byte := 0x20

  /** What `dump_integer` writes. */
  function IntegerText(x: int): Bytes {
    if x < 0 then [MINUS] + ToDecimal(-x) else ToDecimal(x)
  }

  function Spaces(n: nat): (s: Bytes)
    ensures |s| == n
  {
    seq(n, _ => SPACE)
  }

  /** `current_indent + indent_step`, as unsigned int. */
  function Deeper(style: Style, indent: nat): nat {
    (indent + style.indentStep) % 0x1_0000_0000
  }

  /** The white space in front of an element or a closing bracket. */
  function Lead(style: Style, indent: nat): Bytes {
    if style.pretty then [NEWLINE] + Spaces(indent) else []
  }

  function StringText(s: Bytes): Bytes {
    [QUOTE] + Escaped(s) + [QUOTE]
  }

  function ColonText(style: Style): Bytes {
    if style.pretty then [COLON, SPACE] else [COLON]
  }

  /** What `dump` writes. */
  function Dump(j: Json, style: Style, indent: nat): Bytes
    decreases j, 1, 0
  {
    match j
    case Null => NULL_TEXT
    case Bool(b) => if b then TRUE_TEXT else FALSE_TEXT
    case Int(i) => IntegerText(i)
    case Uint(u) => IntegerText(u)
    case Float(bits) => style.dumpFloat(bits)
    case Str(s) => StringText(s)
    case Arr(a) =>
      if a == [] then [0x5B, 0x5D]
      else [0x5B] + DumpItems(j, 0, style, Deeper(style, indent)) + Lead(style, indent) + [0x5D]
    case Obj(m) =>
      if m == map[] then [0x7B, 0x7D]
      else [0x7B] + DumpMembers(j, SortedKeys(m.Keys), style, Deeper(style, indent)) + Lead(style, indent) + [0x7D]
  }

  /** The elements from number `k` on, separated by commas. */
  function DumpItems(j: Json, k: nat, style: Style, indent: nat): Bytes
    requires j.Arr? && k < |j.items|
    decreases j, 0, |j.items| - k
  {
    Lead(style, indent) + Dump(j.items[k], style, indent)
    + if k + 1 == |j.items| then [] else [COMMA] + DumpItems(j, k + 1, style, indent)
  }

  function DumpMember(j: Json, key: Bytes, style: Style, indent: nat): Bytes
    requires j.Obj? && key in j.members
    decreases j, 0, 0
  {
    Lead(style, indent) + StringText(key) + ColonText(style) + Dump(j.members[key], style, indent)
  }

  function DumpMembers(j: Json, keys: seq<Bytes>, style: Style, indent: nat): Bytes
    requires j.Obj? && keys != [] && forall k | k in keys :: k in j.members
    decreases j, 0, |keys|
  {
    DumpMember(j, keys[0], style, indent)
    + if |keys| == 1 then [] else [COMMA] + DumpMembers(j, keys[1..], style, indent)
  }

  /** The stream that is written to. */
  class OutputStream {
    var written: Bytes

    constructor ()
      ensures written == []
    {
      written := [];
    }

    method Put(c: byte)
      modifies this
      ensures written == old(written) + [c]
    {
      written := written + [c];
    }

    method Write(s: Bytes)
      modifies this
      ensures written == old(written) + s
    {
      written := written + s;
    }
  }

  /** The truncated remainder and quotient of C++. */
  function Digit(x: int): nat {
    if x < 0 then (-x) % 10 else x % 10
  }

  function Quotient(x: int): int {
    if x < 0 then -((-x) / 10) else x / 10
  }

  function Reversed(s: Bytes): Bytes {
    if s == [] then [] else Reversed(s[1..]) + [s[0]]
  }

  lemma {:induction false} ReversedSnoc(s: Bytes, c: byte)
    ensures Reversed(s + [c]) == [c] + Reversed(s)
  {
    if s == [] {
      assert [c][1..] == [] && [] + [c] == [c];
    } else {
      assert (s + [c])[1..] == s[1..] + [c];
      ReversedSnoc(s[1..], c);
    }
  }

  /** The digits of a number, without those of zero. */
  function Digits(x: nat): Bytes {
    if x == 0 then [] else ToDecimal(x)
  }

  lemma LastDigit(x: int)
    requires x != 0
    ensures Digits(Abs(x)) == Digits(Abs(Quotient(x))) + [DIGIT_ZERO + Digit(x)]
    ensures Abs(Quotient(x)) < Abs(x) && (Quotient(x) == 0 || (Quotient(x) < 0) == (x < 0))
  {
  }

  lemma {:induction false} DigitsFit(x: nat, n: nat, limit: nat)
    requires limit == PowerOfTen(n) && x < limit
    ensures |Digits(x)| <= n
    decreases n
  {
    if x != 0 {
      LastDigit(x);
      DigitsFit(x / 10, n - 1, PowerOfTen(n - 1));
    }
  }

  function PowerOfTen(n: nat): nat {
    if n == 0 then 1 else 10 * PowerOfTen(n - 1)
  }

  lemma TwentyDigits()
    ensures TWO_TO_THE_64 < PowerOfTen(20)
  {
    assert PowerOfTen(10) == 10_000_000_000;
  }

  /** One digit moves from the number to the buffer. */
  lemma DigitMoves(rest: int, buffer: Bytes)
    requires rest != 0
    ensures Digits(Abs(rest)) + Reversed(buffer) ==
            Digits(Abs(Quotient(rest))) + Reversed(buffer + [DIGIT_ZERO + Digit(rest)])
    ensures |Digits(Abs(rest))| == |Digits(Abs(Quotient(rest)))| + 1 && Abs(Quotient(rest)) < Abs(rest)
  {
    hide Digits, Reversed;
    LastDigit(rest);
    ReversedSnoc(buffer, DIGIT_ZERO + Digit(rest));
  }

  /** The loop of `dump_integer`: the digits go into the buffer from the last one to the first. The
      assertion that the number has been processed completely holds. */
  method FillNumberBuffer(x: int, numberBuffer: array<byte>) returns (i: nat)
    requires -TWO_TO_THE_63 <= x < TWO_TO_THE_64 && numberBuffer.Length == 64
    modifies numberBuffer
    ensures i <= 20 && Reversed(numberBuffer[..i]) == Digits(Abs(x))
  {
    hide Digits, Quotient, PowerOfTen;
    i := 0;
    var rest := x;
    TwentyDigits();
    DigitsFit(Abs(x), 20, PowerOfTen(20));
    assert Digits(Abs(x)) + [] == Digits(Abs(x));
    while rest != 0 && i < numberBuffer.Length - 1
      invariant i + |Digits(Abs(rest))| <= 20
      invariant Digits(Abs(rest)) + Reversed(numberBuffer[..i]) == Digits(Abs(x))
      decreases Abs(rest)
    {
      ghost var back := numberBuffer[..i];
      DigitMoves(rest, back);
      numberBuffer[i] := DIGIT_ZERO + Digit(rest);
      i := i + 1;
      assert numberBuffer[..i] == back + [DIGIT_ZERO + Digit(rest)];
      rest := Quotient(rest);
    }
    assert rest == 0;
    ZeroText();
    assert [] + Reversed(numberBuffer[..i]) == Reversed(numberBuffer[..i]);
  }

  /** `dump_integer`: the digits and the sign, back to front in a buffer of 64 characters, then
      reversed. The assertion that there is room for the sign holds. */
  method DumpInteger(x: int, o: OutputStream)
    requires -TWO_TO_THE_63 <= x < TWO_TO_THE_64
    modifies o
    ensures o.written == old(o.written) + IntegerText(x)
  {
    hide ToDecimal, Reversed;
    if x == 0 {
      ZeroText();
      o.Put(DIGIT_ZERO);
      return;
    }
    var numberBuffer := new byte[64];
    var i := FillNumberBuffer(x, numberBuffer);
    if x < 0 {
      assert i < numberBuffer.Length - 2;
      ghost var digits := numberBuffer[..i];
      ReversedSnoc(digits, MINUS);
      numberBuffer[i] := MINUS;
      i := i + 1;
      assert numberBuffer[..i] == digits + [MINUS];
    }
    o.Write(Reversed(numberBuffer[..i]));
  }

  lemma ZeroText()
    ensures IntegerText(0) == [DIGIT_ZERO] && Digits(0) == []
  {
  }

  function Abs(x: int): nat {
    if x < 0 then -x else x
  }

  /** `dump` */
  method DumpTo(j: Json, style: Style, indent: nat, o: OutputStream)
    modifies o
    ensures o.written == old(o.written) + Dump(j, style, indent)
    decreases j, 2
  {
    hide Escaped, ToDecimal, DumpItems, DumpMembers;
    match j
    case Null => o.Write(NULL_TEXT);
    case Bool(b) => o.Write(if b then TRUE_TEXT else FALSE_TEXT);
    case Int(i) => DumpInteger(i, o);
    case Uint(u) => DumpInteger(u, o);
    case Float(bits) => o.Write(style.dumpFloat(bits));
    case Str(s) => DumpString(s, o);
    case Arr(a) =>
      if a == [] {
        o.Write([0x5B, 0x5D]);
      } else {
        DumpArray(j, style, indent, o);
      }
    case Obj(m) =>
      if m == map[] {
        o.Write([0x7B, 0x7D]);
      } else {
        DumpObject(j, style, indent, o);
      }
  }

  method DumpString(s: Bytes, o: OutputStream)
    modifies o
    ensures o.written == old(o.written) + StringText(s)
  {
    o.Put(QUOTE);
    var escaped := DumpEscaped(s);
    o.Write(escaped);
    o.Put(QUOTE);
  }

  method WriteLead(style: Style, indent: nat, o: OutputStream)
    modifies o
    ensures o.written == old(o.written) + Lead(style, indent)
  {
    if style.pretty {
      o.Put(NEWLINE);
      o.Write(Spaces(indent));
    }
  }

  /** A non-empty array: all but the last element with a comma, then the last. */
  method DumpArray(j: Json, style: Style, indent: nat, o: OutputStream)
    requires j.Arr? && j.items != []
    modifies o
    ensures o.written == old(o.written) + Dump(j, style, indent)
    decreases j, 1
  {
    hide Dump, Lead, Deeper;
    ghost var before := o.written;
    var newIndent := Deeper(style, indent);
    o.Put(0x5B);
    var i := 0;
    while i < |j.items| - 1
      invariant 0 <= i < |j.items|
      invariant o.written + DumpItems(j, i, style, newIndent) == before + [0x5B] + DumpItems(j, 0, style, newIndent)
    {
      ghost var sofar, rest := o.written, DumpItems(j, i + 1, style, newIndent);
      WriteLead(style, newIndent, o);
      DumpTo(j.items[i], style, newIndent, o);
      o.Put(COMMA);
      assert o.written + rest
          == sofar + (Lead(style, newIndent) + Dump(j.items[i], style, newIndent) + ([COMMA] + rest));
      i := i + 1;
    }
    ghost var sofar := o.written;
    WriteLead(style, newIndent, o);
    DumpTo(j.items[i], style, newIndent, o);
    assert o.written == sofar + (Lead(style, newIndent) + Dump(j.items[i], style, newIndent) + []);
    WriteLead(style, indent, o);
    o.Put(0x5D);
    DumpArrayText(j, style, indent);
  }

  lemma DumpArrayText(j: Json, style: Style, indent: nat)
    requires j.Arr? && j.items != []
    ensures Dump(j, style, indent) ==
            [0x5B] + DumpItems(j, 0, style, Deeper(style, indent)) + Lead(style, indent) + [0x5D]
  {
  }

  /** A non-empty object: all but the last member with a comma, then the last. */
  method DumpObject(j: Json, style: Style, indent: nat, o: OutputStream)
    requires j.Obj? && j.members != map[]
    modifies o
    ensures o.written == old(o.written) + Dump(j, style, indent)
    decreases j, 1
  {
    hide Dump, Lead, Deeper, DumpMember, SortedKeys;
    ghost var before := o.written;
    var newIndent := Deeper(style, indent);
    var keys := SortedKeys(j.members.Keys);
    o.Put(0x7B);
    var i := 0;
    assert keys[0..] == keys;
    while i < |keys| - 1
      invariant 0 <= i < |keys|
      invariant o.written + DumpMembers(j, keys[i..], style, newIndent) ==
                before + [0x7B] + DumpMembers(j, keys, style, newIndent)
    {
      ghost var sofar, rest := o.written, DumpMembers(j, keys[i + 1..], style, newIndent);
      assert keys[i..][0] == keys[i] && keys[i..][1..] == keys[i + 1..];
      WriteMember(j, keys[i], style, newIndent, o);
      o.Put(COMMA);
      assert o.written + rest == sofar + (DumpMember(j, keys[i], style, newIndent) + ([COMMA] + rest));
      i := i + 1;
    }
    ghost var sofar := o.written;
    assert keys[i..] == [keys[i]];
    WriteMember(j, keys[i], style, newIndent, o);
    assert o.written == sofar + (DumpMember(j, keys[i], style, newIndent) + []);
    WriteLead(style, indent, o);
    o.Put(0x7D);
    DumpObjectText(j, style, indent);
  }

  lemma DumpObjectText(j: Json, style: Style, indent: nat)
    requires j.Obj? && j.members != map[]
    ensures Dump(j, style, indent) ==
            [0x7B] + DumpMembers(j, SortedKeys(j.members.Keys), style, Deeper(style, indent))
            + Lead(style, indent) + [0x7D]
  {
    hide SortedKeys;
  }

  method WriteMember(j: Json, key: Bytes, style: Style, indent: nat, o: OutputStream)
    requires j.Obj? && key in j.members
    modifies o
    ensures o.written == old(o.written) + DumpMember(j, key, style, indent)
    decreases j, 0
  {
    hide Dump, Lead, StringText;
    WriteLead(style, indent, o);
    DumpString(key, o);
    o.Write(ColonText(style));
    DumpTo(j.members[key], style, indent, o);
  }
}
