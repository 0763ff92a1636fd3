/** Text round trip: what the parser makes of what the serializer writes. */
module TextProof {
  import opened Binary
  import opened ByteStrings
  import opened Decimal
  import opened Json
  import opened Parser
  import opened Scanner
  import opened Serializer
  import opened StringTokens
  import opened Strings
  import opened TokenGrammar
  import opened TokenReader
  import opened Tokens

  // ---- what comes back ----

  /** A floating-point number is written as null, or as a number with a fraction or an exponent that is
      read back as a finite number, whatever follows it. */
  ghost predicate FloatReturns(bits: uint64, style: Style, toDouble: ToDouble) {
    var text := style.dumpFloat(bits);
    text == NULL_TEXT
    || (text != [] && (text[0] == MINUS || IsDigit(text[0]))
        && NumberToken(text, 0) == Token(ValueFloat, 0, |text|)
        && toDouble(text, |text|).Finite?
        && forall rest: Bytes | rest != [] && Delimits(rest[0]) ::
             toDouble(text + rest, |text|) == toDouble(text, |text|))
  }

  /** This holds for every floating-point number in a document. */
  ghost predicate FloatsReturn(j: Json, style: Style, toDouble: ToDouble) {
    match j
    case Float(bits) => FloatReturns(bits, style, toDouble)
    case Arr(a) => forall x | x in a :: FloatsReturn(x, style, toDouble)
    case Obj(m) => forall k | k in m :: FloatsReturn(m[k], style, toDouble)
    case _ => true
  }

  /** What a floating-point number comes back as. */
  function FloatReturned(bits: uint64, style: Style, toDouble: ToDouble): Json {
    var text := style.dumpFloat(bits);
    if text == NULL_TEXT then Null
    else match toDouble(text, |text|)
      case Finite(b) => Float(b)
      case _ => Null
  }

  /** What a document comes back as. */
  function Returned(j: Json, style: Style, toDouble: ToDouble): Json {
    match j
    case Int(i) => if i >= 0 then Uint(i) else j
    case Float(bits) => FloatReturned(bits, style, toDouble)
    case Arr(a) => Arr(seq(|a|, k requires 0 <= k < |a| => Returned(a[k], style, toDouble)))
    case Obj(m) => Obj(map k | k in m :: Returned(m[k], style, toDouble))
    case _ => j
  }

  /** Every floating-point number comes back as an equal one. */
  predicate FloatsSurvive(j: Json, style: Style, toDouble: ToDouble) {
    match j
    case Float(bits) => JEq(FloatReturned(bits, style, toDouble), j)
    case Arr(a) => forall x | x in a :: FloatsSurvive(x, style, toDouble)
    case Obj(m) => forall k | k in m :: FloatsSurvive(m[k], style, toDouble)
    case _ => true
  }

  /** Every string and every key is well-formed UTF-8. */
  predicate Utf8Clean(j: Json) {
    match j
    case Str(s) => Utf8(s)
    case Arr(a) => forall x | x in a :: Utf8Clean(x)
    case Obj(m) => forall k | k in m :: Utf8(k) && Utf8Clean(m[k])
    case _ => true
  }

  /** The bytes that follow a value in the output of `dump`: the end, a comma, a closing bracket, or the
      newline before one. */
  predicate Delimits(c: byte) {
    c == 0 || c == COMMA || c == 0x5D || c == 0x7D || c == NEWLINE
  }

  // ---- single tokens ----

  lemma LeadBlanks(text: Bytes, i: nat, style: Style, indent: nat)
    requires Stands(text, i, Lead(style, indent))
    ensures forall k | i <= k < i + |Lead(style, indent)| :: IsBlank(At(text, k))
  {
    var lead := Lead(style, indent);
    forall k | i <= k < i + |lead| ensures IsBlank(At(text, k)) {
      assert text[i..i + |lead|][k - i] == lead[k - i];
    }
  }

  lemma ByteStands(text: Bytes, i: nat, c: byte)
    requires Stands(text, i, [c])
    ensures At(text, i) == c && i < |text|
  {
    assert text[i..i + 1][0] == c;
  }

  /** A written string is scanned and decoded to itself if it is well-formed UTF-8; otherwise the scanner
      reports an error. */
  lemma WrittenString(text: Bytes, pos: nat, p: nat, s: Bytes)
    requires SkipBlanks(text, pos) == p && Stands(text, p, StringText(s))
    ensures Utf8(s) ==> p + |StringText(s)| <= |text| && |StringText(s)| >= 2
                        && Scan(text, pos) == Token(ValueString, p, p + |StringText(s)|)
                        && StringValue(text, Token(ValueString, p, p + |StringText(s)|)) == Ok(s)
    ensures !Utf8(s) ==> Scan(text, pos) == Token(ScanError, p, p + 1)
  {
    hide Scan, SkipBlanks, StringEnd, NumberToken, Utf8, Escaped, Decode;
    var e := Escaped(s);
    assert StringText(s) == [QUOTE] + (e + [QUOTE]);
    StandsParts(text, p, [QUOTE], e + [QUOTE]);
    ByteStands(text, p, QUOTE);
    ScanIsGrammar(text, pos);
    EscapedStringEnd(text, p + 1, s);
    StandsParts(text, p + 1, e, [QUOTE]);
    DecodeEscaped(s);
    assert text[p + 1..p + 1 + |e|] == e;
  }

  lemma DigitsStand(text: Bytes, i: nat, digits: Bytes)
    requires Stands(text, i, digits) && AllDigits(digits) && digits != [] && !IsDigit(At(text, i + |digits|))
    ensures DigitsEnd(text, i) == i + |digits| && IsDigit(At(text, i)) && At(text, i) == digits[0]
    ensures i <= |text| && DigitCount(text[i..]) == |digits| && text[i..][..|digits|] == digits
  {
    var window := text[i..i + |digits|];
    forall k | i <= k < i + |digits| ensures At(text, k) == digits[k - i] && IsDigit(At(text, k)) {
      assert window[k - i] == text[k];
    }
    assert text[i..][..|digits|] == text[i..i + |digits|];
    assert |digits| < |text[i..]| ==> text[i..][|digits|] == At(text, i + |digits|);
    DigitCountAll(text[i..], |digits|);
  }

  /** Digits behind an optional sign are a number token. */
  lemma DigitsToken(text: Bytes, p: nat, i: nat, digits: Bytes)
    requires i == if At(text, p) == MINUS then p + 1 else p
    requires Stands(text, i, digits) && AllDigits(digits) && digits != [] && Delimits(At(text, i + |digits|))
    requires digits[0] == DIGIT_ZERO ==> |digits| == 1
    ensures i + |digits| <= |text| && (i == p ==> IsDigit(At(text, p)))
    ensures NumberToken(text, p) == Token(if i > p then ValueInteger else ValueUnsigned, p, i + |digits|)
  {
    hide DigitsEnd;
    DigitsStand(text, i, digits);
  }

  lemma DigitsValue(text: Bytes, p: nat, i: nat, digits: Bytes)
    requires i == if At(text, p) == MINUS then p + 1 else p
    requires Stands(text, i, digits) && AllDigits(digits) && digits != [] && Delimits(At(text, i + |digits|))
    ensures p <= |text|
    ensures var n := Value(digits);
            IntegerValue(text[p..], i + |digits| - p) ==
            if i > p then if n <= TWO_TO_THE_63 then Some(Int(-1 * n)) else None
            else if n < TWO_TO_THE_64 then Some(Uint(n)) else None
  {
    hide DigitsEnd, Value;
    DigitsStand(text, i, digits);
    assert i > p ==> text[p..][1..] == text[i..];
    assert i > p ==> At(text, p) == text[p];
  }

  /** A written integer is scanned as one token, and its value comes back. */
  lemma WrittenInteger(text: Bytes, pos: nat, p: nat, x: int)
    requires -TWO_TO_THE_63 <= x < TWO_TO_THE_64
    requires SkipBlanks(text, pos) == p && Stands(text, p, IntegerText(x)) && Delimits(At(text, p + |IntegerText(x)|))
    ensures var length := |IntegerText(x)|;
            && p + length <= |text| && length > 0
            && Scan(text, pos) == Token(if x < 0 then ValueInteger else ValueUnsigned, p, p + length)
            && IntegerValue(text[p..], length) == Some(if x < 0 then Int(x) else Uint(x))
  {
    hide Scan, SkipBlanks, StringEnd, NumberToken, IntegerValue, ToDecimal, Value, Stands, Delimits;
    ScanIsGrammar(text, pos);
    var n := if x < 0 then -1 * x else x;
    var digits, i := ToDecimal(n), if x < 0 then p + 1 else p;
    ValueToDecimal(n);
    if x < 0 {
      StandsParts(text, p, [MINUS], digits);
      ByteStands(text, p, MINUS);
    } else {
      FirstDigit(text, p, digits);
    }
    DigitsToken(text, p, i, digits);
    DigitsValue(text, p, i, digits);
  }

  lemma FirstDigit(text: Bytes, p: nat, digits: Bytes)
    requires Stands(text, p, digits) && AllDigits(digits) && digits != []
    ensures At(text, p) == digits[0] && At(text, p) != MINUS
  {
    assert text[p..p + |digits|][0] == text[p];
  }

  // ---- values ----

  /** What comes of a document that ends at `end`. */
  function Expected(j: Json, end: nat, style: Style, toDouble: ToDouble): Result<ParsedValue> {
    if Utf8Clean(j) then Ok(ParsedValue(Some(Returned(j, style, toDouble)), end)) else Err(ParseError(101))
  }

  /** What `dump` writes begins with the first byte of a token, and not with a closing bracket. */
  lemma DumpFirst(text: Bytes, i: nat, j: Json, style: Style, indent: nat, toDouble: ToDouble)
    requires FloatsReturn(j, style, toDouble) && Stands(text, i, Dump(j, style, indent))
    ensures !IsBlank(At(text, i)) && At(text, i) != 0x5D && i < |text|
  {
    hide DumpItems, DumpMembers, Escaped, ToDecimal;
    var d := Dump(j, style, indent);
    ValueToDecimal(0);
    assert d[0] != 0x5D && !IsBlank(d[0]);
    assert text[i..i + |d|][0] == d[0];
  }

  /** The parser reads a written document back, up to signed numbers that are not negative; it rejects
      what was written exactly if some string or key is not well-formed UTF-8. */
  lemma {:induction false} ParseDump(text: Bytes, pos: nat, i: nat, j: Json, style: Style, indent: nat,
                                     toDouble: ToDouble)
    requires FloatsReturn(j, style, toDouble) && pos <= |text| && SkipBlanks(text, pos) == i
    requires Stands(text, i, Dump(j, style, indent)) && Delimits(At(text, i + |Dump(j, style, indent)|))
    ensures ParseValue(text, pos, toDouble) == Expected(j, i + |Dump(j, style, indent)|, style, toDouble)
    decreases j, 2
  {
    hide Dump, Scan, SkipBlanks, ParseMembers, ParseItems, DumpItems, DumpMembers, NumberValue, StringValue, Decode,
         Utf8, Escaped, ToDecimal, IntegerValue, Stands, Delimits, Run, SortedKeys, ParseValue, FloatReturns;
    if !j.Arr? && !j.Obj? {
      DumpScalar(j, style, indent);
    }
    match j {
      case Null =>
        Literal(text, pos, i, NULL_TEXT);
        ParseValueUnfold(text, pos, toDouble);
      case Bool(b) =>
        Literal(text, pos, i, if b then TRUE_TEXT else FALSE_TEXT);
        ParseValueUnfold(text, pos, toDouble);
      case Int(x) => ParseInteger(text, pos, i, x, toDouble);
      case Uint(x) => ParseInteger(text, pos, i, x, toDouble);
      case Float(bits) => ParseFloat(text, pos, i, bits, style, toDouble);
      case Str(s) =>
        WrittenString(text, pos, i, s);
        ParseValueUnfold(text, pos, toDouble);
      case Arr(a) => ParseArrayText(text, pos, i, j, style, indent, toDouble);
      case Obj(m) => ParseObjectText(text, pos, i, j, style, indent, toDouble);
    }
  }

  lemma DumpScalar(j: Json, style: Style, indent: nat)
    requires !j.Arr? && !j.Obj?
    ensures var d := Dump(j, style, indent);
            && (j.Null? ==> d == NULL_TEXT)
            && (j.Bool? ==> d == if j.b then TRUE_TEXT else FALSE_TEXT)
            && (j.Int? ==> d == IntegerText(j.i))
            && (j.Uint? ==> d == IntegerText(j.u))
            && (j.Float? ==> d == style.dumpFloat(j.bits))
            && (j.Str? ==> d == StringText(j.s))
  {
    hide StringText, IntegerText;
  }

  lemma DumpEmpty(j: Json, style: Style, indent: nat)
    requires j == Arr([]) || j == Obj(map[])
    ensures Dump(j, style, indent) == if j.Arr? then [0x5B, 0x5D] else [0x7B, 0x7D]
  {
  }

  lemma ParseInteger(text: Bytes, pos: nat, i: nat, x: int, toDouble: ToDouble)
    requires -TWO_TO_THE_63 <= x < TWO_TO_THE_64 && pos <= |text| && SkipBlanks(text, pos) == i
    requires Stands(text, i, IntegerText(x)) && Delimits(At(text, i + |IntegerText(x)|))
    ensures ParseValue(text, pos, toDouble) ==
            Ok(ParsedValue(Some(if x < 0 then Int(x) else Uint(x)), i + |IntegerText(x)|))
  {
    hide Scan, SkipBlanks, ParseValue, IntegerValue, Stands, Delimits, IntegerText;
    WrittenInteger(text, pos, i, x);
    ParseValueUnfold(text, pos, toDouble);
  }

  /** A text stands at `p`, and no digit, point, exponent or sign follows it. */
  predicate StandsAlone(text: Bytes, p: nat, d: Bytes) {
    Stands(text, p, d) && Delimits(At(text, p + |d|))
  }

  lemma SameByte(text: Bytes, p: nat, d: Bytes, k: nat)
    requires StandsAlone(text, p, d) && k <= |d|
    ensures k < |d| ==> At(text, p + k) == At(d, k)
    ensures k == |d| ==> Delimits(At(text, p + k)) && At(d, k) == 0
  {
    if k < |d| {
      assert text[p..p + |d|][k] == d[k];
    }
  }

  lemma {:induction false} SameDigits(text: Bytes, p: nat, d: Bytes, i: nat)
    requires StandsAlone(text, p, d) && i <= |d|
    ensures DigitsEnd(text, p + i) == p + DigitsEnd(d, i) && DigitsEnd(d, i) <= |d|
    decreases |d| - i
  {
    hide StandsAlone, At;
    SameByte(text, p, d, i);
    if i < |d| {
      SameDigits(text, p, d, i + 1);
    }
  }

  lemma SameFraction(text: Bytes, p: nat, d: Bytes, i: nat)
    requires StandsAlone(text, p, d) && i <= |d|
    ensures FractionEnd(text, p + i) == p + FractionEnd(d, i) && FractionEnd(d, i) <= |d|
  {
    hide StandsAlone, At, DigitsEnd;
    SameByte(text, p, d, i);
    if i < |d| {
      SameByte(text, p, d, i + 1);
      SameDigits(text, p, d, i + 1);
    }
  }

  lemma SameExponent(text: Bytes, p: nat, d: Bytes, i: nat)
    requires StandsAlone(text, p, d) && i <= |d|
    ensures ExponentEnd(text, p + i) == p + ExponentEnd(d, i)
  {
    hide StandsAlone, At, DigitsEnd;
    SameByte(text, p, d, i);
    if i < |d| {
      SameByte(text, p, d, i + 1);
      SameDigits(text, p, d, i + 1);
      if i + 1 < |d| {
        SameByte(text, p, d, i + 2);
        SameDigits(text, p, d, i + 2);
      }
    }
  }

  /** A number that is written in full is the same token in any text. */
  lemma SameNumber(text: Bytes, p: nat, d: Bytes)
    requires StandsAlone(text, p, d) && d != [] && (d[0] == MINUS || IsDigit(d[0]))
    requires NumberToken(d, 0) == Token(ValueFloat, 0, |d|)
    ensures NumberToken(text, p) == Token(ValueFloat, p, p + |d|) && At(text, p) == d[0]
  {
    hide StandsAlone, At, DigitsEnd, FractionEnd, ExponentEnd;
    AtZero(d);
    SameByte(text, p, d, 0);
    var i := if At(d, 0) == MINUS then 1 else 0;
    SameByte(text, p, d, i);
    SameDigits(text, p, d, i);
    var e := DigitsEnd(d, i);
    SameFraction(text, p, d, e);
    SameExponent(text, p, d, FractionEnd(d, e));
  }

  lemma AtZero(d: Bytes)
    requires d != []
    ensures At(d, 0) == d[0]
  {
  }

  lemma ParseFloat(text: Bytes, pos: nat, i: nat, bits: uint64, style: Style, toDouble: ToDouble)
    requires FloatReturns(bits, style, toDouble) && pos <= |text| && SkipBlanks(text, pos) == i
    requires StandsAlone(text, i, style.dumpFloat(bits))
    ensures ParseValue(text, pos, toDouble) ==
            Ok(ParsedValue(Some(FloatReturned(bits, style, toDouble)), i + |style.dumpFloat(bits)|))
  {
    hide Scan, SkipBlanks, ParseValue, NumberToken, StringEnd, Delimits, At;
    var d := style.dumpFloat(bits);
    if d == NULL_TEXT {
      Literal(text, pos, i, NULL_TEXT);
      ParseValueUnfold(text, pos, toDouble);
    } else {
      SameNumber(text, i, d);
      ScanIsGrammar(text, pos);
      ParseValueUnfold(text, pos, toDouble);
      FloatConverted(text, i, d, toDouble);
    }
  }

  lemma FloatConverted(text: Bytes, i: nat, d: Bytes, toDouble: ToDouble)
    requires StandsAlone(text, i, d)
    requires forall rest: Bytes | rest != [] && Delimits(rest[0]) :: toDouble(d + rest, |d|) == toDouble(d, |d|)
    ensures i <= |text| && toDouble(text[i..], |d|) == toDouble(d, |d|)
  {
    hide Delimits;
    var rest := text[i + |d|..];
    assert text[i..] == d + rest;
    if rest == [] {
      assert d + rest == d;
    }
  }

  lemma {:induction false} ParseArrayText(text: Bytes, pos: nat, i: nat, j: Json, style: Style, indent: nat,
                                          toDouble: ToDouble)
    requires j.Arr? && FloatsReturn(j, style, toDouble) && pos <= |text| && SkipBlanks(text, pos) == i
    requires Stands(text, i, Dump(j, style, indent))
    ensures ParseValue(text, pos, toDouble) == Expected(j, i + |Dump(j, style, indent)|, style, toDouble)
    decreases j, 1
  {
    hide FloatsReturn, Dump, Scan, SkipBlanks, ParseItems, DumpItems, Stands, ParseValue, Deeper, Lead, At, Returned,
         Utf8Clean, CleanFrom;
    WholeArray(j, style, toDouble);
    if j.items == [] {
      DumpEmpty(j, style, indent);
      EmptyText(text, pos, i, 0x5B, 0x5D, toDouble);
    } else {
      DumpArrayText(j, style, indent);
      ItemsInBrackets(text, pos, i, j, style, indent, toDouble);
    }
  }

  lemma {:induction false} ItemsInBrackets(text: Bytes, pos: nat, i: nat, j: Json, style: Style, indent: nat,
                                           toDouble: ToDouble)
    requires j.Arr? && j.items != [] && FloatsReturn(j, style, toDouble) && pos <= |text| && SkipBlanks(text, pos) == i
    requires Stands(text, i, [0x5B] + DumpItems(j, 0, style, Deeper(style, indent)) + Lead(style, indent) + [0x5D])
    ensures ParseValue(text, pos, toDouble) ==
            if CleanFrom(j, 0)
            then Ok(ParsedValue(Some(Returned(j, style, toDouble)),
                                i + |[0x5B] + DumpItems(j, 0, style, Deeper(style, indent)) + Lead(style, indent)
                                  + [0x5D]|))
            else Err(ParseError(101))
    decreases j, 0, |j.items| + 1
  {
    hide FloatsReturn, Scan, SkipBlanks, ParseItems, DumpItems, Stands, ParseValue, Deeper, Lead, Returned, CleanFrom;
    ReturnedFront(j, style, toDouble);
    var inner := Deeper(style, indent);
    var tail := Lead(style, indent) + [0x5D];
    Regroup([0x5B], DumpItems(j, 0, style, inner), Lead(style, indent), [0x5D]);
    Opening(text, pos, i, 0x5B, DumpItems(j, 0, style, inner) + tail);
    FirstItem(text, i + 1, j, style, inner, tail, toDouble);
    OpenUnfold(text, pos, i, toDouble);
    ParseItemsText(text, i + 1, j, 0, style, inner, indent, toDouble);
  }

  lemma ReturnedFront(j: Json, style: Style, toDouble: ToDouble)
    requires j.Arr?
    ensures Returned(j, style, toDouble).Arr? && Returned(j, style, toDouble).items[..0] == []
  {
  }

  lemma Opening(text: Bytes, pos: nat, i: nat, c: byte, rest: Bytes)
    requires SkipBlanks(text, pos) == i && Stands(text, i, [c] + rest) && (c == 0x5B || c == 0x7B)
    ensures Scan(text, pos) == Token(Single(c), i, i + 1) && Stands(text, i + 1, rest)
  {
    hide Scan, SkipBlanks, Stands, Single;
    StandsParts(text, i, [c], rest);
    ByteStands(text, i, c);
    Punctuation(text, pos, i);
  }

  /** `[]` or `{}` */
  lemma EmptyText(text: Bytes, pos: nat, i: nat, opening: byte, closing: byte, toDouble: ToDouble)
    requires pos <= |text| && SkipBlanks(text, pos) == i && Stands(text, i, [opening, closing])
    requires (opening == 0x5B && closing == 0x5D) || (opening == 0x7B && closing == 0x7D)
    ensures ParseValue(text, pos, toDouble) ==
            Ok(ParsedValue(Some(if opening == 0x5B then Arr([]) else Obj(map[])), i + 2))
  {
    hide Scan, SkipBlanks, Stands, ParseValue;
    assert [opening, closing] == [opening] + [closing];
    StandsParts(text, i, [opening], [closing]);
    ByteStands(text, i, opening);
    ByteStands(text, i + 1, closing);
    Punctuation(text, pos, i);
    SkipTo(text, i + 1, i + 1);
    Punctuation(text, i + 1, i + 1);
    OpenUnfold(text, pos, i, toDouble);
  }

  lemma WholeArray(j: Json, style: Style, toDouble: ToDouble)
    requires j.Arr?
    ensures j.items == [] ==> Returned(j, style, toDouble) == Arr([]) && Utf8Clean(j)
    ensures Utf8Clean(j) == CleanFrom(j, 0)
  {
    hide Utf8;
  }

  // ---- arrays ----

  /** Where the parts of a written element stand. */
  lemma ItemParts(text: Bytes, i: nat, j: Json, k: nat, style: Style, indent: nat, tail: Bytes, toDouble: ToDouble)
    requires j.Arr? && k < |j.items| && FloatsReturn(j, style, toDouble)
    requires Stands(text, i, DumpItems(j, k, style, indent) + tail)
    ensures var p := i + |Lead(style, indent)|;
            var d := Dump(j.items[k], style, indent);
            && SkipBlanks(text, i) == p && Stands(text, p, d) && At(text, p) != 0x5D
            && (k + 1 == |j.items| ==>
                  DumpItems(j, k, style, indent) == Lead(style, indent) + d && Stands(text, p + |d|, tail))
            && (k + 1 < |j.items| ==>
                  && |DumpItems(j, k, style, indent)| ==
                     |Lead(style, indent)| + |d| + 1 + |DumpItems(j, k + 1, style, indent)|
                  && At(text, p + |d|) == COMMA
                  && Stands(text, p + |d| + 1, DumpItems(j, k + 1, style, indent) + tail))
  {
    hide Dump, Lead, Stands, DumpItems, SkipBlanks;
    ItemsUnfold(j, k, style, indent);
    var lead, d := Lead(style, indent), Dump(j.items[k], style, indent);
    var end := if k + 1 == |j.items| then [] else [COMMA] + DumpItems(j, k + 1, style, indent);
    var more := end + tail;
    Regroup(lead, d, end, tail);
    StandsParts(text, i, lead, d + more);
    StandsParts(text, i + |lead|, d, more);
    LeadBlanks(text, i, style, indent);
    DumpFirst(text, i + |lead|, j.items[k], style, indent, toDouble);
    SkipTo(text, i, i + |lead|);
    if k + 1 < |j.items| {
      var next := DumpItems(j, k + 1, style, indent);
      Regroup([], [COMMA], next, tail);
      StandsParts(text, i + |lead| + |d|, [COMMA], next + tail);
      ByteStands(text, i + |lead| + |d|, COMMA);
    } else {
      Regroup(lead, d, [], tail);
    }
  }

  lemma ItemsUnfold(j: Json, k: nat, style: Style, indent: nat)
    requires j.Arr? && k < |j.items|
    ensures DumpItems(j, k, style, indent) ==
            Lead(style, indent) + Dump(j.items[k], style, indent)
            + if k + 1 == |j.items| then [] else [COMMA] + DumpItems(j, k + 1, style, indent)
  {
    hide Dump, Lead;
  }

  lemma FirstItem(text: Bytes, i: nat, j: Json, style: Style, indent: nat, tail: Bytes, toDouble: ToDouble)
    requires j.Arr? && j.items != [] && FloatsReturn(j, style, toDouble)
    requires Stands(text, i, DumpItems(j, 0, style, indent) + tail)
    ensures Scan(text, i).kind != EndArray
  {
    hide FloatsReturn, Dump, Lead, Stands, DumpItems, SkipBlanks, Scan;
    ItemParts(text, i, j, 0, style, indent, tail, toDouble);
    ClosingToken(text, i, SkipBlanks(text, i));
  }

  /** A closing bracket, with the white space before it. */
  lemma Closing(text: Bytes, i: nat, style: Style, indent: nat, c: byte)
    requires Stands(text, i, Lead(style, indent) + [c]) && (c == 0x5D || c == 0x7D)
    ensures Delimits(At(text, i))
    ensures var n := |Lead(style, indent)|;
            i + n + 1 <= |text| && Scan(text, i) == Token(Single(c), i + n, i + n + 1)
  {
    hide Scan, SkipBlanks;
    var lead := Lead(style, indent);
    StandsParts(text, i, lead, [c]);
    LeadBlanks(text, i, style, indent);
    ByteStands(text, i + |lead|, c);
    SkipTo(text, i, i + |lead|);
    Punctuation(text, i, i + |lead|);
    if style.pretty {
      assert text[i..i + |lead|][0] == NEWLINE;
    }
  }

  predicate CleanFrom(j: Json, k: nat)
    requires j.Arr?
  {
    forall n | k <= n < |j.items| :: Utf8Clean(j.items[n])
  }

  lemma {:induction false} ParseItemsText(text: Bytes, i: nat, j: Json, k: nat, style: Style, indent: nat, outer: nat,
                                          toDouble: ToDouble)
    requires j.Arr? && k < |j.items| && FloatsReturn(j, style, toDouble)
    requires Stands(text, i, DumpItems(j, k, style, indent) + (Lead(style, outer) + [0x5D]))
    ensures i <= |text|
    ensures ParseItems(text, i, Returned(j, style, toDouble).items[..k], toDouble) ==
            if CleanFrom(j, k)
            then Ok(ParsedValue(Some(Returned(j, style, toDouble)),
                                i + |DumpItems(j, k, style, indent)| + |Lead(style, outer)| + 1))
            else Err(ParseError(101))
    decreases j, 0, |j.items| - k
  {
    hide Dump, Lead, Stands, DumpItems, SkipBlanks, Scan, ParseValue, ParseItems, Delimits, At, Returned, Utf8Clean;
    var tail := Lead(style, outer) + [0x5D];
    ItemParts(text, i, j, k, style, indent, tail, toDouble);
    var p := SkipBlanks(text, i);
    var e := p + |Dump(j.items[k], style, indent)|;
    ItemsWithin(text, i, DumpItems(j, k, style, indent) + tail);
    ReturnedItem(j, k, style, toDouble);
    var front := Returned(j, style, toDouble).items[..k];
    if k + 1 == |j.items| {
      Closing(text, e, style, outer, 0x5D);
      ParseDump(text, i, p, j.items[k], style, indent, toDouble);
      ParseItemsUnfold(text, i, front, toDouble);
    } else {
      CommaDelimits();
      ParseDump(text, i, p, j.items[k], style, indent, toDouble);
      ParseItemsUnfold(text, i, front, toDouble);
      CommaToken(text, e);
      ParseItemsText(text, e + 1, j, k + 1, style, indent, outer, toDouble);
    }
  }

  lemma CommaDelimits()
    ensures Delimits(COMMA) && Single(COMMA) == ValueSeparator
  {
  }

  lemma CommaToken(text: Bytes, e: nat)
    requires At(text, e) == COMMA
    ensures e < |text| && Scan(text, e) == Token(ValueSeparator, e, e + 1)
  {
    hide Scan;
    SkipTo(text, e, e);
    Punctuation(text, e, e);
  }

  lemma ItemsWithin(text: Bytes, i: nat, s: Bytes)
    requires Stands(text, i, s)
    ensures i + |s| <= |text|
  {
  }

  lemma ReturnedItem(j: Json, k: nat, style: Style, toDouble: ToDouble)
    requires j.Arr? && k < |j.items|
    ensures Returned(j, style, toDouble).Arr? && |Returned(j, style, toDouble).items| == |j.items|
    ensures Returned(j, style, toDouble).items[..k] + [Returned(j.items[k], style, toDouble)] ==
            Returned(j, style, toDouble).items[..k + 1]
    ensures Returned(j, style, toDouble).items[..|j.items|] == Returned(j, style, toDouble).items
  {
  }

  // ---- objects ----

  /** The position of the value in a written member, relative to its beginning. */
  function ValueOffset(key: Bytes, style: Style, indent: nat): nat {
    |Lead(style, indent)| + |StringText(key)| + |ColonText(style)|
  }

  /** Where the parts of a written member stand. */
  lemma MemberParts(text: Bytes, i: nat, j: Json, key: Bytes, style: Style, indent: nat, more: Bytes,
                    toDouble: ToDouble)
    requires j.Obj? && key in j.members && FloatsReturn(j, style, toDouble)
    requires Stands(text, i, DumpMember(j, key, style, indent) + more)
    ensures var p := i + |Lead(style, indent)|;
            var q := p + |StringText(key)|;
            var v := i + ValueOffset(key, style, indent);
            var d := Dump(j.members[key], style, indent);
            && SkipBlanks(text, i) == p && Stands(text, p, StringText(key)) && At(text, p) == QUOTE
            && At(text, q) == COLON && SkipBlanks(text, q + 1) == v
            && Stands(text, v, d) && Stands(text, v + |d|, more)
            && |DumpMember(j, key, style, indent)| == ValueOffset(key, style, indent) + |d|
  {
    hide Dump, Lead, Stands, SkipBlanks, Escaped, FloatsReturn;
    MemberFloatsReturn(j, key, style, toDouble);
    var lead, st, colon, d := Lead(style, indent), StringText(key), ColonText(style),
        Dump(j.members[key], style, indent);
    RegroupMember(lead, st, colon, d, more);
    StandsParts(text, i, lead, st + (colon + (d + more)));
    LeadBlanks(text, i, style, indent);
    var p := i + |lead|;
    StandsParts(text, p, st, colon + (d + more));
    assert st == [QUOTE] + (Escaped(key) + [QUOTE]);
    StandsParts(text, p, [QUOTE], Escaped(key) + [QUOTE]);
    ByteStands(text, p, QUOTE);
    SkipTo(text, i, p);
    StandsParts(text, p + |st|, colon, d + more);
    StandsParts(text, p + |st| + |colon|, d, more);
    DumpFirst(text, p + |st| + |colon|, j.members[key], style, indent, toDouble);
    ColonStands(text, p + |st|, style);
    SkipTo(text, p + |st| + 1, p + |st| + |colon|);
  }

  lemma MemberFloatsReturn(j: Json, key: Bytes, style: Style, toDouble: ToDouble)
    requires j.Obj? && key in j.members && FloatsReturn(j, style, toDouble)
    ensures FloatsReturn(j.members[key], style, toDouble)
  {
  }

  lemma RegroupMember(a: Bytes, b: Bytes, c: Bytes, d: Bytes, tail: Bytes)
    ensures a + b + c + d + tail == a + (b + (c + (d + tail)))
  {
  }

  lemma ColonStands(text: Bytes, q: nat, style: Style)
    requires Stands(text, q, ColonText(style))
    ensures At(text, q) == COLON && forall k | q + 1 <= k < q + |ColonText(style)| :: IsBlank(At(text, k))
  {
    var window := text[q..q + |ColonText(style)|];
    assert window[0] == text[q];
    assert style.pretty ==> window[1] == text[q + 1];
  }

  lemma ColonToken(text: Bytes, q: nat)
    requires At(text, q) == COLON
    ensures q < |text| && Scan(text, q) == Token(NameSeparator, q, q + 1)
  {
    hide Scan;
    SkipTo(text, q, q);
    Punctuation(text, q, q);
  }

  lemma MembersUnfold(j: Json, keys: seq<Bytes>, style: Style, indent: nat)
    requires j.Obj? && keys != [] && forall k | k in keys :: k in j.members
    ensures DumpMembers(j, keys, style, indent) ==
            DumpMember(j, keys[0], style, indent)
            + if |keys| == 1 then [] else [COMMA] + DumpMembers(j, keys[1..], style, indent)
  {
    hide DumpMember;
  }

  predicate CleanKeys(j: Json, keys: seq<Bytes>)
    requires j.Obj? && forall k | k in keys :: k in j.members
  {
    forall k | k in keys :: Utf8(k) && Utf8Clean(j.members[k])
  }

  /** The members with the given keys, as they come back. */
  function Part(j: Json, keys: seq<Bytes>, style: Style, toDouble: ToDouble): map<Bytes, Json>
    requires j.Obj? && forall k | k in keys :: k in j.members
  {
    map k | k in keys :: Returned(j.members[k], style, toDouble)
  }

  lemma PartStep(j: Json, keys: seq<Bytes>, before: map<Bytes, Json>, style: Style, toDouble: ToDouble)
    requires j.Obj? && keys != [] && forall k | k in keys :: k in j.members
    ensures before[keys[0] := Returned(j.members[keys[0]], style, toDouble)]
            + Part(j, keys[1..], style, toDouble) ==
            before + Part(j, keys, style, toDouble)
    ensures CleanKeys(j, keys) == (Utf8(keys[0]) && Utf8Clean(j.members[keys[0]]) && CleanKeys(j, keys[1..]))
  {
    hide Utf8, Utf8Clean, Returned;
    assert forall k :: k in keys <==> k == keys[0] || k in keys[1..];
  }

  /** One member: its key, its colon, its value. */
  lemma {:induction false} ParseMemberText(text: Bytes, i: nat, j: Json, key: Bytes, before: map<Bytes, Json>,
                                           style: Style, indent: nat, more: Bytes, toDouble: ToDouble)
    requires j.Obj? && key in j.members && FloatsReturn(j, style, toDouble)
    requires Stands(text, i, DumpMember(j, key, style, indent) + more)
    requires Delimits(At(text, i + |DumpMember(j, key, style, indent)|))
    ensures i <= |text|
    ensures var e := i + |DumpMember(j, key, style, indent)|;
            ParseMembers(text, i, before, toDouble) ==
            if Utf8(key) && Utf8Clean(j.members[key]) && e <= |text|
            then MoreMembers(text, e, before[key := Returned(j.members[key], style, toDouble)], toDouble)
            else Err(ParseError(101))
    ensures i + |DumpMember(j, key, style, indent)| <= |text|
    decreases j, 0, 0
  {
    hide Dump, Lead, Stands, DumpMember, SkipBlanks, Scan, ParseValue, ParseMembers, MoreMembers, Delimits, At,
         Returned, Utf8, Utf8Clean, StringText, StringValue, ValueOffset, ColonText;
    MemberParts(text, i, j, key, style, indent, more, toDouble);
    ItemsWithin(text, i, DumpMember(j, key, style, indent) + more);
    var p := SkipBlanks(text, i);
    var q := p + |StringText(key)|;
    WrittenString(text, i, p, key);
    ParseMembersUnfold(text, i, before, toDouble);
    if Utf8(key) {
      ColonToken(text, q);
      ParseDump(text, q + 1, SkipBlanks(text, q + 1), j.members[key], style, indent, toDouble);
    }
  }

  lemma {:induction false} ParseMembersText(text: Bytes, i: nat, j: Json, keys: seq<Bytes>, before: map<Bytes, Json>,
                                            style: Style, indent: nat, outer: nat, toDouble: ToDouble)
    requires j.Obj? && keys != [] && (forall k | k in keys :: k in j.members) && FloatsReturn(j, style, toDouble)
    requires Stands(text, i, DumpMembers(j, keys, style, indent) + (Lead(style, outer) + [0x7D]))
    ensures i <= |text|
    ensures ParseMembers(text, i, before, toDouble) ==
            if CleanKeys(j, keys)
            then Ok(ParsedValue(Some(Obj(before + Part(j, keys, style, toDouble))),
                                i + |DumpMembers(j, keys, style, indent)| + |Lead(style, outer)| + 1))
            else Err(ParseError(101))
    decreases j, 0, |keys|
  {
    hide FloatsReturn, Dump, Lead, Stands, DumpMember, DumpMembers, Scan, ParseValue, ParseMembers, MoreMembers,
         Delimits, At, Returned, Utf8, Utf8Clean, CleanKeys, Part;
    MembersUnfold(j, keys, style, indent);
    PartStep(j, keys, before, style, toDouble);
    var key := keys[0];
    var d := DumpMember(j, key, style, indent);
    var tail := Lead(style, outer) + [0x7D];
    var e := i + |d|;
    var added := before[key := Returned(j.members[key], style, toDouble)];
    if |keys| == 1 {
      assert d + [] == d;
      StandsParts(text, i, d, tail);
      Closing(text, e, style, outer, 0x7D);
      ParseMemberText(text, i, j, key, before, style, indent, tail, toDouble);
      MoreMembersUnfold(text, e, added, toDouble);
      NoKeys(j, keys[1..], style, toDouble);
      assert added + map[] == added;
    } else {
      var rest := DumpMembers(j, keys[1..], style, indent) + tail;
      assert DumpMembers(j, keys, style, indent) + tail == d + ([COMMA] + rest);
      StandsParts(text, i, d, [COMMA] + rest);
      StandsParts(text, e, [COMMA], rest);
      ByteStands(text, e, COMMA);
      CommaDelimits();
      CommaToken(text, e);
      ParseMemberText(text, i, j, key, before, style, indent, [COMMA] + rest, toDouble);
      MoreMembersUnfold(text, e, added, toDouble);
      ParseMembersText(text, e + 1, j, keys[1..], added, style, indent, outer, toDouble);
    }
  }

  lemma NoKeys(j: Json, keys: seq<Bytes>, style: Style, toDouble: ToDouble)
    requires j.Obj? && keys == []
    ensures Part(j, keys, style, toDouble) == map[] && CleanKeys(j, keys)
  {
  }

  lemma {:induction false} ParseObjectText(text: Bytes, pos: nat, i: nat, j: Json, style: Style, indent: nat,
                                           toDouble: ToDouble)
    requires j.Obj? && FloatsReturn(j, style, toDouble) && pos <= |text| && SkipBlanks(text, pos) == i
    requires Stands(text, i, Dump(j, style, indent))
    ensures ParseValue(text, pos, toDouble) == Expected(j, i + |Dump(j, style, indent)|, style, toDouble)
    decreases j, 1
  {
    hide FloatsReturn, Dump, Scan, SkipBlanks, ParseMembers, DumpMembers, Stands, ParseValue, Deeper, Lead, At,
         SortedKeys, Returned, Utf8, Utf8Clean, CleanKeys, Part;
    var keys := SortedKeys(j.members.Keys);
    WholeObject(j, keys, style, toDouble);
    if j.members == map[] {
      DumpEmpty(j, style, indent);
      EmptyText(text, pos, i, 0x7B, 0x7D, toDouble);
    } else {
      DumpObjectText(j, style, indent);
      MembersInBraces(text, pos, i, j, keys, style, indent, toDouble);
    }
  }

  lemma {:induction false} MembersInBraces(text: Bytes, pos: nat, i: nat, j: Json, keys: seq<Bytes>, style: Style,
                                           indent: nat, toDouble: ToDouble)
    requires j.Obj? && keys != [] && (forall k :: k in keys <==> k in j.members) && FloatsReturn(j, style, toDouble)
    requires pos <= |text| && SkipBlanks(text, pos) == i
    requires Stands(text, i, [0x7B] + DumpMembers(j, keys, style, Deeper(style, indent)) + Lead(style, indent) + [0x7D])
    ensures ParseValue(text, pos, toDouble) ==
            if CleanKeys(j, keys)
            then Ok(ParsedValue(Some(Returned(j, style, toDouble)),
                                i + |[0x7B] + DumpMembers(j, keys, style, Deeper(style, indent)) + Lead(style, indent)
                                  + [0x7D]|))
            else Err(ParseError(101))
    decreases j, 0, |keys| + 1
  {
    hide FloatsReturn, Scan, SkipBlanks, ParseMembers, DumpMembers, Stands, ParseValue, Deeper, Lead, CleanKeys, Part,
         Returned;
    ReturnedMembers(j, keys, style, toDouble);
    var members := DumpMembers(j, keys, style, Deeper(style, indent));
    var tail := Lead(style, indent) + [0x7D];
    Regroup([0x7B], members, Lead(style, indent), [0x7D]);
    Opening(text, pos, i, 0x7B, members + tail);
    FirstMember(text, i + 1, j, keys, style, Deeper(style, indent), tail, toDouble);
    OpenUnfold(text, pos, i, toDouble);
    ParseMembersText(text, i + 1, j, keys, map[], style, Deeper(style, indent), indent, toDouble);
  }

  lemma WholeObject(j: Json, keys: seq<Bytes>, style: Style, toDouble: ToDouble)
    requires j.Obj? && keys == SortedKeys(j.members.Keys)
    ensures forall k :: k in keys <==> k in j.members
    ensures keys != [] ==> Utf8Clean(j) == CleanKeys(j, keys)
    ensures j.members == map[] ==> Utf8Clean(j) && Returned(j, style, toDouble) == Obj(map[])
    ensures j.members == map[] <==> keys == []
  {
    hide SortedKeys, Utf8, Utf8Clean, Returned, CleanKeys;
    assert forall k :: k in keys <==> k in j.members;
    assert |keys| == |j.members.Keys|;
    CleanMembers(j, keys);
    if keys == [] {
      ReturnedMembers(j, keys, style, toDouble);
      NoKeys(j, keys, style, toDouble);
    }
  }

  lemma ReturnedMembers(j: Json, keys: seq<Bytes>, style: Style, toDouble: ToDouble)
    requires j.Obj? && forall k :: k in keys <==> k in j.members
    ensures Returned(j, style, toDouble) == Obj(Part(j, keys, style, toDouble)) ==
            Obj(map[] + Part(j, keys, style, toDouble))
  {
    assert Part(j, keys, style, toDouble) == Returned(j, style, toDouble).members;
    assert map[] + Part(j, keys, style, toDouble) == Part(j, keys, style, toDouble);
  }

  lemma CleanMembers(j: Json, keys: seq<Bytes>)
    requires j.Obj? && forall k :: k in keys <==> k in j.members
    ensures Utf8Clean(j) == CleanKeys(j, keys)
  {
    hide Utf8;
  }

  lemma FirstMember(text: Bytes, i: nat, j: Json, keys: seq<Bytes>, style: Style, indent: nat, tail: Bytes,
                    toDouble: ToDouble)
    requires j.Obj? && keys != [] && (forall k | k in keys :: k in j.members) && FloatsReturn(j, style, toDouble)
    requires Stands(text, i, DumpMembers(j, keys, style, indent) + tail)
    ensures Scan(text, i).kind != EndObject
  {
    hide FloatsReturn, Lead, Stands, DumpMember, DumpMembers, SkipBlanks, Scan, StringText;
    MembersUnfold(j, keys, style, indent);
    var d := DumpMember(j, keys[0], style, indent);
    var more := (if |keys| == 1 then [] else [COMMA] + DumpMembers(j, keys[1..], style, indent)) + tail;
    assert DumpMembers(j, keys, style, indent) + tail == d + more;
    MemberParts(text, i, j, keys[0], style, indent, more, toDouble);
    ClosingToken(text, i, SkipBlanks(text, i));
  }

  // ---- whole texts ----

  /** `parse(dump(j))` for every style: the document comes back, with its floating-point numbers as the
      conversions return them, if all its strings and keys are well-formed UTF-8; otherwise the text is
      rejected. */
  lemma ParseUndoesDump(j: Json, style: Style, toDouble: ToDouble)
    requires FloatsReturn(j, style, toDouble)
    ensures Parse(Dump(j, style, 0), toDouble) ==
            if Utf8Clean(j) then Ok(Returned(j, style, toDouble)) else Err(ParseError(101))
  {
    hide Dump, Scan, ParseValue, Returned, Utf8Clean, SkipBlanks;
    var text := Dump(j, style, 0);
    assert [] + text + [] == text;
    StandsWithin([], text, []);
    DumpFirst(text, 0, j, style, 0, toDouble);
    SkipTo(text, 0, 0);
    ParseDump(text, 0, 0, j, style, 0, toDouble);
    SkipTo(text, |text|, |text|);
    Punctuation(text, |text|, |text|);
  }

  /** What comes back equals the original exactly if every floating-point number survives. */
  lemma TextRoundTrip(j: Json, style: Style, toDouble: ToDouble)
    requires FloatsReturn(j, style, toDouble) && Utf8Clean(j)
    ensures var r := Parse(Dump(j, style, 0), toDouble);
            r.Ok? && (JEq(r.value, j) <==> FloatsSurvive(j, style, toDouble))
  {
    hide Dump, Parse, Returned, Utf8Clean, JEq, FloatsReturn, FloatsSurvive;
    ParseUndoesDump(j, style, toDouble);
    ReturnedEqual(j, style, toDouble);
  }

  lemma {:induction false} ReturnedEqual(j: Json, style: Style, toDouble: ToDouble)
    ensures JEq(Returned(j, style, toDouble), j) <==> FloatsSurvive(j, style, toDouble)
  {
    hide FloatReturned, FloatEq;
    match j
    case Arr(a) =>
      forall k | 0 <= k < |a|
        ensures JEq(Returned(a[k], style, toDouble), a[k]) <==> FloatsSurvive(a[k], style, toDouble)
      {
        ReturnedEqual(a[k], style, toDouble);
      }
      assert FloatsSurvive(j, style, toDouble) <==> forall k | 0 <= k < |a| :: FloatsSurvive(a[k], style, toDouble);
    case Obj(m) =>
      forall k | k in m ensures JEq(Returned(m[k], style, toDouble), m[k]) <==> FloatsSurvive(m[k], style, toDouble) {
        ReturnedEqual(m[k], style, toDouble);
      }
    case _ =>
  }

  predicate NoFloats(j: Json) {
    match j
    case Float(_) => false
    case Arr(a) => forall x | x in a :: NoFloats(x)
    case Obj(m) => forall k | k in m :: NoFloats(m[k])
    case _ => true
  }

  /** A document without floating-point numbers comes back equal, whatever the conversions do. */
  lemma {:induction false} FloatFree(j: Json, style: Style, toDouble: ToDouble)
    requires NoFloats(j)
    ensures FloatsReturn(j, style, toDouble) && FloatsSurvive(j, style, toDouble)
  {
    match j
    case Arr(a) =>
      forall x | x in a ensures FloatsReturn(x, style, toDouble) && FloatsSurvive(x, style, toDouble) {
        FloatFree(x, style, toDouble);
      }
    case Obj(m) =>
      forall k | k in m ensures FloatsReturn(m[k], style, toDouble) && FloatsSurvive(m[k], style, toDouble) {
        FloatFree(m[k], style, toDouble);
      }
    case _ =>
  }
}
