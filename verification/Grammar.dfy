/** JSON texts as sections 2 to 5 of RFC 7159 define them: derivation trees over the text and what they
    mean. */
module Grammar {
  import opened ByteStrings
  import opened Decimal
  import opened Json
  import opened NumberGrammar
  import opened Parser
  import opened Scanner
  import opened StringMeaning
  import opened StringTokens
  import opened Strings
  import opened TokenGrammar
  import opened TokenReader
  import opened Tokens

  /** A value that stands in a text between two positions. */
  datatype Tree =
    | Scalar(from: nat, to: nat)
    | Array(from: nat, items: seq<Tree>, to: nat)
    | Object(from: nat, members: seq<Member>, to: nat)

  datatype Member = Member(nameFrom: nat, nameTo: nat, value: Tree)

  predicate IsString(text: Bytes, from: nat, to: nat) {
    At(text, from) == QUOTE && StringEnd(text, from + 1) == Some(to)
  }

  predicate IsLiteral(text: Bytes, from: nat, to: nat) {
    || (Stands(text, from, TRUE_TEXT) && to == from + 4)
    || (Stands(text, from, FALSE_TEXT) && to == from + 5)
    || (Stands(text, from, NULL_TEXT) && to == from + 4)
  }

  /** `value = false / null / true / object / array / number / string` */
  ghost predicate Derives(text: Bytes, t: Tree)
    decreases t, 2
  {
    match t
    case Scalar(from, to) => IsLiteral(text, from, to) || IsString(text, from, to) || IsNumber(text, from, to)
    case Array(from, items, to) =>
      && At(text, from) == 0x5B
      && if items == [] then Ends(text, from + 1, 0x5D, to) else DeriveItems(text, t, 0, from + 1)
    case Object(from, members, to) =>
      && At(text, from) == 0x7B
      && if members == [] then Ends(text, from + 1, 0x7D, to) else DeriveMembers(text, t, 0, from + 1)
  }

  /** White space and a closing bracket. */
  predicate Ends(text: Bytes, pos: nat, c: byte, to: nat) {
    to == SkipBlanks(text, pos) + 1 && At(text, to - 1) == c
  }

  /** `value *( value-separator value ) end-array`, from element `k` on. */
  ghost predicate DeriveItems(text: Bytes, t: Tree, k: nat, pos: nat)
    requires t.Array? && k < |t.items|
    decreases t, 1, |t.items| - k
  {
    var v := t.items[k];
    && v.from == SkipBlanks(text, pos) && Derives(text, v)
    && if k + 1 == |t.items| then Ends(text, v.to, 0x5D, t.to)
       else
         var comma := SkipBlanks(text, v.to);
         At(text, comma) == 0x2C && DeriveItems(text, t, k + 1, comma + 1)
  }

  /** `member = string name-separator value` */
  ghost predicate DeriveMember(text: Bytes, m: Member, pos: nat)
    decreases m.value, 3
  {
    var colon := SkipBlanks(text, m.nameTo);
    && m.nameFrom == SkipBlanks(text, pos) && IsString(text, m.nameFrom, m.nameTo)
    && At(text, colon) == 0x3A
    && m.value.from == SkipBlanks(text, colon + 1) && Derives(text, m.value)
  }

  /** `member *( value-separator member ) end-object`, from member `k` on. */
  ghost predicate DeriveMembers(text: Bytes, t: Tree, k: nat, pos: nat)
    requires t.Object? && k < |t.members|
    decreases t, 1, |t.members| - k
  {
    var end := t.members[k].value.to;
    && DeriveMember(text, t.members[k], pos)
    && if k + 1 == |t.members| then Ends(text, end, 0x7D, t.to)
       else
         var comma := SkipBlanks(text, end);
         At(text, comma) == 0x2C && DeriveMembers(text, t, k + 1, comma + 1)
  }

  // ---- what a tree means ----

  /** A string means its code points and a number its value; both can fail. */
  ghost function ScalarMeaning(text: Bytes, from: nat, to: nat, toDouble: ToDouble): Result<Option<Json>> {
    var c := At(text, from);
    if !(from < to <= |text|) then Err(UndefinedBehaviour)
    else if [c] == Ascii("\"") then TextMeaning(text, from, to)
    else if [c] == Ascii("t") then Ok(Some(Bool(true)))
    else if [c] == Ascii("f") then Ok(Some(Bool(false)))
    else if [c] == Ascii("n") then Ok(Some(Null))
    else NumberMeaning(text, from, to, toDouble)
  }

  lemma FirstBytes()
    ensures Ascii("\"") == [QUOTE] && Ascii("-") == [MINUS]
    ensures Ascii("t") == [TRUE_TEXT[0]] && Ascii("f") == [FALSE_TEXT[0]] && Ascii("n") == [NULL_TEXT[0]]
  {
  }

  ghost function TextMeaning(text: Bytes, from: nat, to: nat): Result<Option<Json>> {
    var s :- NameMeaning(text, from, to);
    Ok(Some(Str(s)))
  }

  /** The code points that stand between the quotes. */
  ghost function NameMeaning(text: Bytes, from: nat, to: nat): Result<Bytes> {
    if IsString(text, from, to) then TokenText(text, from + 1) else Err(UndefinedBehaviour)
  }

  lemma NameIsDecoded(text: Bytes, from: nat, to: nat)
    requires IsString(text, from, to)
    ensures from + 2 <= to <= |text| && NameMeaning(text, from, to) == Decode(text[from + 1..to - 1])
  {
    hide StringEnd, Decode, TokenText;
    TokenTextIsDecoded(text, from + 1);
  }

  /** The decimal value of digits with an optional sign, if it fits 64 bits; otherwise, and with a fraction or
      an exponent, what `strtod` makes of it. */
  function NumberMeaning(text: Bytes, from: nat, to: nat, toDouble: ToDouble): Result<Option<Json>>
    requires from < to <= |text|
  {
    var negative := [At(text, from)] == Ascii("-");
    var digits := text[if negative then from + 1 else from..to];
    if digits != [] && AllDigits(digits) && Value(digits) <= (if negative then TWO_TO_THE_63 else TWO_TO_THE_64 - 1)
    then Ok(Some(if negative then Int(-1 * Value(digits)) else Uint(Value(digits))))
    else
      match toDouble(text[from..], to - from)
      case NotConverted => Ok(None)
      case NotFinite => Err(OutOfRange(406))
      case Finite(bits) => Ok(Some(Float(bits)))
  }

  /** The document that a tree denotes: of several members with the same name the last one counts. */
  ghost function Meaning(text: Bytes, t: Tree, toDouble: ToDouble): Result<Option<Json>>
    decreases t, 2
  {
    match t
    case Scalar(from, to) => ScalarMeaning(text, from, to, toDouble)
    case Array(_, items, _) =>
      var a :- ItemsMeaning(text, t, 0, [], toDouble);
      Ok(Some(Arr(a)))
    case Object(_, members, _) =>
      var m :- MembersMeaning(text, t, 0, map[], toDouble);
      Ok(Some(Obj(m)))
  }

  ghost function ItemsMeaning(text: Bytes, t: Tree, k: nat, before: seq<Json>, toDouble: ToDouble): Result<seq<Json>>
    requires t.Array? && k <= |t.items|
    decreases t, 1, |t.items| - k
  {
    if k == |t.items| then Ok(before)
    else
      var v :- Meaning(text, t.items[k], toDouble);
      ItemsMeaning(text, t, k + 1, if v.Some? then before + [v.value] else before, toDouble)
  }

  /** The members before, with one more; a discarded value adds nothing. */
  ghost function MemberMeaning(text: Bytes, m: Member, before: map<Bytes, Json>, toDouble: ToDouble):
    Result<map<Bytes, Json>>
    decreases m.value, 3
  {
    var name :- NameMeaning(text, m.nameFrom, m.nameTo);
    var v :- Meaning(text, m.value, toDouble);
    Ok(if v.Some? then before[name := v.value] else before)
  }

  ghost function MembersMeaning(text: Bytes, t: Tree, k: nat, before: map<Bytes, Json>, toDouble: ToDouble):
    Result<map<Bytes, Json>>
    requires t.Object? && k <= |t.members|
    decreases t, 1, |t.members| - k
  {
    if k == |t.members| then Ok(before)
    else
      var added :- MemberMeaning(text, t.members[k], before, toDouble);
      MembersMeaning(text, t, k + 1, added, toDouble)
  }

  function Outcome(m: Result<Option<Json>>, to: nat): Result<ParsedValue> {
    if m.Ok? then Ok(ParsedValue(m.value, to)) else Err(m.error)
  }

  // ---- tokens and scalars ----

  /** What can follow a value in a text. */
  predicate Boundary(c: byte) {
    IsBlank(c) || c == 0 || c == 0x2C || c == 0x5D || c == 0x7D
  }

  predicate NumberByte(c: byte) {
    IsDigit(c) || c == MINUS || c == PLUS || c == 0x2E || IsExponentMark(c)
  }

  lemma NumberBytes(text: Bytes, pos: nat, e: nat, i: nat)
    requires IsNumber(text, pos, e) && pos <= i < e
    ensures e <= |text| && NumberByte(text[i])
  {
    var a: nat, b: nat, c: nat :| IsNumberSplit(text, pos, a, b, c, e);
    if i < a {
      assert text[pos..a][i - pos] == text[i];
    } else if i < b {
      assert text[a..b][i - a] == text[i];
    } else if i < c {
      FractionBytes(text[b..c], i - b);
    } else {
      ExponentBytes(text[c..e], i - c);
    }
  }

  lemma FractionBytes(s: Bytes, i: nat)
    requires IsFraction(s) && i < |s|
    ensures NumberByte(s[i])
  {
    assert i > 0 ==> s[1..][i - 1] == s[i];
  }

  lemma ExponentBytes(s: Bytes, i: nat)
    requires IsExponent(s) && i < |s|
    ensures NumberByte(s[i])
  {
    assert i > 0 ==> s[1..][i - 1] == s[i];
    assert i > 1 ==> s[2..][i - 2] == s[i];
  }

  /** A number that is followed by a boundary is a token. */
  lemma NumberIsToken(text: Bytes, from: nat, to: nat)
    requires IsNumber(text, from, to) && Boundary(At(text, to))
    ensures At(text, from) == MINUS || IsDigit(At(text, from))
    ensures var t := NumberToken(text, from); t.kind != ScanError && t.end == to && from < to <= |text|
  {
    hide IsNumber, NumberToken, DigitsEnd;
    NoZeroLeads(text, from, to);
    LongestNumber(text, from, to);
    NumberTokenIsNumber(text, from);
    var e := NumberToken(text, from).end;
    NumberHasBytes(text, from, to);
    if to < e {
      NumberBytes(text, from, e, to);
    }
  }

  lemma NumberHasBytes(text: Bytes, from: nat, to: nat)
    requires IsNumber(text, from, to)
    ensures from < to <= |text|
  {
  }

  lemma NoZeroLeads(text: Bytes, from: nat, to: nat)
    requires IsNumber(text, from, to) && Boundary(At(text, to))
    ensures !LeadingZero(text, from)
  {
    hide DigitsEnd, IsFraction, IsExponent;
    var a: nat, b: nat, c: nat :| IsNumberSplit(text, from, a, b, c, to);
    SignAt(text, from, a, b);
    assert text[a..b][0] == text[a];
    FractionReach(text, b, c);
    ExponentReach(text, c, to);
    if b > a + 1 {
      assert text[a] != DIGIT_ZERO;
    }
  }

  /** The number that the parser makes of a token is the one that it writes. */
  lemma NumberTokenMeans(text: Bytes, from: nat, toDouble: ToDouble)
    requires At(text, from) == MINUS || IsDigit(At(text, from))
    requires NumberToken(text, from).kind != ScanError
    ensures var t := NumberToken(text, from);
            from < t.end <= |text|
            && NumberValue(t.kind, text[from..], t.end - from, toDouble) == NumberMeaning(text, from, t.end, toDouble)
  {
    hide DigitsEnd, Value, FractionEnd, ExponentEnd, IntegerValue;
    FirstBytes();
    NumberBounds(text, from);
    var i := if At(text, from) == MINUS then from + 1 else from;
    var e, t := DigitsEnd(text, i), NumberToken(text, from);
    DigitsAre(text, i);
    FractionIs(text, e);
    ExponentIs(text, FractionEnd(text, e));
    if t.kind == ValueFloat {
      assert text[i..t.end][e - i] == At(text, e);
    } else {
      DigitsMean(text, from, i, e);
    }
  }

  lemma DigitsMean(text: Bytes, from: nat, i: nat, e: nat)
    requires from <= i < e <= |text| && AllDigits(text[i..e]) && !IsDigit(At(text, e))
    requires i == if text[from] == MINUS then from + 1 else from
    ensures var n := Value(text[i..e]);
            IntegerValue(text[from..], e - from) ==
            if i > from then if n <= TWO_TO_THE_63 then Some(Int(-1 * n)) else None
            else if n < TWO_TO_THE_64 then Some(Uint(n)) else None
  {
    hide Value;
    assert text[i..][..e - i] == text[i..e];
    assert e < |text| ==> text[i..][e - i] == At(text, e);
    DigitCountAll(text[i..], e - i);
    assert i > from ==> text[from..][1..] == text[i..];
  }
}
