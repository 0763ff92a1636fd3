/** The recursive-descent parser: the grammar it implements, and the class that implements it with one
    token of lookahead. */
module Parser {
  import opened ByteStrings
  import opened Decimal
  import opened Json
  import opened Lexer
  import opened Scanner
  import opened StringTokens
  import opened Strings
  import opened TokenGrammar
  import opened TokenReader
  import opened Tokens

  /** The outcome of `strtod` on a text whose first bytes are a token: not exactly the token is
      read, an infinity or NaN, or a number. */
  datatype Conversion = NotConverted | NotFinite | Finite(bits: uint64)

  /** `strtod` as a function of the text from the token on and the length of the token. */
  type ToDouble = (Bytes, nat) -> Conversion

  /** `strtoull` or `strtoll` on the text from a token on, if it reads exactly the token and the
      number is in range. */
  function IntegerValue(rest: Bytes, length: nat): Option<Json> {
    var negative := rest != [] && rest[0] == MINUS;
    var digits := if negative then rest[1..] else rest;
    var count := DigitCount(digits);
    var value := Value(digits[..count]);
    if count == 0 || (if negative then count + 1 else count) != length then None
    else if negative then if value <= TWO_TO_THE_63 then Some(Int(-1 * value)) else None
    else if value < TWO_TO_THE_64 then Some(Uint(value)) else None
  }

  /** `get_number`: a number that does not fit its integer type is read as a floating-point number; one
      that cannot be read is discarded. */
  function NumberValue(kind: TokenType, rest: Bytes, length: nat, toDouble: ToDouble): Result<Option<Json>> {
    var integer := if kind == ValueFloat then None else IntegerValue(rest, length);
    if integer.Some? then Ok(integer)
    else
      match toDouble(rest, length)
      case NotConverted => Ok(None)
      case NotFinite => Err(OutOfRange(406))
      case Finite(bits) => Ok(Some(Float(bits)))
  }

  /** The value whose first token is the first one at or after `pos`. */
  function ParseValue(text: Bytes, pos: nat, toDouble: ToDouble): (r: Result<ParsedValue>)
    requires pos <= |text|
    ensures r.Ok? ==> pos < r.value.end <= |text|
    decreases |text| - pos, 1
  {
    ScanBounds(text, pos);
    var t := Scan(text, pos);
    match t.kind
    case BeginObject =>
      var first := Scan(text, t.end);
      ScanBounds(text, t.end);
      if first.kind == EndObject then Ok(ParsedValue(Some(Obj(map[])), first.end))
      else ParseMembers(text, t.end, map[], toDouble)
    case BeginArray =>
      var first := Scan(text, t.end);
      ScanBounds(text, t.end);
      if first.kind == EndArray then Ok(ParsedValue(Some(Arr([])), first.end))
      else ParseItems(text, t.end, [], toDouble)
    case LiteralNull => Ok(ParsedValue(Some(Null), t.end))
    case LiteralTrue => Ok(ParsedValue(Some(Bool(true)), t.end))
    case LiteralFalse => Ok(ParsedValue(Some(Bool(false)), t.end))
    case ValueString =>
      StringTokenShape(text, pos);
      var s :- StringValue(text, t);
      Ok(ParsedValue(Some(Str(s)), t.end))
    case ValueUnsigned => NumberParsed(text, t, toDouble)
    case ValueInteger => NumberParsed(text, t, toDouble)
    case ValueFloat => NumberParsed(text, t, toDouble)
    case _ => Err(ParseError(101))
  }

  function NumberParsed(text: Bytes, t: Token, toDouble: ToDouble): (r: Result<ParsedValue>)
    requires t.start < t.end <= |text|
    ensures r.Ok? ==> r.value.end == t.end
  {
    var n :- NumberValue(t.kind, text[t.start..], t.end - t.start, toDouble);
    Ok(ParsedValue(n, t.end))
  }

  /** The members from `pos` on, up to the closing brace; a later member replaces an earlier one with
      the same key, and a discarded value adds nothing. */
  function ParseMembers(text: Bytes, pos: nat, members: map<Bytes, Json>, toDouble: ToDouble): (r: Result<ParsedValue>)
    requires pos <= |text|
    ensures r.Ok? ==> pos < r.value.end <= |text|
    decreases |text| - pos, 0
  {
    ScanBounds(text, pos);
    var name := Scan(text, pos);
    if name.kind != ValueString then Err(ParseError(101))
    else
      StringTokenShape(text, pos);
      var key :- StringValue(text, name);
      ScanBounds(text, name.end);
      var colon := Scan(text, name.end);
      if colon.kind != NameSeparator then Err(ParseError(101))
      else
        var v :- ParseValue(text, colon.end, toDouble);
        MoreMembers(text, v.end, if v.value.Some? then members[key := v.value.value] else members, toDouble)
  }

  /** What comes after a member that ends at `pos`. */
  function MoreMembers(text: Bytes, pos: nat, members: map<Bytes, Json>, toDouble: ToDouble): (r: Result<ParsedValue>)
    requires pos <= |text|
    ensures r.Ok? ==> pos < r.value.end <= |text|
    decreases |text| - pos, 2
  {
    ScanBounds(text, pos);
    var next := Scan(text, pos);
    if next.kind == ValueSeparator then ParseMembers(text, next.end, members, toDouble)
    else if next.kind == EndObject then Ok(ParsedValue(Some(Obj(members)), next.end))
    else Err(ParseError(101))
  }

  /** The elements from `pos` on, up to the closing bracket. */
  function ParseItems(text: Bytes, pos: nat, items: seq<Json>, toDouble: ToDouble): (r: Result<ParsedValue>)
    requires pos <= |text|
    ensures r.Ok? ==> pos < r.value.end <= |text|
    decreases |text| - pos, 2
  {
    var v :- ParseValue(text, pos, toDouble);
    MoreItems(text, v.end, if v.value.Some? then items + [v.value.value] else items, toDouble)
  }

  /** What comes after an element that ends at `pos`. */
  function MoreItems(text: Bytes, pos: nat, items: seq<Json>, toDouble: ToDouble): (r: Result<ParsedValue>)
    requires pos <= |text|
    ensures r.Ok? ==> pos < r.value.end <= |text|
    decreases |text| - pos, 2
  {
    ScanBounds(text, pos);
    var next := Scan(text, pos);
    if next.kind == ValueSeparator then ParseItems(text, next.end, items, toDouble)
    else if next.kind == EndArray then Ok(ParsedValue(Some(Arr(items)), next.end))
    else Err(ParseError(101))
  }

  /** `parse`: one value and nothing after it; a discarded value becomes null. */
  function Parse(text: Bytes, toDouble: ToDouble): Result<Json> {
    var v :- ParseValue(text, 0, toDouble);
    if Scan(text, v.end).kind != EndOfInput then Err(ParseError(101))
    else Ok(if v.value.Some? then v.value.value else Null)
  }

  /** Nothing that the parser reports is an accident: only the exceptions it documents. */
  predicate Documented(e: Error) {
    e == ParseError(101) || e == ParseError(102) || e == OutOfRange(406)
  }

  lemma {:induction false} ValueErrors(text: Bytes, pos: nat, toDouble: ToDouble)
    requires pos <= |text|
    ensures var r := ParseValue(text, pos, toDouble); r.Err? ==> Documented(r.error)
    decreases |text| - pos, 1
  {
    hide Scan, StringValue, NumberValue;
    ScanBounds(text, pos);
    var t := Scan(text, pos);
    match t.kind
    case BeginObject => MembersErrors(text, t.end, map[], toDouble);
    case BeginArray => ItemsErrors(text, t.end, [], toDouble);
    case ValueString => StringTokenShape(text, pos);
    case ValueUnsigned => NumberErrors(t.kind, text[t.start..], t.end - t.start, toDouble);
    case ValueInteger => NumberErrors(t.kind, text[t.start..], t.end - t.start, toDouble);
    case ValueFloat => NumberErrors(t.kind, text[t.start..], t.end - t.start, toDouble);
    case _ =>
  }

  lemma NumberErrors(kind: TokenType, rest: Bytes, length: nat, toDouble: ToDouble)
    ensures var r := NumberValue(kind, rest, length, toDouble); r.Err? ==> r.error == OutOfRange(406)
  {
  }

  lemma {:induction false} MembersErrors(text: Bytes, pos: nat, members: map<Bytes, Json>, toDouble: ToDouble)
    requires pos <= |text|
    ensures var r := ParseMembers(text, pos, members, toDouble); r.Err? ==> Documented(r.error)
    decreases |text| - pos, 0
  {
    hide Scan, StringValue, ParseValue;
    ScanBounds(text, pos);
    var name := Scan(text, pos);
    if name.kind == ValueString {
      StringTokenShape(text, pos);
      ScanBounds(text, name.end);
      var colon := Scan(text, name.end);
      if StringValue(text, name).Ok? && colon.kind == NameSeparator {
        ValueErrors(text, colon.end, toDouble);
        var v := ParseValue(text, colon.end, toDouble);
        if v.Ok? {
          ScanBounds(text, v.value.end);
          var next := Scan(text, v.value.end);
          if next.kind == ValueSeparator {
            var key := StringValue(text, name).value;
            var added := if v.value.value.Some? then members[key := v.value.value.value] else members;
            MembersErrors(text, next.end, added, toDouble);
          }
        }
      }
    }
  }

  lemma {:induction false} ItemsErrors(text: Bytes, pos: nat, items: seq<Json>, toDouble: ToDouble)
    requires pos <= |text|
    ensures var r := ParseItems(text, pos, items, toDouble); r.Err? ==> Documented(r.error)
    decreases |text| - pos, 2
  {
    hide Scan, ParseValue;
    ValueErrors(text, pos, toDouble);
    var v := ParseValue(text, pos, toDouble);
    if v.Ok? {
      ScanBounds(text, v.value.end);
      var next := Scan(text, v.value.end);
      if next.kind == ValueSeparator {
        ItemsErrors(text, next.end, if v.value.value.Some? then items + [v.value.value.value] else items, toDouble);
      }
    }
  }

  /** `parse` throws nothing but parse_error 101 and 102 and out_of_range 406, on any bytes at all. */
  lemma ParseErrors(text: Bytes, toDouble: ToDouble)
    ensures var r := Parse(text, toDouble); r.Err? ==> Documented(r.error)
  {
    hide ParseValue, Scan;
    ValueErrors(text, 0, toDouble);
  }

  // ---- one step of the grammar ----

  lemma ParseValueUnfold(text: Bytes, pos: nat, toDouble: ToDouble)
    requires pos <= |text|
    ensures var t := Scan(text, pos);
            && pos <= t.start < t.end <= |text| + 1 && (t.kind != EndOfInput ==> t.end <= |text|)
            && var r := ParseValue(text, pos, toDouble);
            && (t.kind == LiteralNull ==> r == Ok(ParsedValue(Some(Null), t.end)))
            && (t.kind == LiteralTrue ==> r == Ok(ParsedValue(Some(Bool(true)), t.end)))
            && (t.kind == LiteralFalse ==> r == Ok(ParsedValue(Some(Bool(false)), t.end)))
            && (t.kind == ValueString && t.start + 2 <= t.end ==>
                  var s := StringValue(text, t);
                  r == if s.Ok? then Ok(ParsedValue(Some(Str(s.value)), t.end)) else Err(s.error))
            && (t.kind == ValueUnsigned || t.kind == ValueInteger || t.kind == ValueFloat ==>
                r == NumberParsed(text, t, toDouble))
            && (t.kind == ScanError ==> r == Err(ParseError(101)))
  {
    hide Scan, ParseMembers, ParseItems, NumberParsed, StringValue;
    ScanBounds(text, pos);
  }

  lemma OpenUnfold(text: Bytes, pos: nat, i: nat, toDouble: ToDouble)
    requires pos <= |text|
    requires Scan(text, pos) == Token(BeginObject, i, i + 1) || Scan(text, pos) == Token(BeginArray, i, i + 1)
    ensures i + 1 <= |text|
    ensures var first, r := Scan(text, i + 1), ParseValue(text, pos, toDouble);
            if Scan(text, pos).kind == BeginObject then
              r == if first.kind == EndObject then Ok(ParsedValue(Some(Obj(map[])), first.end))
                   else ParseMembers(text, i + 1, map[], toDouble)
            else
              r == if first.kind == EndArray then Ok(ParsedValue(Some(Arr([])), first.end))
                   else ParseItems(text, i + 1, [], toDouble)
  {
    hide Scan, ParseMembers, ParseItems;
    ScanBounds(text, pos);
  }

  lemma ParseItemsUnfold(text: Bytes, pos: nat, items: seq<Json>, toDouble: ToDouble)
    requires pos <= |text|
    ensures var v := ParseValue(text, pos, toDouble);
            ParseItems(text, pos, items, toDouble) ==
            if v.Err? then Err(v.error)
            else
              var added := if v.value.value.Some? then items + [v.value.value.value] else items;
              var next := Scan(text, v.value.end);
              if next.kind == ValueSeparator && next.end <= |text| then ParseItems(text, next.end, added, toDouble)
              else if next.kind == EndArray then Ok(ParsedValue(Some(Arr(added)), next.end))
              else Err(ParseError(101))
  {
    hide Scan, ParseValue;
    var v := ParseValue(text, pos, toDouble);
    if v.Ok? {
      ScanBounds(text, v.value.end);
    }
  }

  lemma ParseMembersUnfold(text: Bytes, pos: nat, members: map<Bytes, Json>, toDouble: ToDouble)
    requires pos <= |text|
    ensures var name := Scan(text, pos);
            var r := ParseMembers(text, pos, members, toDouble);
            && (name.kind != ValueString ==> r == Err(ParseError(101)))
            && (name.kind == ValueString && name.start + 2 <= name.end <= |text| && StringValue(text, name).Err? ==>
                  r == Err(StringValue(text, name).error))
            && (name.kind == ValueString && name.start + 2 <= name.end <= |text| && StringValue(text, name).Ok? ==>
                  var colon := Scan(text, name.end);
                  colon.kind == NameSeparator && colon.end <= |text| ==>
                    var v := ParseValue(text, colon.end, toDouble);
                    var key := StringValue(text, name).value;
                    r == if v.Err? then Err(v.error)
                         else MoreMembers(text, v.value.end,
                                          if v.value.value.Some? then members[key := v.value.value.value] else members,
                                          toDouble))
  {
    hide Scan, ParseValue, StringValue, MoreMembers;
  }

  lemma MoreMembersUnfold(text: Bytes, pos: nat, members: map<Bytes, Json>, toDouble: ToDouble)
    requires pos <= |text|
    ensures var next := Scan(text, pos);
            MoreMembers(text, pos, members, toDouble) ==
            if next.kind == ValueSeparator && next.end <= |text| then ParseMembers(text, next.end, members, toDouble)
            else if next.kind == EndObject then Ok(ParsedValue(Some(Obj(members)), next.end))
            else Err(ParseError(101))
  {
    hide Scan, ParseMembers;
    ScanBounds(text, pos);
  }

  /** The parser object. */
  class Parser {
    const tokens: TokenReader

    constructor (text: Bytes)
      ensures fresh(tokens) && fresh(tokens.lexer)
      ensures tokens.lexer.Ready() && tokens.lexer.position == 0 && tokens.Text() == text
    {
      tokens := new TokenReader(text);
    }

    /** `get_number` on the last token. */
    method GetLastNumber(toDouble: ToDouble) returns (r: Result<Option<Json>>)
      requires tokens.Current() && tokens.lexer.position <= |tokens.Text()|
      ensures var t := Scan(tokens.Text(), tokens.from);
              t.start < t.end && r == NumberValue(t.kind, tokens.Text()[t.start..], t.end - t.start, toDouble)
    {
      hide Scan, NumberValue;
      ScanBounds(tokens.Text(), tokens.from);
      var length := tokens.lexer.cursor - tokens.lexer.start;
      var left := |tokens.Text()| - (tokens.lexer.position - length);
      var rest := tokens.lexer.content[tokens.lexer.start..tokens.lexer.start + left];
      assert rest == tokens.Text()[tokens.lexer.origin..];
      r := NumberValue(tokens.lastToken, rest, length, toDouble);
    }

    /** `parse_internal` */
    method ParseInternal(toDouble: ToDouble) returns (r: Result<Option<Json>>)
      requires tokens.Current()
      modifies tokens, tokens.lexer
      ensures tokens.Follows(r, ParseValue(tokens.Text(), old(tokens.from), toDouble))
      decreases |tokens.Text()| - tokens.from, 2
    {
      hide Scan, ParseMembers, ParseItems;
      ScanBounds(tokens.Text(), tokens.from);
      match tokens.lastToken {
        case BeginObject =>
          tokens.GetToken();
          r := ParseObject(toDouble);
        case BeginArray =>
          tokens.GetToken();
          r := ParseArray(toDouble);
        case LiteralNull =>
          tokens.GetToken();
          r := Ok(Some(Null));
        case ValueString =>
          var s := tokens.GetLastString();
          if s.Err? {
            return Err(s.error);
          }
          tokens.GetToken();
          r := Ok(Some(Str(s.value)));
        case LiteralTrue =>
          tokens.GetToken();
          r := Ok(Some(Bool(true)));
        case LiteralFalse =>
          tokens.GetToken();
          r := Ok(Some(Bool(false)));
        case ValueUnsigned =>
          r := ParseNumber(toDouble);
        case ValueInteger =>
          r := ParseNumber(toDouble);
        case ValueFloat =>
          r := ParseNumber(toDouble);
        case _ =>
          r := Err(ParseError(101));
      }
    }

    method ParseNumber(toDouble: ToDouble) returns (r: Result<Option<Json>>)
      requires tokens.Current() && tokens.lexer.position <= |tokens.Text()|
      modifies tokens, tokens.lexer
      ensures var t := Scan(tokens.Text(), old(tokens.from));
              t.start < t.end <= |tokens.Text()| && tokens.Follows(r, NumberParsed(tokens.Text(), t, toDouble))
    {
      hide Scan, NumberValue;
      r := GetLastNumber(toDouble);
      if r.Ok? {
        tokens.GetToken();
      }
    }

    /** After the opening brace. */
    method ParseObject(toDouble: ToDouble) returns (r: Result<Option<Json>>)
      requires tokens.Current()
      modifies tokens, tokens.lexer
      ensures tokens.Follows(r, var first := Scan(tokens.Text(), old(tokens.from));
                         if first.kind == EndObject then Ok(ParsedValue(Some(Obj(map[])), first.end))
                         else ParseMembers(tokens.Text(), old(tokens.from), map[], toDouble))
      decreases |tokens.Text()| - tokens.from, 1
    {
      hide Scan, ParseValue;
      ScanBounds(tokens.Text(), tokens.from);
      if tokens.lastToken == EndObject {
        tokens.GetToken();
        return Ok(Some(Obj(map[])));
      }
      ghost var whole := ParseMembers(tokens.Text(), tokens.from, map[], toDouble);
      if tokens.lastToken == ValueSeparator {
        return Err(ParseError(101));
      }
      var result: map<Bytes, Json> := map[];
      var again := true;
      while again
        invariant tokens.Current() && old(tokens.from) <= tokens.from
        invariant again ==>
                    && tokens.Begin() <= |tokens.Text()|
                    && whole == ParseMembers(tokens.Text(), tokens.Begin(), result, toDouble)
        invariant !again ==>
                    && tokens.lastToken != ValueSeparator
                    && whole == MoreMembers(tokens.Text(), tokens.from, result, toDouble)
        decreases again, if again then |tokens.Text()| - tokens.Begin() else 0
      {
        var added := ParseMember(result, toDouble);
        if added.Err? {
          return Err(added.error);
        }
        result := added.value;
        again := tokens.lastToken == ValueSeparator;
        ScanBounds(tokens.Text(), tokens.from);
      }
      if tokens.lastToken != EndObject {
        return Err(ParseError(101));
      }
      ScanBounds(tokens.Text(), tokens.from);
      tokens.GetToken();
      return Ok(Some(Obj(result)));
    }

    /** One round of the loop over members. */
    method ParseMember(members: map<Bytes, Json>, toDouble: ToDouble) returns (r: Result<map<Bytes, Json>>)
      requires tokens.Current() && tokens.Begin() <= |tokens.Text()|
      modifies tokens, tokens.lexer
      ensures var whole := ParseMembers(tokens.Text(), old(tokens.Begin()), members, toDouble);
              if r.Err? then whole == Err(r.error)
              else
                && tokens.Current() && old(tokens.Begin()) < tokens.from
                && whole == MoreMembers(tokens.Text(), tokens.from, r.value, toDouble)
      decreases |tokens.Text()| - tokens.from, 0
    {
      hide Scan, ParseValue, MoreMembers;
      ScanBounds(tokens.Text(), tokens.from);
      if tokens.lastToken == ValueSeparator {
        tokens.GetToken();
      }
      if tokens.lastToken != ValueString {
        return Err(ParseError(101));
      }
      ScanBounds(tokens.Text(), tokens.from);
      var key := tokens.GetLastString();
      if key.Err? {
        return Err(key.error);
      }
      tokens.GetToken();
      ScanBounds(tokens.Text(), tokens.from);
      if tokens.lastToken != NameSeparator {
        return Err(ParseError(101));
      }
      tokens.GetToken();
      var value := ParseInternal(toDouble);
      if value.Err? {
        return Err(value.error);
      }
      return Ok(if value.value.Some? then members[key.value := value.value.value] else members);
    }

    /** After the opening bracket. */
    method ParseArray(toDouble: ToDouble) returns (r: Result<Option<Json>>)
      requires tokens.Current()
      modifies tokens, tokens.lexer
      ensures tokens.Follows(r, var first := Scan(tokens.Text(), old(tokens.from));
                         if first.kind == EndArray then Ok(ParsedValue(Some(Arr([])), first.end))
                         else ParseItems(tokens.Text(), old(tokens.from), [], toDouble))
      decreases |tokens.Text()| - tokens.from, 4
    {
      hide Scan;
      ScanBounds(tokens.Text(), tokens.from);
      if tokens.lastToken == EndArray {
        tokens.GetToken();
        return Ok(Some(Arr([])));
      }
      ghost var whole := ParseItems(tokens.Text(), tokens.from, [], toDouble);
      if tokens.lastToken == ValueSeparator {
        return Err(ParseError(101));
      }
      var result: seq<Json> := [];
      var again := true;
      while again
        invariant tokens.Current() && old(tokens.from) <= tokens.from
        invariant again ==>
                    && tokens.Begin() <= |tokens.Text()|
                    && whole == ParseItems(tokens.Text(), tokens.Begin(), result, toDouble)
        invariant !again ==>
                    && tokens.lastToken != ValueSeparator
                    && whole == MoreItems(tokens.Text(), tokens.from, result, toDouble)
        decreases again, if again then |tokens.Text()| - tokens.Begin() else 0
      {
        var added := ParseItem(result, toDouble);
        if added.Err? {
          return Err(added.error);
        }
        result := added.value;
        again := tokens.lastToken == ValueSeparator;
        ScanBounds(tokens.Text(), tokens.from);
      }
      if tokens.lastToken != EndArray {
        return Err(ParseError(101));
      }
      ScanBounds(tokens.Text(), tokens.from);
      tokens.GetToken();
      return Ok(Some(Arr(result)));
    }

    /** One round of the loop over elements. */
    method ParseItem(items: seq<Json>, toDouble: ToDouble) returns (r: Result<seq<Json>>)
      requires tokens.Current() && tokens.Begin() <= |tokens.Text()|
      modifies tokens, tokens.lexer
      ensures var whole := ParseItems(tokens.Text(), old(tokens.Begin()), items, toDouble);
              if r.Err? then whole == Err(r.error)
              else
                && tokens.Current() && old(tokens.Begin()) < tokens.from
                && whole == MoreItems(tokens.Text(), tokens.from, r.value, toDouble)
      decreases |tokens.Text()| - tokens.from, 3
    {
      hide Scan, ParseValue, MoreItems;
      ScanBounds(tokens.Text(), tokens.from);
      if tokens.lastToken == ValueSeparator {
        tokens.GetToken();
      }
      var value := ParseInternal(toDouble);
      if value.Err? {
        return Err(value.error);
      }
      return Ok(if value.value.Some? then items + [value.value.value] else items);
    }

    /** `parse`, on a parser that has read nothing yet. */
    method ParseText(toDouble: ToDouble) returns (r: Result<Json>)
      requires tokens.lexer.Ready() && tokens.lexer.position == 0
      modifies tokens, tokens.lexer
      ensures r == Parse(tokens.Text(), toDouble)
    {
      hide Scan, ParseValue;
      tokens.GetToken();
      var result := ParseInternal(toDouble);
      if result.Err? {
        return Err(result.error);
      }
      if tokens.lastToken != EndOfInput {
        return Err(ParseError(101));
      }
      return Ok(if result.value.Some? then result.value.value else Null);
    }
  }
}
