/** The parser of `json_vc11.hpp`, which drops arrays, numbers and booleans, and its relation to the full
    parser. The two scanners are the same automaton. */
module PrunedParser {
  import opened ByteStrings
  import opened Json
  import opened Lexer
  import opened Parser
  import opened Scanner
  import opened StringTokens
  import opened Strings
  import opened TokenGrammar
  import opened TokenReader
  import opened Tokens

  /** The value whose first token is the first one at or after `pos`. */
  function PruneValue(text: Bytes, pos: nat): (r: Result<ParsedValue>)
    requires pos <= |text|
    ensures r.Ok? ==> pos < r.value.end <= |text|
    decreases |text| - pos, 1
  {
    ScanBounds(text, pos);
    var t := Scan(text, pos);
    match t.kind
    case BeginObject =>
      ScanBounds(text, t.end);
      var first := Scan(text, t.end);
      if first.kind == EndObject then Ok(ParsedValue(Some(Obj(map[])), first.end))
      else PruneMembers(text, t.end, map[])
    case BeginArray =>
      ScanBounds(text, t.end);
      var first := Scan(text, t.end);
      if first.kind == EndArray then Ok(ParsedValue(None, first.end))
      else PruneItems(text, t.end)
    case LiteralNull => Ok(ParsedValue(Some(Null), t.end))
    case ValueString =>
      StringTokenShape(text, pos);
      var s :- StringValue(text, t);
      Ok(ParsedValue(Some(Str(s)), t.end))
    case LiteralTrue => Ok(ParsedValue(None, t.end))
    case LiteralFalse => Ok(ParsedValue(None, t.end))
    case ValueUnsigned => Ok(ParsedValue(None, t.end))
    case ValueInteger => Ok(ParsedValue(None, t.end))
    case ValueFloat => Ok(ParsedValue(None, t.end))
    case _ => Err(ParseError(101))
  }

  function PruneMembers(text: Bytes, pos: nat, members: map<Bytes, Json>): (r: Result<ParsedValue>)
    requires pos <= |text|
    ensures r.Ok? ==> pos < r.value.end <= |text|
    decreases |text| - pos, 0
  {
    ScanBounds(text, pos);
    var name := Scan(text, pos);
    if name.kind != ValueString then Err(ParseError(101))
    else
      StringTokenShape(text, pos);
      var key :- StringValue(text, name);
      ScanBounds(text, name.end);
      var colon := Scan(text, name.end);
      if colon.kind != NameSeparator then Err(ParseError(101))
      else
        var v :- PruneValue(text, colon.end);
        MorePruned(text, v.end, if v.value.Some? then members[key := v.value.value] else members)
  }

  function MorePruned(text: Bytes, pos: nat, members: map<Bytes, Json>): (r: Result<ParsedValue>)
    requires pos <= |text|
    ensures r.Ok? ==> pos < r.value.end <= |text|
    decreases |text| - pos, 2
  {
    ScanBounds(text, pos);
    var next := Scan(text, pos);
    if next.kind == ValueSeparator then PruneMembers(text, next.end, members)
    else if next.kind == EndObject then Ok(ParsedValue(Some(Obj(members)), next.end))
    else Err(ParseError(101))
  }

  /** The elements of an array are read and dropped. */
  function PruneItems(text: Bytes, pos: nat): (r: Result<ParsedValue>)
    requires pos <= |text|
    ensures r.Ok? ==> pos < r.value.end <= |text|
    decreases |text| - pos, 2
  {
    var v :- PruneValue(text, pos);
    MorePrunedItems(text, v.end)
  }

  function MorePrunedItems(text: Bytes, pos: nat): (r: Result<ParsedValue>)
    requires pos <= |text|
    ensures r.Ok? ==> pos < r.value.end <= |text|
    decreases |text| - pos, 2
  {
    ScanBounds(text, pos);
    var next := Scan(text, pos);
    if next.kind == ValueSeparator then PruneItems(text, next.end)
    else if next.kind == EndArray then Ok(ParsedValue(None, next.end))
    else Err(ParseError(101))
  }

  function Prune(text: Bytes): Result<Json> {
    var v :- PruneValue(text, 0);
    if Scan(text, v.end).kind != EndOfInput then Err(ParseError(101))
    else Ok(if v.value.Some? then v.value.value else Null)
  }

  // ---- refinement ----

  /** The kinds of values that the pruned parser keeps. */
  predicate Kept(j: Json) {
    j.Null? || j.Str? || j.Obj?
  }

  /** What a full value and the pruned one have in common: nulls and strings are the same, and so is every
      member that is finally null or a string; members that are objects agree in turn. */
  predicate Agree(full: Json, pruned: Json) {
    if full.Obj? then
      && pruned.Obj? && pruned.members.Keys <= full.members.Keys
      && forall k | k in full.members && Kept(full.members[k]) ::
           k in pruned.members && Agree(full.members[k], pruned.members[k])
    else full == pruned
  }

  predicate AgreeOption(full: Option<Json>, pruned: Option<Json>) {
    if full.Some? && Kept(full.value) then pruned.Some? && Agree(full.value, pruned.value) else pruned == None
  }

  /** The outcomes of the two parsers on the same text: the same errors, unless the full one stumbles over
      a number that is out of range; agreeing values, ending at the same place. */
  predicate Related(full: Result<ParsedValue>, pruned: Result<ParsedValue>) {
    match full
    case Ok(f) => pruned.Ok? && f.end == pruned.value.end && AgreeOption(f.value, pruned.value.value)
    case Err(e) => e == OutOfRange(406) || pruned == Err(e)
  }

  lemma {:induction false} ValuesRelated(text: Bytes, pos: nat, toDouble: ToDouble)
    requires pos <= |text|
    ensures Related(ParseValue(text, pos, toDouble), PruneValue(text, pos))
    decreases |text| - pos, 1
  {
    hide Scan, StringValue, NumberValue, ParseMembers, ParseItems, PruneMembers, PruneItems, Agree;
    ScanBounds(text, pos);
    var t := Scan(text, pos);
    match t.kind
    case BeginObject =>
      ScanBounds(text, t.end);
      EmptyAgrees();
      MembersRelated(text, t.end, map[], map[], toDouble);
    case BeginArray =>
      ScanBounds(text, t.end);
      ItemsRelated(text, t.end, [], toDouble);
    case ValueString =>
      StringTokenShape(text, pos);
      ScalarsAgree(text, t);
    case LiteralNull => ScalarsAgree(text, t);
    case ValueUnsigned => NumberDropped(t.kind, text[t.start..], t.end - t.start, toDouble);
    case ValueInteger => NumberDropped(t.kind, text[t.start..], t.end - t.start, toDouble);
    case ValueFloat => NumberDropped(t.kind, text[t.start..], t.end - t.start, toDouble);
    case _ =>
  }

  lemma EmptyAgrees()
    ensures Agree(Obj(map[]), Obj(map[]))
  {
  }

  lemma ScalarsAgree(text: Bytes, t: Token)
    ensures Agree(Null, Null) && forall s :: Agree(Str(s), Str(s))
  {
  }

  lemma NumberDropped(kind: TokenType, rest: Bytes, length: nat, toDouble: ToDouble)
    ensures var r := NumberValue(kind, rest, length, toDouble);
            && (r.Err? ==> r.error == OutOfRange(406))
            && (r.Ok? && r.value.Some? ==> !Kept(r.value.value))
  {
  }

  /** One more member on both sides. */
  lemma MemberAgrees(full: map<Bytes, Json>, pruned: map<Bytes, Json>, key: Bytes, f: Option<Json>, p: Option<Json>)
    requires Agree(Obj(full), Obj(pruned)) && AgreeOption(f, p)
    ensures Agree(Obj(if f.Some? then full[key := f.value] else full),
                  Obj(if p.Some? then pruned[key := p.value] else pruned))
  {
  }

  lemma {:induction false} MembersRelated(text: Bytes, pos: nat, full: map<Bytes, Json>, pruned: map<Bytes, Json>,
                                          toDouble: ToDouble)
    requires pos <= |text| && Agree(Obj(full), Obj(pruned))
    ensures Related(ParseMembers(text, pos, full, toDouble), PruneMembers(text, pos, pruned))
    decreases |text| - pos, 0
  {
    hide Scan, StringValue, ParseValue, PruneValue, Agree, AgreeOption, MoreMembers, MorePruned;
    ScanBounds(text, pos);
    var name := Scan(text, pos);
    if name.kind == ValueString {
      StringTokenShape(text, pos);
      ScanBounds(text, name.end);
      var colon := Scan(text, name.end);
      if StringValue(text, name).Ok? && colon.kind == NameSeparator {
        ValuesRelated(text, colon.end, toDouble);
        var f, p := ParseValue(text, colon.end, toDouble), PruneValue(text, colon.end);
        if f.Ok? {
          var key := StringValue(text, name).value;
          MemberAgrees(full, pruned, key, f.value.value, p.value.value);
          MoreRelated(text, f.value.end, if f.value.value.Some? then full[key := f.value.value.value] else full,
                      if p.value.value.Some? then pruned[key := p.value.value.value] else pruned, toDouble);
        }
      }
    }
  }

  lemma {:induction false} MoreRelated(text: Bytes, pos: nat, full: map<Bytes, Json>, pruned: map<Bytes, Json>,
                                       toDouble: ToDouble)
    requires pos <= |text| && Agree(Obj(full), Obj(pruned))
    ensures Related(MoreMembers(text, pos, full, toDouble), MorePruned(text, pos, pruned))
    decreases |text| - pos, 2
  {
    hide Scan, ParseMembers, PruneMembers, Agree;
    ScanBounds(text, pos);
    var next := Scan(text, pos);
    if next.kind == ValueSeparator {
      MembersRelated(text, next.end, full, pruned, toDouble);
    }
  }

  lemma {:induction false} ItemsRelated(text: Bytes, pos: nat, items: seq<Json>, toDouble: ToDouble)
    requires pos <= |text|
    ensures Related(ParseItems(text, pos, items, toDouble), PruneItems(text, pos))
    decreases |text| - pos, 2
  {
    hide Scan, ParseValue, PruneValue, Agree;
    ValuesRelated(text, pos, toDouble);
    var f := ParseValue(text, pos, toDouble);
    if f.Ok? {
      ScanBounds(text, f.value.end);
      var next := Scan(text, f.value.end);
      if next.kind == ValueSeparator {
        ItemsRelated(text, next.end, if f.value.value.Some? then items + [f.value.value.value] else items, toDouble);
      }
    }
  }

  /** The pruned parser refines the full one on every text: where the full parser succeeds, so does the
      pruned one, and what the pruned one keeps has the same value; where the full parser fails for any
      reason but a number out of range, the pruned one fails with the same error. */
  lemma PrunedRefinesFull(text: Bytes, toDouble: ToDouble)
    ensures var full, pruned := Parse(text, toDouble), Prune(text);
            && (full.Ok? ==>
                  pruned.Ok? && if Kept(full.value) then Agree(full.value, pruned.value) else pruned.value == Null)
            && (full.Err? && full.error != OutOfRange(406) ==> pruned == full)
  {
    hide ParseValue, PruneValue, Scan, Agree;
    ValuesRelated(text, 0, toDouble);
    ScalarsAgree(text, Token(ScanError, 0, 0));
  }

  /** What a client reads: a member that the full parser finds to be a string or null. */
  lemma SameMember(text: Bytes, key: Bytes, toDouble: ToDouble)
    requires var full := Parse(text, toDouble);
             full.Ok? && full.value.Obj? && key in full.value.members
             && (full.value.members[key].Str? || full.value.members[key].Null?)
    ensures var full, pruned := Parse(text, toDouble), Prune(text);
            pruned.Ok? && pruned.value.Obj? && key in pruned.value.members
            && pruned.value.members[key] == full.value.members[key]
  {
    hide Parse, Prune;
    PrunedRefinesFull(text, toDouble);
  }

  // ---- without repeated keys ----

  /** The document without arrays, numbers and booleans. */
  function Projection(j: Json): Json {
    if j.Obj? then Obj(map k | k in j.members && Kept(j.members[k]) :: Projection(j.members[k])) else j
  }

  function ProjectionOption(j: Option<Json>): Option<Json> {
    if j.Some? && Kept(j.value) then Some(Projection(j.value)) else None
  }

  /** No object of the value at `pos`, however deep, repeats a key. */
  predicate UniqueValue(text: Bytes, pos: nat)
    requires pos <= |text|
    decreases |text| - pos, 1
  {
    ScanBounds(text, pos);
    var t := Scan(text, pos);
    match t.kind
    case BeginObject => UniqueMembers(text, t.end, {})
    case BeginArray => UniqueItems(text, t.end)
    case _ => true
  }

  predicate UniqueMembers(text: Bytes, pos: nat, seen: set<Bytes>)
    requires pos <= |text|
    decreases |text| - pos, 0
  {
    ScanBounds(text, pos);
    var name := Scan(text, pos);
    name.kind == ValueString ==>
      (StringTokenShape(text, pos);
       ScanBounds(text, name.end);
       var key, colon := StringValue(text, name), Scan(text, name.end);
       key.Ok? && colon.kind == NameSeparator ==>
         && key.value !in seen
         && UniqueValue(text, colon.end)
         && (PruneValue(text, colon.end).Ok? ==>
               var end := PruneValue(text, colon.end).value.end;
               ScanBounds(text, end);
               var next := Scan(text, end);
               next.kind == ValueSeparator ==> UniqueMembers(text, next.end, seen + {key.value})))
  }

  predicate UniqueItems(text: Bytes, pos: nat)
    requires pos <= |text|
    decreases |text| - pos, 2
  {
    && UniqueValue(text, pos)
    && (PruneValue(text, pos).Ok? ==>
          var end := PruneValue(text, pos).value.end;
          ScanBounds(text, end);
          var next := Scan(text, end);
          next.kind == ValueSeparator ==> UniqueItems(text, next.end))
  }

  // ---- the parser object ----

  /** The parser of `json_vc11.hpp`. */
  class PrunedParser {
    const tokens: TokenReader

    constructor (text: Bytes)
      ensures fresh(tokens) && fresh(tokens.lexer)
      ensures tokens.lexer.Ready() && tokens.lexer.position == 0 && tokens.Text() == text
    {
      tokens := new TokenReader(text);
    }

    /** `parse_internal` */
    method ParseInternal() returns (r: Result<Option<Json>>)
      requires tokens.Current()
      modifies tokens, tokens.lexer
      ensures tokens.Follows(r, PruneValue(tokens.Text(), old(tokens.from)))
      decreases |tokens.Text()| - tokens.from, 2
    {
      hide Scan, PruneMembers, PruneItems;
      ScanBounds(tokens.Text(), tokens.from);
      match tokens.lastToken {
        case BeginObject =>
          tokens.GetToken();
          r := ParseObject();
        case BeginArray =>
          tokens.GetToken();
          r := SkipArray();
        case LiteralNull =>
          tokens.GetToken();
          r := Ok(Some(Null));
        case ValueString =>
          var s := tokens.GetLastString();
          if s.Err? {
            return Err(s.error);
          }
          tokens.GetToken();
          r := Ok(Some(Str(s.value)));
        case LiteralTrue =>
          tokens.GetToken();
          r := Ok(None);
        case LiteralFalse =>
          tokens.GetToken();
          r := Ok(None);
        case ValueUnsigned =>
          tokens.GetToken();
          r := Ok(None);
        case ValueInteger =>
          tokens.GetToken();
          r := Ok(None);
        case ValueFloat =>
          tokens.GetToken();
          r := Ok(None);
        case _ =>
          r := Err(ParseError(101));
      }
    }

    /** After the opening brace. */
    method ParseObject() returns (r: Result<Option<Json>>)
      requires tokens.Current()
      modifies tokens, tokens.lexer
      ensures tokens.Follows(r, var first := Scan(tokens.Text(), old(tokens.from));
                         if first.kind == EndObject then Ok(ParsedValue(Some(Obj(map[])), first.end))
                         else PruneMembers(tokens.Text(), old(tokens.from), map[]))
      decreases |tokens.Text()| - tokens.from, 1
    {
      hide Scan, PruneValue;
      ScanBounds(tokens.Text(), tokens.from);
      if tokens.lastToken == EndObject {
        tokens.GetToken();
        return Ok(Some(Obj(map[])));
      }
      ghost var whole := PruneMembers(tokens.Text(), tokens.from, map[]);
      if tokens.lastToken == ValueSeparator {
        return Err(ParseError(101));
      }
      var result: map<Bytes, Json> := map[];
      var again := true;
      while again
        invariant tokens.Current() && old(tokens.from) <= tokens.from
        invariant again ==>
                    && tokens.Begin() <= |tokens.Text()|
                    && whole == PruneMembers(tokens.Text(), tokens.Begin(), result)
        invariant !again ==>
                    && tokens.lastToken != ValueSeparator
                    && whole == MorePruned(tokens.Text(), tokens.from, result)
        decreases again, if again then |tokens.Text()| - tokens.Begin() else 0
      {
        var added := ParseMember(result);
        if added.Err? {
          return Err(added.error);
        }
        result := added.value;
        again := tokens.lastToken == ValueSeparator;
        ScanBounds(tokens.Text(), tokens.from);
      }
      if tokens.lastToken != EndObject {
        return Err(ParseError(101));
      }
      ScanBounds(tokens.Text(), tokens.from);
      tokens.GetToken();
      return Ok(Some(Obj(result)));
    }

    /** One round of the loop over members. */
    method ParseMember(members: map<Bytes, Json>) returns (r: Result<map<Bytes, Json>>)
      requires tokens.Current() && tokens.Begin() <= |tokens.Text()|
      modifies tokens, tokens.lexer
      ensures var whole := PruneMembers(tokens.Text(), old(tokens.Begin()), members);
              if r.Err? then whole == Err(r.error)
              else
                && tokens.Current() && old(tokens.Begin()) < tokens.from
                && whole == MorePruned(tokens.Text(), tokens.from, r.value)
      decreases |tokens.Text()| - tokens.from, 0
    {
      hide Scan, PruneValue, MorePruned;
      ScanBounds(tokens.Text(), tokens.from);
      if tokens.lastToken == ValueSeparator {
        tokens.GetToken();
      }
      if tokens.lastToken != ValueString {
        return Err(ParseError(101));
      }
      ScanBounds(tokens.Text(), tokens.from);
      var key := tokens.GetLastString();
      if key.Err? {
        return Err(key.error);
      }
      tokens.GetToken();
      ScanBounds(tokens.Text(), tokens.from);
      if tokens.lastToken != NameSeparator {
        return Err(ParseError(101));
      }
      tokens.GetToken();
      var value := ParseInternal();
      if value.Err? {
        return Err(value.error);
      }
      return Ok(if value.value.Some? then members[key.value := value.value.value] else members);
    }

    /** After the opening bracket: the elements are parsed, and the array is discarded. */
    method SkipArray() returns (r: Result<Option<Json>>)
      requires tokens.Current()
      modifies tokens, tokens.lexer
      ensures tokens.Follows(r, var first := Scan(tokens.Text(), old(tokens.from));
                         if first.kind == EndArray then Ok(ParsedValue(None, first.end))
                         else PruneItems(tokens.Text(), old(tokens.from)))
      decreases |tokens.Text()| - tokens.from, 4
    {
      hide Scan, PruneValue;
      ScanBounds(tokens.Text(), tokens.from);
      if tokens.lastToken == EndArray {
        tokens.GetToken();
        return Ok(None);
      }
      ghost var whole := PruneItems(tokens.Text(), tokens.from);
      if tokens.lastToken == ValueSeparator {
        UnexpectedComma(tokens.Text(), tokens.from);
        return Err(ParseError(101));
      }
      var again := true;
      while again
        invariant tokens.Current() && old(tokens.from) <= tokens.from
        invariant again ==> tokens.Begin() <= |tokens.Text()| && whole == PruneItems(tokens.Text(), tokens.Begin())
        invariant !again ==> tokens.lastToken != ValueSeparator && whole == MorePrunedItems(tokens.Text(), tokens.from)
        decreases again, if again then |tokens.Text()| - tokens.Begin() else 0
      {
        ScanBounds(tokens.Text(), tokens.from);
        if tokens.lastToken == ValueSeparator {
          tokens.GetToken();
        }
        var value := ParseInternal();
        if value.Err? {
          return Err(value.error);
        }
        again := tokens.lastToken == ValueSeparator;
        ScanBounds(tokens.Text(), tokens.from);
      }
      if tokens.lastToken != EndArray {
        return Err(ParseError(101));
      }
      ScanBounds(tokens.Text(), tokens.from);
      tokens.GetToken();
      return Ok(None);
    }

    /** `parse`, on a parser that has read nothing yet. */
    method ParseText() returns (r: Result<Json>)
      requires tokens.lexer.Ready() && tokens.lexer.position == 0
      modifies tokens, tokens.lexer
      ensures r == Prune(tokens.Text())
    {
      hide Scan, PruneValue;
      tokens.GetToken();
      var result := ParseInternal();
      if result.Err? {
        return Err(result.error);
      }
      if tokens.lastToken != EndOfInput {
        return Err(ParseError(101));
      }
      return Ok(if result.value.Some? then result.value.value else Null);
    }
  }

  lemma UnexpectedComma(text: Bytes, pos: nat)
    requires pos <= |text| && Scan(text, pos).kind == ValueSeparator
    ensures PruneItems(text, pos) == Err(ParseError(101))
  {
    hide Scan;
  }
}
