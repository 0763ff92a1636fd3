/** What the two parser classes have in common: a lexer, the last token it returned, and `get_token`. */
module TokenReader {
  import opened ByteStrings
  import opened Decimal
  import opened Json
  import opened Lexer
  import opened Scanner
  import opened StringTokens
  import opened Strings
  import opened TokenGrammar
  import opened Tokens

  /** What a value of the grammar is (None for a discarded one) and where it ends. */
  datatype ParsedValue = ParsedValue(value: Option<Json>, end: nat)

  /** `get_string` on a string token. */
  function StringValue(text: Bytes, t: Token): Result<Bytes>
    requires t.start + 2 <= t.end <= |text|
  {
    Decode(text[t.start + 1..t.end - 1])
  }

  lemma StringTokenShape(text: Bytes, pos: nat)
    requires Scan(text, pos).kind == ValueString
    ensures var t := Scan(text, pos);
            && t.start + 2 <= t.end <= |text| && text[t.end - 1] == QUOTE
            && StringEnd(text, t.start + 1) == Some(t.end)
            && Defined(StringValue(text, t))
  {
    hide Run, Scan, StringEnd, NumberToken, SkipBlanks, Stands, Decode;
    ScanIsGrammar(text, pos);
    var p := SkipBlanks(text, pos);
    if At(text, p) == 0x2D || IsDigit(At(text, p)) {
      NumberBounds(text, p);
    } else {
      assert StringEnd(text, p + 1).Some?;
      GetStringDefined(text, p + 1);
    }
  }

  /** `m_lexer` and `last_token` with the methods that only these need. */
  class TokenReader {
    const lexer: Lexer
    var lastToken: TokenType
    /** Where the search for the last token began. */
    ghost var from: nat

    function Text(): Bytes {
      lexer.text
    }

    /** The last token is the one that the lexer stands behind. */
    ghost predicate Current()
      reads this, lexer
    {
      && lexer.Ready() && from <= |lexer.text|
      && var t := Scan(lexer.text, from);
         lastToken == t.kind && lexer.origin == t.start && lexer.position == t.end
    }

    constructor (text: Bytes)
      ensures lexer.Ready() && lexer.position == 0 && lexer.text == text && fresh(lexer)
    {
      lexer := new Lexer(text);
      lastToken := ScanError;
      from := 0;
    }

    /** `get_token` */
    method GetToken()
      requires lexer.Ready() && lexer.position <= |lexer.text|
      modifies this, lexer
      ensures Current() && from == old(lexer.position)
    {
      from := lexer.position;
      lastToken := lexer.ScanToken();
    }

    /** `get_string` on the last token. */
    method GetLastString() returns (r: Result<Bytes>)
      requires Current() && lastToken == ValueString
      ensures var t := Scan(lexer.text, from); t.start + 2 <= t.end <= |lexer.text| && r == StringValue(lexer.text, t)
    {
      hide Scan, Decode;
      ghost var t := Scan(lexer.text, from);
      StringTokenShape(lexer.text, from);
      ghost var inner := lexer.content[lexer.start + 1..lexer.cursor - 1];
      assert inner == lexer.text[t.start + 1..t.end - 1];
      r := GetString(lexer.content, lexer.start, lexer.cursor);
    }

    /** What `parse_internal` and its loops do: they give the value of the grammar, or its error, and
        leave the token behind the value as the last one. */
    ghost predicate Follows(r: Result<Option<Json>>, p: Result<ParsedValue>)
      reads this, lexer
    {
      if p.Err? then r == Err(p.error) else r == Ok(p.value.value) && Current() && from == p.value.end
    }

    /** The position where the next member or element begins: behind a comma, or at the last token. */
    ghost function Begin(): nat
      reads this, lexer
    {
      if lastToken == ValueSeparator then lexer.position else from
    }
  }
}
