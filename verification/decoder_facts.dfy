/** Properties of the decoder on whole documents and at the points where
    the source's grammar is stricter or looser than JSON: empty containers,
    leading and trailing commas, undeclared bean keys, trailing input, and
    the raw text handed to a `JsonDecodable` class. */
module DecoderFacts {
  import opened Results
  import opened Chars
  import opened Types
  import opened JsonToken
  import opened JsonTokenizer
  import opened JsonDecoder
  import opened TokenizerFacts
  import opened NumberGrammar
  import opened TokenFacts

  // ---------------------------------------------------------------------
  // Pulling one token
  // ---------------------------------------------------------------------

  /** Whatever the tokenizer pulls at `p` is the token the table holds there. */
  lemma PullToken(ctx: Ctx, p: nat, tok: Option<Token>, next: nat)
    requires Lexed(ctx) && p <= |ctx.doc| + 1 && GetNextToken(ctx.doc, p) == Success(Pulled(tok, next))
    ensures NextToken(ctx, p) == Success(Cursor(next, tok))
  {
    assert NextToken(ctx, p) == Lex(ctx.doc, p);
  }

  /** A structural character at the cursor is the next token. */
  lemma PullPunctuation(ctx: Ctx, p: nat)
    requires Lexed(ctx)
    requires p < |ctx.doc| && Punctuation(ctx.doc[p]).Some?
    ensures NextToken(ctx, p) == Success(Cursor(p + 1, Punctuation(ctx.doc[p])))
  {
    assert NextToken(ctx, p) == Lex(ctx.doc, p);
    assert Ch(ctx.doc, p) == ctx.doc[p];
    StructuralToken(ctx.doc, p, p);
  }

  /** At the end of the document there is no next token. */
  lemma PullEnd(ctx: Ctx, p: nat)
    requires Lexed(ctx)
    requires |ctx.doc| <= p <= |ctx.doc| + 1
    ensures NextToken(ctx, p) == Success(Cursor(p, None))
  {
    assert NextToken(ctx, p) == Lex(ctx.doc, p);
    assert Ch(ctx.doc, p) == '\0';
  }

  /** A number sentence at the cursor, ended by a character that cannot
      extend it, is the next token. */
  lemma PullNumber(ctx: Ctx, p: nat, e: nat)
    requires Lexed(ctx)
    requires p <= e <= |ctx.doc| && IsJsonNumber(ctx.doc[p..e]) && EndsNumber(Ch(ctx.doc, e))
    ensures NextToken(ctx, p) == Success(Cursor(e, Some(Number(LowerE(ctx.doc[p..e])))))
  {
    assert NextToken(ctx, p) == Lex(ctx.doc, p);
    ReadNumberComplete(ctx.doc, p, e);
    assert SkipIgnored(ctx.doc, p) == Success(p);
    NumberOrStringToken(ctx.doc, p, p);
  }

  /** At a quote the next token is what `readString` reads. */
  lemma PullQuoted(ctx: Ctx, p: nat)
    requires Lexed(ctx) && p < |ctx.doc| && ctx.doc[p] == '"' && ReadString(ctx.doc, p).Success?
    ensures var r := ReadString(ctx.doc, p).value;
      NextToken(ctx, p) == Success(Cursor(r.next, r.token))
  {
    assert NextToken(ctx, p) == Lex(ctx.doc, p);
    assert Ch(ctx.doc, p) == '"';
    assert SkipIgnored(ctx.doc, p) == Success(p);
    NumberOrStringToken(ctx.doc, p, p);
  }

  /** `nextValidToken` agrees with `nextToken` whenever a token follows. */
  lemma NextValidOf(ctx: Ctx, p: nat, c: Cursor)
    requires ValidPos(ctx, p) && NextToken(ctx, p) == Success(c) && c.token.Some?
    ensures NextValid(ctx, p) == Success(c)
  {
  }

  /** A `]` at the cursor is the next valid token. */
  lemma NextCloseBracket(ctx: Ctx, p: nat)
    requires Lexed(ctx) && p < |ctx.doc| && ctx.doc[p] == ']'
    ensures NextValid(ctx, p) == Success(Cursor(p + 1, Some(RightBracket)))
  {
    NextPunctuation(ctx, p);
  }

  /** A `,` at the cursor is the next valid token. */
  lemma NextComma(ctx: Ctx, p: nat)
    requires Lexed(ctx) && p < |ctx.doc| && ctx.doc[p] == ','
    ensures NextValid(ctx, p) == Success(Cursor(p + 1, Some(Comma)))
  {
    NextPunctuation(ctx, p);
  }

  /** A `:` at the cursor is the next valid token. */
  lemma NextColon(ctx: Ctx, p: nat)
    requires Lexed(ctx) && p < |ctx.doc| && ctx.doc[p] == ':'
    ensures NextValid(ctx, p) == Success(Cursor(p + 1, Some(Colon)))
  {
    NextPunctuation(ctx, p);
  }

  /** A `}` at the cursor is the next valid token. */
  lemma NextCloseBrace(ctx: Ctx, p: nat)
    requires Lexed(ctx) && p < |ctx.doc| && ctx.doc[p] == '}'
    ensures NextValid(ctx, p) == Success(Cursor(p + 1, Some(RightBrace)))
  {
    NextPunctuation(ctx, p);
  }

  /** A structural character at the cursor is the next valid token. */
  lemma NextPunctuation(ctx: Ctx, p: nat)
    requires Lexed(ctx) && p < |ctx.doc| && Punctuation(ctx.doc[p]).Some?
    ensures NextValid(ctx, p) == Success(Cursor(p + 1, Punctuation(ctx.doc[p])))
  {
    PullPunctuation(ctx, p);
  }

  // ---------------------------------------------------------------------
  // One step of the parser
  // ---------------------------------------------------------------------

  /** A scalar token is read in place and the cursor does not move. */
  lemma ScalarValue(ctx: Ctx, t: TypeDesc, c: Cursor, v: Value)
    requires ValidPos(ctx, c.pos) && c.token.Some? && c.token.value.IsScalar()
    requires ReadValue(c.token.value, t) == Success(v)
    ensures ParseValue(ctx, t, c) == Success(Parsed(v, c))
  {
  }

  /** An array whose first token is not `]` is its element loop on that token. */
  lemma ArrayOpens(ctx: Ctx, t: TypeDesc, cur: Cursor, c1: Cursor)
    requires ValidPos(ctx, cur.pos) && NextValid(ctx, cur.pos) == Success(c1) && c1.token != Some(RightBracket)
    ensures Fits(NewInstance(Shape(ctx.untyped, t)), Shape(ctx.untyped, t))
    ensures ParseArray(ctx, t, cur) == Elements(ctx, Shape(ctx.untyped, t), NewInstance(Shape(ctx.untyped, t)), c1)
  {
    NewInstanceFits(Shape(ctx.untyped, t));
  }

  /** `[]` is the new instance of the class. */
  lemma ArrayCloses(ctx: Ctx, t: TypeDesc, cur: Cursor, c1: Cursor)
    requires ValidPos(ctx, cur.pos) && NextValid(ctx, cur.pos) == Success(c1) && c1.token == Some(RightBracket)
    ensures ParseArray(ctx, t, cur) == Success(Parsed(NewInstance(Shape(ctx.untyped, t)), c1))
  {
  }

  /** A bracket starts an array and a brace an object. */
  lemma ValueDispatch(ctx: Ctx, t: TypeDesc, cur: Cursor)
    requires ValidPos(ctx, cur.pos)
    ensures cur.token == Some(LeftBracket) ==> ParseValue(ctx, t, cur) == ParseArray(ctx, t, cur)
    ensures cur.token == Some(LeftBrace) ==> ParseValue(ctx, t, cur) == ParseObject(ctx, t, cur)
  {
  }

  /** The list or set `a` with `x` appended. */
  function Grown(a: Value, x: Value): (r: Value)
    requires a.VList? || a.VSet?
    ensures r.VList? == a.VList? && r.VSet? == a.VSet? && r.cls == a.cls && r.elems == a.elems + [x]
  {
    if a.VList? then VList(a.cls, a.elems + [x]) else VSet(a.cls, a.elems + [x])
  }

  /** One element parsed to `pv` and followed by the separator `c1`: a list
      appends it, and so does a set that does not hold it yet. */
  lemma CollectionElement(ctx: Ctx, sh: TypeDesc, a: Value, cur: Cursor, pv: Parsed, c1: Cursor)
    requires (sh.ListType? || sh.SetType?) && ValidPos(ctx, cur.pos) && Fits(a, sh)
    requires sh.SetType? ==> pv.value !in a.elems
    requires ParseValue(ctx, sh.elem, cur) == Success(pv)
    requires ValidPos(ctx, pv.cur.pos) && NextValid(ctx, pv.cur.pos) == Success(c1)
    ensures Fits(Grown(a, pv.value), sh)
    ensures c1.token == Some(RightBracket) ==>
              Elements(ctx, sh, a, cur) == Success(Parsed(Grown(a, pv.value), c1))
    ensures c1.token == Some(Comma) && NextToken(ctx, c1.pos).Success? ==>
              Elements(ctx, sh, a, cur) == Elements(ctx, sh, Grown(a, pv.value), NextToken(ctx, c1.pos).value)
  {
    ElementParsed(ctx, sh, a, cur, pv);
    var pe := Parsed(Grown(a, pv.value), pv.cur);
    if c1.token == Some(RightBracket) {
      ElementsClose(ctx, sh, a, cur, pe.value, pe.cur.pos, c1);
    } else if c1.token == Some(Comma) && NextToken(ctx, c1.pos).Success? {
      ElementsComma(ctx, sh, a, cur, pe.value, pe.cur.pos, c1, NextToken(ctx, c1.pos).value);
    }
  }

  /** An element parsed to `pv` is appended by a list, and by a set that
      does not hold it yet. */
  lemma ElementParsed(ctx: Ctx, sh: TypeDesc, a: Value, cur: Cursor, pv: Parsed)
    requires (sh.ListType? || sh.SetType?) && ValidPos(ctx, cur.pos) && Fits(a, sh)
    requires sh.SetType? ==> pv.value !in a.elems
    requires ParseValue(ctx, sh.elem, cur) == Success(pv)
    ensures AddElement(ctx, sh, a, cur) == Success(Parsed(Grown(a, pv.value), pv.cur))
  {
  }

  /** Reading the element at `cur` into `a` gives `b`, with the cursor left at `e`. */
  predicate Appends(ctx: Ctx, sh: TypeDesc, a: Value, cur: Cursor, b: Value, e: nat) {
    ValidPos(ctx, cur.pos) && Fits(a, sh) && AddElement(ctx, sh, a, cur).Success? &&
    AddElement(ctx, sh, a, cur).value.value == b && AddElement(ctx, sh, a, cur).value.cur.pos == e
  }

  /** After an element, `]` ends the loop with the container built so far. */
  lemma ElementsClose(ctx: Ctx, sh: TypeDesc, a: Value, cur: Cursor, b: Value, e: nat, c1: Cursor)
    requires Appends(ctx, sh, a, cur, b, e)
    requires NextValid(ctx, e) == Success(c1) && c1.token == Some(RightBracket)
    ensures Elements(ctx, sh, a, cur) == Success(Parsed(b, c1))
  {
  }

  /** After an element, a comma continues the loop at the token after it. */
  lemma ElementsComma(ctx: Ctx, sh: TypeDesc, a: Value, cur: Cursor, b: Value, e: nat, c1: Cursor, c2: Cursor)
    requires Appends(ctx, sh, a, cur, b, e)
    requires NextValid(ctx, e) == Success(c1) && c1.token == Some(Comma)
    requires NextToken(ctx, c1.pos) == Success(c2)
    ensures Fits(b, sh)
    ensures Elements(ctx, sh, a, cur) == Elements(ctx, sh, b, c2)
  {
  }

  /** An object whose first token is a string is its member loop on that token. */
  lemma ObjectOpens(ctx: Ctx, t: TypeDesc, cur: Cursor, c1: Cursor)
    requires ValidPos(ctx, cur.pos) && !t.DecodableType?
    requires NextValid(ctx, cur.pos) == Success(c1) && c1.token.value.Str?
    ensures Fits(NewInstance(Shape(ctx.untyped, t)), Shape(ctx.untyped, t))
    ensures ParseObject(ctx, t, cur) == Members(ctx, Shape(ctx.untyped, t), NewInstance(Shape(ctx.untyped, t)), c1)
  {
    NewInstanceFits(Shape(ctx.untyped, t));
  }

  /** Reading the value of member `key` at `cur` into `o` gives `b`, with
      the cursor left at `e`. */
  predicate Adds(ctx: Ctx, sh: TypeDesc, o: Value, key: string, cur: Cursor, b: Value, e: nat) {
    ValidPos(ctx, cur.pos) && Fits(o, sh) && AddMember(ctx, sh, o, key, cur).Success? &&
    AddMember(ctx, sh, o, key, cur).value.value == b && AddMember(ctx, sh, o, key, cur).value.cur.pos == e
  }

  /** One member `"key" : value` that leaves the object `b` with the cursor
      at `e`, followed by `}`: the loop ends with `b` built. */
  lemma MemberCloses(ctx: Ctx, sh: TypeDesc, o: Value, cur: Cursor, key: string,
                     c1: Cursor, c2: Cursor, b: Value, e: nat, c3: Cursor)
    requires ValidPos(ctx, cur.pos) && Fits(o, sh) && cur.token == Some(Str(key))
    requires NextValid(ctx, cur.pos) == Success(c1) && c1.token == Some(Colon)
    requires NextToken(ctx, c1.pos) == Success(c2)
    requires Adds(ctx, sh, o, key, c2, b, e)
    requires NextValid(ctx, e) == Success(c3) && c3.token == Some(RightBrace)
    ensures Members(ctx, sh, o, cur) == Success(Parsed(b, c3))
  {
  }

  /** The same member followed by `,`: the loop goes on from the token `c4`
      after the comma with the object `b` built so far. */
  lemma MemberContinues(ctx: Ctx, sh: TypeDesc, o: Value, cur: Cursor, key: string,
                        c1: Cursor, c2: Cursor, b: Value, e: nat, c3: Cursor, c4: Cursor)
    requires ValidPos(ctx, cur.pos) && Fits(o, sh) && cur.token == Some(Str(key))
    requires NextValid(ctx, cur.pos) == Success(c1) && c1.token == Some(Colon)
    requires NextToken(ctx, c1.pos) == Success(c2)
    requires Adds(ctx, sh, o, key, c2, b, e)
    requires NextValid(ctx, e) == Success(c3) && c3.token == Some(Comma)
    requires NextToken(ctx, c3.pos) == Success(c4)
    ensures Fits(b, sh)
    ensures Members(ctx, sh, o, cur) == Members(ctx, sh, b, c4)
  {
  }

  // ---------------------------------------------------------------------
  // Whole documents
  // ---------------------------------------------------------------------

  /** A document holding only whitespace and comments has no value. */
  lemma DecodeEmptyDocument(doc: string, t: TypeDesc, u: TypeDesc, q: nat)
    requires SkipIgnored(doc, 0) == Success(q) && Ch(doc, q) == '\0'
    ensures Decode(doc, t, u) == Failure(ParseError("Unexpected end of input", q + 1))
  {
    NoTokenAtEnd(doc, 0, q);
  }

  /** After the top-level value the input must be exhausted: when no
      further token follows, the value is the result ... */
  lemma DecodeAfterValue(doc: string, t: TypeDesc, u: TypeDesc, c0: Cursor, pv: Parsed, c1: Cursor)
    requires NextToken(Document(doc, u), 0) == Success(c0)
    requires ParseValue(Document(doc, u), t, c0) == Success(pv)
    requires ValidPos(Document(doc, u), pv.cur.pos) && NextToken(Document(doc, u), pv.cur.pos) == Success(c1)
    requires c1.token.None?
    ensures Decode(doc, t, u) == Success(pv.value)
  {
  }

  /** ... and when one does, decoding fails at it. */
  lemma TrailingInputFails(doc: string, t: TypeDesc, u: TypeDesc, c0: Cursor, pv: Parsed, c1: Cursor)
    requires NextToken(Document(doc, u), 0) == Success(c0)
    requires ParseValue(Document(doc, u), t, c0) == Success(pv)
    requires ValidPos(Document(doc, u), pv.cur.pos) && NextToken(Document(doc, u), pv.cur.pos) == Success(c1)
    requires c1.token.Some?
    ensures Decode(doc, t, u).Failure? && Decode(doc, t, u).error == ParseError(TrailingInput, c1.pos + 1)
  {
  }

  /** A value that fails to parse fails the whole document. */
  lemma DecodeValueFails(doc: string, t: TypeDesc, u: TypeDesc, c0: Cursor, err: Error)
    requires NextToken(Document(doc, u), 0) == Success(c0)
    requires ParseValue(Document(doc, u), t, c0) == Failure(err)
    ensures Decode(doc, t, u) == Failure(err)
  {
  }

  /** `[]`, anywhere in a document and with any whitespace or comments
      between the brackets, is a new instance of the target's class: an
      empty list for a list target. */
  lemma EmptyArray(ctx: Ctx, t: TypeDesc, cur: Cursor, c1: Cursor)
    requires ValidPos(ctx, cur.pos) && cur.token == Some(LeftBracket)
    requires NextValid(ctx, cur.pos) == Success(c1) && c1.token == Some(RightBracket)
    ensures ParseValue(ctx, t, cur) == Success(Parsed(NewInstance(Shape(ctx.untyped, t)), c1))
    ensures t.ListType? ==> ParseValue(ctx, t, cur) == Success(Parsed(VList(t.cls, []), c1))
  {
    ValueDispatch(ctx, t, cur);
    ArrayCloses(ctx, t, cur, c1);
  }

  /** `{}`, anywhere in a document and with anything ignorable between the
      braces, is a fresh instance of the target's class. */
  lemma EmptyObject(ctx: Ctx, t: TypeDesc, cur: Cursor, c1: Cursor)
    requires ValidPos(ctx, cur.pos) && cur.token == Some(LeftBrace) && !t.DecodableType?
    requires NextValid(ctx, cur.pos) == Success(c1) && c1.token == Some(RightBrace)
    ensures ParseValue(ctx, t, cur) == Success(Parsed(NewInstance(Shape(ctx.untyped, t)), c1))
  {
    ValueDispatch(ctx, t, cur);
  }

  /** So is `{,}`. */
  lemma EmptyObjectComma(ctx: Ctx, t: TypeDesc, cur: Cursor, c1: Cursor, c2: Cursor)
    requires ValidPos(ctx, cur.pos) && cur.token == Some(LeftBrace) && !t.DecodableType?
    requires NextValid(ctx, cur.pos) == Success(c1) && c1.token == Some(Comma)
    requires NextValid(ctx, c1.pos) == Success(c2) && c2.token == Some(RightBrace)
    ensures ParseValue(ctx, t, cur) == Success(Parsed(NewInstance(Shape(ctx.untyped, t)), c2))
  {
    ValueDispatch(ctx, t, cur);
    LeadingComma(ctx, t, cur.pos, c1, c2);
  }

  // ---------------------------------------------------------------------
  // Commas and keys
  // ---------------------------------------------------------------------

  /** After a comma, `]` is not a value: `[1,]` fails for a list or set target. */
  lemma ElementExpected(ctx: Ctx, sh: TypeDesc, a: Value, p: nat)
    requires ValidPos(ctx, p) && Fits(a, sh) && (sh.ListType? || sh.SetType?)
    ensures Elements(ctx, sh, a, Cursor(p, Some(RightBracket))) == Failure(ParseError("Unexpected ]", p + 1))
  {
    assert "Unexpected " + ValueText(RightBracket) == "Unexpected ]";
    assert ParseValue(ctx, sh.elem, Cursor(p, Some(RightBracket))) == Failure(ParseError("Unexpected ]", p + 1));
  }

  /** A comma after any element of a list or set, followed by `]`, fails
      at the `]`: the loop reads a value after every comma. */
  lemma TrailingCommaArray(ctx: Ctx, sh: TypeDesc, a: Value, cur: Cursor, pe: Parsed, c1: Cursor, c2: Cursor)
    requires (sh.ListType? || sh.SetType?) && ValidPos(ctx, cur.pos) && Fits(a, sh)
    requires AddElement(ctx, sh, a, cur) == Success(pe)
    requires ValidPos(ctx, pe.cur.pos) && NextValid(ctx, pe.cur.pos) == Success(c1) && c1.token == Some(Comma)
    requires NextToken(ctx, c1.pos) == Success(c2) && c2.token == Some(RightBracket)
    ensures Elements(ctx, sh, a, cur) == Failure(ParseError("Unexpected ]", c2.pos + 1))
  {
    ElementsComma(ctx, sh, a, cur, pe.value, pe.cur.pos, c1, c2);
    ElementExpected(ctx, sh, pe.value, c2.pos);
  }

  /** After a comma, `}` is not a member: `{"a":1,}` fails. */
  lemma MemberExpected(ctx: Ctx, sh: TypeDesc, o: Value, p: nat)
    requires ValidPos(ctx, p) && Fits(o, sh)
    ensures Members(ctx, sh, o, Cursor(p, Some(RightBrace))) ==
              Failure(ParseError("Expecting string but found }", p + 1))
  {
    assert "Expecting string but found " + ValueText(RightBrace) == "Expecting string but found }";
  }

  /** `{,` must be followed by `}`: a leading comma before a member fails. */
  lemma LeadingComma(ctx: Ctx, t: TypeDesc, p: nat, c1: Cursor, c2: Cursor)
    requires ValidPos(ctx, p) && !t.DecodableType?
    requires NextValid(ctx, p) == Success(c1) && c1.token == Some(Comma)
    requires NextValid(ctx, c1.pos) == Success(c2)
    ensures c2.token == Some(RightBrace) ==>
              ParseObject(ctx, t, Cursor(p, Some(LeftBrace))) == Success(Parsed(NewInstance(Shape(ctx.untyped, t)), c2))
    ensures c2.token != Some(RightBrace) ==>
              ParseObject(ctx, t, Cursor(p, Some(LeftBrace))) ==
              Failure(ParseError("Leading commas are not supported.  Expecting '}' but found " + ValueText(c2.token.value), c2.pos + 1))
  {
  }

  /** A key the bean does not declare is not parsed: the one token after the
      colon is skipped and the member loop goes on with the token after it,
      so a scalar value is ignored and the first token inside an object or
      array value is taken for the separator. */
  lemma UndeclaredKeySkipsOneToken(ctx: Ctx, sh: TypeDesc, o: Value, p: nat, key: string,
                                   c1: Cursor, c2: Cursor, c3: Cursor)
    requires sh.BeanType? && FindProperty(sh.props, key).None?
    requires ValidPos(ctx, p) && Fits(o, sh)
    requires NextValid(ctx, p) == Success(c1) && c1.token == Some(Colon)
    requires NextToken(ctx, c1.pos) == Success(c2)
    requires ValidPos(ctx, c2.pos) && NextValid(ctx, c2.pos) == Success(c3)
    ensures c3.token == Some(RightBrace) ==> Members(ctx, sh, o, Cursor(p, Some(Str(key)))) == Success(Parsed(o, c3))
    ensures c3.token != Some(RightBrace) && c3.token != Some(Comma) ==>
              Members(ctx, sh, o, Cursor(p, Some(Str(key)))) ==
              Failure(ParseError("Expecting } or , but found " + ValueText(c3.token.value), c3.pos + 1))
  {
    assert AddMember(ctx, sh, o, key, c2) == Success(Parsed(o, c2));
  }

  /** A later member with an equal key overwrites the earlier value; every
      other key keeps its value, and no key is lost. */
  lemma DuplicateKeyOverwrites(ctx: Ctx, sh: TypeDesc, o: Value, key: string, cur: Cursor)
    requires sh.MapType? && ValidPos(ctx, cur.pos) && Fits(o, sh)
    requires AddMember(ctx, sh, o, key, cur).Success?
    ensures var k := ConvertKey(ctx, key, sh.key);
      var entries := AddMember(ctx, sh, o, key, cur).value.value.entries;
      Lookup(entries, k) == Some(ParseValue(ctx, sh.val, cur).value.value) &&
      (k in Keys(o.entries) ==> Keys(entries) == Keys(o.entries))
    ensures var k := ConvertKey(ctx, key, sh.key);
      var entries := AddMember(ctx, sh, o, key, cur).value.value.entries;
      forall k' :: k' != k ==> Lookup(entries, k') == Lookup(o.entries, k')
    ensures var entries := AddMember(ctx, sh, o, key, cur).value.value.entries;
      forall k' :: k' in Keys(o.entries) ==> k' in Keys(entries)
  {
    var pv := ParseValue(ctx, sh.val, cur).value;
    PutKeys(o.entries, ConvertKey(ctx, key, sh.key), pv.value);
  }

  /** The member loop of a map never drops a key it was given. */
  lemma {:induction false} MembersKeepKeys(ctx: Ctx, sh: TypeDesc, o: Value, cur: Cursor)
    requires sh.MapType? && ValidPos(ctx, cur.pos) && Fits(o, sh)
    requires Members(ctx, sh, o, cur).Success?
    ensures forall k :: k in Keys(o.entries) ==> k in Keys(Members(ctx, sh, o, cur).value.value.entries)
    decreases |ctx.doc| + 2 - cur.pos
  {
    var key := cur.token.value.text;
    var c1 := NextValid(ctx, cur.pos).value;
    var c2 := NextToken(ctx, c1.pos).value;
    var pm := AddMember(ctx, sh, o, key, c2).value;
    DuplicateKeyOverwrites(ctx, sh, o, key, c2);
    var c3 := NextValid(ctx, pm.cur.pos).value;
    if c3.token.value == Comma {
      var c4 := NextToken(ctx, c3.pos).value;
      MembersKeepKeys(ctx, sh, pm.value, c4);
    }
  }

  // ---------------------------------------------------------------------
  // JsonDecodable targets
  // ---------------------------------------------------------------------

  /** A `JsonDecodable` target at `{` is handed the span `getObjectString`
      copies from the lookahead after the `{`, and the cursor moves past the
      span with the `{` still the current token; at the end of input the
      copy throws, which is swallowed, and the instance gets no text. */
  lemma DecodableSpan(ctx: Ctx, cls: string, cur: Cursor)
    requires ValidPos(ctx, cur.pos) && cur.token == Some(LeftBrace)
    ensures cur.pos < |ctx.doc| ==>
              var (text, q) := GetObjectString(ctx.doc, cur.pos).value;
              ParseValue(ctx, DecodableType(cls), cur) == Success(Parsed(VDecoded(cls, Some(text)), Cursor(q, Some(LeftBrace))))
    ensures cur.pos >= |ctx.doc| ==>
              ParseValue(ctx, DecodableType(cls), cur) == Success(Parsed(VDecoded(cls, None), cur))
  {
    ValueDispatch(ctx, DecodableType(cls), cur);
  }

  /** Since the switch reads the lookahead rather than the `{` already
      consumed, a lookahead `[` is counted as an opening bracket on top of
      the starting depth: a bracketed text `[w]` at the lookahead leaves the
      depth at one, and the copy runs on past its `]`, to a later `]` or to
      the end of input. */
  lemma LookaheadBracketCounted(s: string, p: nat, w: string)
    requires p + |w| + 2 <= |s| && s[p] == '[' && s[p + 1..p + |w| + 1] == w && s[p + |w| + 1] == ']'
    requires '[' !in w && ']' !in w
    ensures GetObjectString(s, p).Success?
    ensures var q := GetObjectString(s, p).value.1;
      p + |w| + 2 < q || Ch(s, q) == '\0'
  {
    var (text, q) := Span(s, p, '[', ']', 1);
    SpanStopsAtDepthZero(s, p, '[', ']', 1);
    if q <= p + |w| + 2 && Ch(s, q) != '\0' {
      assert Depth(text, '[', ']', 1) == 0;
      var b := "[" + w + "]";
      assert s[p..p + |w| + 2] == b;
      assert q > p by {
        assert Ch(s, p) == '[';
      }
      assert text == b[..q - p];
      if q - p == |w| + 2 {
        assert text == b;
        BracketedDepth(w, 0);
      } else {
        BracketedDepth(w, q - p - 1);
      }
      assert false;
    }
  }
}
