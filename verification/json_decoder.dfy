/** `JsonDecoder`: recursive descent over the token stream, building the
    value the target class asks for.

    The decoder's state is the tokenizer cursor and the current token (the
    Java field `token`). Every parse function takes that state and returns
    the value it built with the state after it; a `parseError` reports the
    tokenizer's `loc`, which is the cursor plus one. */
module JsonDecoder {
  import opened Results
  import opened Chars
  import opened Types
  import opened JsonToken
  import opened JsonTokenizer

  /** What `getNextToken` does from lookahead position `p` of `doc`: the
      token it reads and the position it leaves the lookahead at. */
  function Lex(doc: string, p: nat): (r: Result<Cursor>)
    requires p <= |doc| + 1
    ensures r.Success? ==> p <= r.value.pos <= |doc| + 1
    ensures r.Success? && r.value.token.Some? ==> p < r.value.pos
  {
    var pulled :- GetNextToken(doc, p);
    Success(Cursor(pulled.next, pulled.token))
  }

  /** The tokenizer reads nothing but the document from its lookahead
      position on, so what it returns is a function of that position. The
      decoder's state holds that function as a table with an entry for every
      position `0 .. |doc| + 1`, and `nextToken` looks the current position
      up. Entries the decoder never reaches are never consulted, so a lexing
      error past the point where decoding stops has no effect, as in the
      source. */
  function Table(doc: string): (r: seq<Result<Cursor>>)
    ensures |r| == |doc| + 2
  {
    TableFrom(doc, 0)
  }

  /** The entries for positions `i .. |doc| + 1`. */
  function TableFrom(doc: string, i: nat): (r: seq<Result<Cursor>>)
    requires i <= |doc| + 2
    ensures |r| == |doc| + 2 - i
    decreases |doc| + 2 - i
  {
    if i == |doc| + 2 then [] else [Lex(doc, i)] + TableFrom(doc, i + 1)
  }

  /** The document, the token table, and the descriptor the type layer
      reports when asked about the `null` class (`Types.getType(null)`). */
  datatype Ctx = Ctx(doc: string, tokens: seq<Result<Cursor>>, untyped: TypeDesc)

  /** The tokenizer position and the current token (`None` for `null`). */
  datatype Cursor = Cursor(pos: nat, token: Option<Token>)

  /** A value built and the state after it. */
  datatype Parsed = Parsed(value: Value, cur: Cursor)

  /** Every entry of the table leaves the lookahead inside the document, and
      one that reads a token moves it forward. */
  predicate Forward(tokens: seq<Result<Cursor>>) {
    forall p :: 0 <= p < |tokens| ==>
      tokens[p].Success? ==> p <= tokens[p].value.pos < |tokens| && (tokens[p].value.token.Some? ==> p < tokens[p].value.pos)
  }

  /** `p` is a lookahead position of the document, whose table moves forward. */
  predicate ValidPos(ctx: Ctx, p: nat) {
    |ctx.tokens| == |ctx.doc| + 2 && Forward(ctx.tokens) && p <= |ctx.doc| + 1
  }

  /** The table holds what the tokenizer reads at each position (and so it
      moves forward). Only a mention of `Lex` at a position brings the
      tokenizer into a proof. */
  predicate Lexed(ctx: Ctx) {
    |ctx.tokens| == |ctx.doc| + 2 && Forward(ctx.tokens) &&
    forall p {:trigger Lex(ctx.doc, p)} :: 0 <= p < |ctx.tokens| ==> ctx.tokens[p] == Lex(ctx.doc, p)
  }

  /** The table of a document is its tokenizer's. */
  lemma TableLexed(doc: string, untyped: TypeDesc)
    ensures Lexed(Ctx(doc, Table(doc), untyped))
  {
    var t := Table(doc);
    TableFromLexed(doc, 0);
    forall p | 0 <= p < |t|
      ensures t[p] == Lex(doc, p)
    {
      assert TableFrom(doc, 0)[p - 0] == Lex(doc, p);
    }
  }

  lemma {:induction false} TableFromLexed(doc: string, i: nat)
    requires i <= |doc| + 2
    ensures forall p :: i <= p < |doc| + 2 ==> TableFrom(doc, i)[p - i] == Lex(doc, p)
    decreases |doc| + 2 - i
  {
    if i < |doc| + 2 {
      TableFromLexed(doc, i + 1);
    }
  }

  /** The decoder's state for a document, before the first token. */
  function Document(doc: string, untyped: TypeDesc): (ctx: Ctx)
    ensures ctx.doc == doc && ctx.untyped == untyped && Lexed(ctx)
  {
    TableLexed(doc, untyped);
    Ctx(doc, Table(doc), untyped)
  }

  /** `nextToken`. */
  function NextToken(ctx: Ctx, p: nat): (r: Result<Cursor>)
    requires ValidPos(ctx, p)
    ensures r.Success? ==> p <= r.value.pos && ValidPos(ctx, r.value.pos)
    ensures r.Success? && r.value.token.Some? ==> p < r.value.pos
  {
    ctx.tokens[p]
  }

  /** `nextValidToken`: `nextToken`, where the end of input is an error. */
  function NextValid(ctx: Ctx, p: nat): (r: Result<Cursor>)
    requires ValidPos(ctx, p)
    ensures r.Success? ==> p < r.value.pos && ValidPos(ctx, r.value.pos) && r.value.token.Some?
  {
    var c :- NextToken(ctx, p);
    if c.token.None? then Failure(ParseError("Unexpected end of input", c.pos + 1)) else Success(c)
  }

  /** What a container or bean built from descriptor `sh` looks like at every
      point of its parse: the class `newInstance` chose, a set without
      repeated elements, a map without repeated keys, a bean with exactly its
      declared properties in declared order. Anything else stays as created. */
  predicate Fits(v: Value, sh: TypeDesc) {
    match sh
    case ListType(c, _) => v.VList? && v.cls == c
    case SetType(c, _) => v.VSet? && v.cls == c && Distinct(v.elems)
    case MapType(c, _, _) => v.VMap? && v.cls == c && DistinctKeys(v.entries)
    case BeanType(c, props) => v.VBean? && v.cls == c && FieldNames(v.fields) == PropertyNames(props)
    case _ => v == NewInstance(sh)
  }

  /** The `i`-th element. */
  function ElemAt(xs: seq<Value>, i: nat): Value
    requires i < |xs|
  {
    xs[i]
  }

  /** No element occurs twice. */
  predicate Distinct(xs: seq<Value>) {
    forall i, j :: 0 <= i < j < |xs| ==> ElemAt(xs, i) != ElemAt(xs, j)
  }

  function PropertyNames(props: seq<Property>): (r: seq<string>)
    ensures |r| == |props|
    ensures forall i {:trigger r[i]} :: 0 <= i < |r| ==> r[i] == props[i].name
  {
    if props == [] then [] else [props[0].name] + PropertyNames(props[1..])
  }

  /** A freshly created instance fits its descriptor. */
  lemma NewInstanceFits(sh: TypeDesc)
    ensures Fits(NewInstance(sh), sh)
  {
    if sh.BeanType? {
      var v := NewInstance(sh);
      assert FieldNames(v.fields) == PropertyNames(sh.props);
    }
  }

  /** `convertKey`: a member name becomes an enum constant or a seeded bean
      when the map's key class is one; otherwise it stays a `String`. */
  function ConvertKey(ctx: Ctx, key: string, kt: TypeDesc): (r: Value)
    ensures Shape(ctx.untyped, kt).EnumType? ==> r.VEnum? || r == VNull
    ensures Shape(ctx.untyped, kt).BeanType? ==> r == VSeeded(Shape(ctx.untyped, kt).cls, RawText(key))
    ensures !Shape(ctx.untyped, kt).EnumType? && !Shape(ctx.untyped, kt).BeanType? ==> r == VStr(key)
  {
    match Shape(ctx.untyped, kt)
    case EnumType(cls, constants) => ToEnum(cls, constants, key)
    case BeanType(cls, _) => VSeeded(cls, RawText(key))
    case _ => VStr(key)
  }

  /** `parseValue`: dispatches on the current token. */
  function ParseValue(ctx: Ctx, t: TypeDesc, cur: Cursor): (r: Result<Parsed>)
    requires ValidPos(ctx, cur.pos)
    ensures r.Success? ==> cur.pos <= r.value.cur.pos && ValidPos(ctx, r.value.cur.pos)
    ensures cur.token.None? ==> r == Failure(ParseError("Unexpected end of input", cur.pos + 1))
    ensures r.Success? && cur.token.value.IsScalar() ==> r.value.cur == cur
    ensures r.Success? && cur.token == Some(LeftBracket) ==> r.value.cur.token == Some(RightBracket)
    ensures r.Success? && cur.token == Some(LeftBrace) && !t.DecodableType? ==> r.value.cur.token == Some(RightBrace)
    decreases |ctx.doc| + 2 - cur.pos, 3
  {
    if cur.token.None? then Failure(ParseError("Unexpected end of input", cur.pos + 1))
    else
      var tok := cur.token.value;
      if tok == LeftBrace then ParseObject(ctx, t, cur)
      else if tok == LeftBracket then ParseArray(ctx, t, cur)
      else if tok.IsScalar() then
        var v :- ReadValue(tok, t);
        Success(Parsed(v, cur))
      else Failure(ParseError("Unexpected " + ValueText(tok), cur.pos + 1))
  }

  /** `parseObject`, with the current token `{`. A `JsonDecodable` class is
      handed the raw text `getObjectString` copies (any exception there is
      swallowed and the instance is returned unfed). Otherwise the members
      are read into a new instance of the class; `{}` and `{,}` are empty. */
  function ParseObject(ctx: Ctx, t: TypeDesc, cur: Cursor): (r: Result<Parsed>)
    requires ValidPos(ctx, cur.pos)
    ensures r.Success? ==> cur.pos <= r.value.cur.pos && ValidPos(ctx, r.value.cur.pos)
    ensures r.Success? && !t.DecodableType? ==> Fits(r.value.value, Shape(ctx.untyped, t))
    ensures r.Success? && !t.DecodableType? ==> r.value.cur.token == Some(RightBrace)
    ensures t.DecodableType? ==> r.Success? && r.value.value.VDecoded? && r.value.value.cls == t.cls
    ensures t.DecodableType? && GetObjectString(ctx.doc, cur.pos).Success? ==>
              r.value.value.raw == Some(GetObjectString(ctx.doc, cur.pos).value.0)
    decreases |ctx.doc| + 2 - cur.pos, 2
  {
    if t.DecodableType? then
      match GetObjectString(ctx.doc, cur.pos)
      case Failure(_) => Success(Parsed(VDecoded(t.cls, None), cur))
      case Success(span) => Success(Parsed(VDecoded(t.cls, Some(span.0)), Cursor(span.1, cur.token)))
    else
      var sh := Shape(ctx.untyped, t);
      var o := NewInstance(sh);
      NewInstanceFits(sh);
      var c1 :- NextValid(ctx, cur.pos);
      if c1.token.value == RightBrace then Success(Parsed(o, c1))
      else if c1.token.value == Comma then
        var c2 :- NextValid(ctx, c1.pos);
        if c2.token.value == RightBrace then Success(Parsed(o, c2))
        else Failure(ParseError("Leading commas are not supported.  Expecting '}' but found " + ValueText(c2.token.value), c2.pos + 1))
      else Members(ctx, sh, o, c1)
  }

  /** The member loop of `parseObject`: `"key" : value` followed by `}` or by
      `,` and another member. After a comma the token is pulled with
      `nextToken`, so at the end of input the loop reads the type of a `null`
      token and throws. */
  function Members(ctx: Ctx, sh: TypeDesc, o: Value, cur: Cursor): (r: Result<Parsed>)
    requires ValidPos(ctx, cur.pos) && Fits(o, sh)
    ensures r.Success? ==> cur.pos < r.value.cur.pos && ValidPos(ctx, r.value.cur.pos)
    ensures r.Success? ==> Fits(r.value.value, sh) && r.value.cur.token == Some(RightBrace)
    ensures cur.token.None? ==> r == Failure(NullPointer)
    decreases |ctx.doc| + 2 - cur.pos, 5
  {
    if cur.token.None? then Failure(NullPointer)
    else if !cur.token.value.Str? then
      Failure(ParseError("Expecting string but found " + ValueText(cur.token.value), cur.pos + 1))
    else
      var key := cur.token.value.text;
      var c1 :- NextValid(ctx, cur.pos);
      if c1.token.value != Colon then
        Failure(ParseError("Expecting : but found " + ValueText(c1.token.value), c1.pos + 1))
      else
        var c2 :- NextToken(ctx, c1.pos);
        var pm :- AddMember(ctx, sh, o, key, c2);
        var c3 :- NextValid(ctx, pm.cur.pos);
        if c3.token.value == RightBrace then Success(Parsed(pm.value, c3))
        else if c3.token.value == Comma then
          var c4 :- NextToken(ctx, c3.pos);
          Members(ctx, sh, pm.value, c4)
        else Failure(ParseError("Expecting } or , but found " + ValueText(c3.token.value), c3.pos + 1))
  }

  /** `readValue(o, key)`: a map stores the parsed value under the converted
      key; a bean sets a declared property to a value parsed for the
      property's type. For an undeclared property, or an object that is
      neither, nothing is parsed and the current token is left in place. */
  function AddMember(ctx: Ctx, sh: TypeDesc, o: Value, key: string, cur: Cursor): (r: Result<Parsed>)
    requires ValidPos(ctx, cur.pos) && Fits(o, sh)
    ensures r.Success? ==> cur.pos <= r.value.cur.pos && ValidPos(ctx, r.value.cur.pos)
    ensures r.Success? ==> Fits(r.value.value, sh)
    ensures (sh.MapType? || (sh.BeanType? && FindProperty(sh.props, key).Some?)) || r == Success(Parsed(o, cur))
    ensures r.Success? && sh.MapType? ==>
              ParseValue(ctx, sh.val, cur).Success? &&
              Lookup(r.value.value.entries, ConvertKey(ctx, key, sh.key)) == Some(ParseValue(ctx, sh.val, cur).value.value)
    ensures r.Success? && sh.BeanType? ==>
              |r.value.value.fields| == |o.fields| &&
              forall i {:trigger r.value.value.fields[i]} :: 0 <= i < |o.fields| && o.fields[i].name != key ==> r.value.value.fields[i] == o.fields[i]
    decreases |ctx.doc| + 2 - cur.pos, 4
  {
    if sh.MapType? then
      var k := ConvertKey(ctx, key, sh.key);
      var pv :- ParseValue(ctx, sh.val, cur);
      PutKeepsDistinct(o.entries, k, pv.value);
      Success(Parsed(VMap(o.cls, Put(o.entries, k, pv.value)), pv.cur))
    else if sh.BeanType? then
      match FindProperty(sh.props, key)
      case Some(prop) =>
        var pv :- ParseValue(ctx, prop.typ, cur);
        Success(Parsed(VBean(o.cls, SetField(o.fields, key, pv.value)), pv.cur))
      case None => Success(Parsed(o, cur))
    else Success(Parsed(o, cur))
  }

  /** `parseArray`, with the current token `[`: elements are read into a new
      instance of the class; `[]` is empty. */
  function ParseArray(ctx: Ctx, t: TypeDesc, cur: Cursor): (r: Result<Parsed>)
    requires ValidPos(ctx, cur.pos)
    ensures r.Success? ==> cur.pos < r.value.cur.pos && ValidPos(ctx, r.value.cur.pos)
    ensures r.Success? ==> Fits(r.value.value, Shape(ctx.untyped, t)) && r.value.cur.token == Some(RightBracket)
    decreases |ctx.doc| + 2 - cur.pos, 2
  {
    var sh := Shape(ctx.untyped, t);
    var a := NewInstance(sh);
    NewInstanceFits(sh);
    var c1 :- NextValid(ctx, cur.pos);
    if c1.token.value == RightBracket then Success(Parsed(a, c1))
    else Elements(ctx, sh, a, c1)
  }

  /** The element loop of `parseArray`: a value followed by `]` or by `,` and
      another value. */
  function Elements(ctx: Ctx, sh: TypeDesc, a: Value, cur: Cursor): (r: Result<Parsed>)
    requires ValidPos(ctx, cur.pos) && Fits(a, sh)
    ensures r.Success? ==> cur.pos < r.value.cur.pos && ValidPos(ctx, r.value.cur.pos)
    ensures r.Success? ==> Fits(r.value.value, sh) && r.value.cur.token == Some(RightBracket)
    ensures r.Success? && sh.ListType? ==>
              |a.elems| < |r.value.value.elems| && r.value.value.elems[..|a.elems|] == a.elems
    ensures r.Success? && sh.SetType? ==> forall x :: x in a.elems ==> x in r.value.value.elems
    decreases |ctx.doc| + 2 - cur.pos, 5
  {
    var pe :- AddElement(ctx, sh, a, cur);
    var c1 :- NextValid(ctx, pe.cur.pos);
    if c1.token.value == RightBracket then Success(Parsed(pe.value, c1))
    else if c1.token.value == Comma then
      var c2 :- NextToken(ctx, c1.pos);
      Elements(ctx, sh, pe.value, c2)
    else Failure(ParseError("Expecting ] or , but found " + ValueText(c1.token.value), c1.pos + 1))
  }

  /** `readValue(o)`: a list appends the parsed element, a set adds it unless
      an equal one is present; any other object parses nothing and leaves the
      current token in place. */
  function AddElement(ctx: Ctx, sh: TypeDesc, a: Value, cur: Cursor): (r: Result<Parsed>)
    requires ValidPos(ctx, cur.pos) && Fits(a, sh)
    ensures r.Success? ==> cur.pos <= r.value.cur.pos && ValidPos(ctx, r.value.cur.pos)
    ensures r.Success? ==> Fits(r.value.value, sh)
    ensures sh.ListType? || sh.SetType? || r == Success(Parsed(a, cur))
    ensures r.Success? && sh.ListType? ==>
              |r.value.value.elems| == |a.elems| + 1 && r.value.value.elems[..|a.elems|] == a.elems
    ensures r.Success? && sh.SetType? ==> forall x :: x in a.elems ==> x in r.value.value.elems
    decreases |ctx.doc| + 2 - cur.pos, 4
  {
    if sh.ListType? then
      var pv :- ParseValue(ctx, sh.elem, cur);
      Success(Parsed(VList(a.cls, a.elems + [pv.value]), pv.cur))
    else if sh.SetType? then
      var pv :- ParseValue(ctx, sh.elem, cur);
      AddKeepsDistinct(a.elems, pv.value);
      Success(Parsed(VSet(a.cls, Add(a.elems, pv.value)), pv.cur))
    else Success(Parsed(a, cur))
  }

  lemma AddKeepsDistinct(xs: seq<Value>, v: Value)
    requires Distinct(xs)
    ensures Distinct(Add(xs, v))
  {
    var r := Add(xs, v);
    if v !in xs {
      forall i, j | 0 <= i < j < |r|
        ensures ElemAt(r, i) != ElemAt(r, j)
      {
        assert ElemAt(r, i) == xs[i];
        if j < |xs| {
          assert ElemAt(r, j) == xs[j] && ElemAt(xs, i) != ElemAt(xs, j);
        }
      }
    }
  }

  /** The message `decode` reports for input after the value. */
  const TrailingInput := "Unexpected characters left in input stream"

  /** `decode(document, type)`: one value, after which the input must be
      exhausted. */
  function Decode(doc: string, t: TypeDesc, untyped: TypeDesc): (r: Result<Value>)
  {
    var ctx := Document(doc, untyped);
    var c0 :- NextToken(ctx, 0);
    var pv :- ParseValue(ctx, t, c0);
    var c1 :- NextToken(ctx, pv.cur.pos);
    if c1.token.Some? then Failure(ParseError(TrailingInput, c1.pos + 1))
    else Success(pv.value)
  }
}
