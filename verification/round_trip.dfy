/** Decoding what the encoder writes. For the values whose text the decoder
    can read back — strings whose control characters have two-character
    escapes, booleans, integers and longs in range, enum constants that
    select themselves, and lists, sets, maps with string keys and beans
    built from them — decoding the unformatted, uncommented encoding with
    the value's own descriptor gives the value back. */
module RoundTrip {
  import opened Results
  import opened Chars
  import opened Types
  import opened JsonToken
  import opened JsonTokenizer
  import opened JsonDecoder
  import opened JsonEncoder
  import opened TokenizerFacts
  import opened NumberGrammar
  import opened TokenFacts
  import opened DecoderFacts
  import opened EscapeFacts
  import opened EncoderFacts

  /** No indentation and no type-name comments. */
  const Plain := Options(false, false)

  /** The enum constant `name` is the first one matching it ignoring case. */
  predicate SelectsItself(constants: seq<string>, name: string) {
    var i := FindConstant(constants, name, 0);
    i.Some? && constants[i.value] == name
  }

  /** The name of the `i`-th field. */
  function NameAt(fields: seq<Field>, i: nat): string
    requires i < |fields|
  {
    fields[i].name
  }

  /** Bean properties with pairwise different names. */
  predicate DistinctNames(fields: seq<Field>) {
    forall i, j :: 0 <= i < j < |fields| ==> NameAt(fields, i) != NameAt(fields, j)
  }

  /** `v` is read back from its encoding when decoded for descriptor `t`. */
  predicate RoundTrips(v: Value, t: TypeDesc)
    decreases v
  {
    match v
    case VStr(s) => t == StringType && ShortControlsOnly(s)
    case VBool(_) => t == BooleanType
    case VInt(i) => t == IntegerType && IntMin <= i <= IntMax
    case VLong(i) => t == LongType && LongMin <= i <= LongMax
    case VEnum(c, n) => t.EnumType? && t.cls == c && SelectsItself(t.constants, n) && ShortControlsOnly(n)
    case VList(c, es) => t.ListType? && t.cls == c && forall i :: 0 <= i < |es| ==> RoundTrips(es[i], t.elem)
    case VSet(c, es) =>
      t.SetType? && t.cls == c && Distinct(es) && forall i :: 0 <= i < |es| ==> RoundTrips(es[i], t.elem)
    case VMap(c, entries) =>
      t.MapType? && t.cls == c && t.key == StringType && |entries| > 0 && DistinctKeys(entries) &&
      forall i :: 0 <= i < |entries| ==>
        entries[i].key.VStr? && ShortControlsOnly(entries[i].key.s) && RoundTrips(entries[i].val, t.val)
    case VBean(c, fields) =>
      t.BeanType? && t.cls == c && FieldNames(fields) == PropertyNames(t.props) && DistinctNames(fields) &&
      (exists i :: 0 <= i < |fields| && fields[i].val != VNull) &&
      forall i :: 0 <= i < |fields| ==>
        ShortControlsOnly(fields[i].name) && (fields[i].val == VNull || RoundTrips(fields[i].val, t.props[i].typ))
    case _ => false
  }

  /** A character a value's text may be followed by. */
  predicate EndsValue(c: char) {
    c == ',' || c == ']' || c == '}' || c == '\0'
  }

  /** A token a value can start with. */
  predicate StartsValue(tok: Option<Token>) {
    tok.Some? && (tok.value.IsScalar() || tok.value == LeftBracket || tok.value == LeftBrace)
  }

  /** The text of `ctx.doc` from `p` to `e` is read as `v` for descriptor `t`. */
  predicate ValueSpan(ctx: Ctx, t: TypeDesc, p: nat, v: Value, e: nat) {
    ValidPos(ctx, p) && NextToken(ctx, p).Success? && StartsValue(NextToken(ctx, p).value.token) &&
    var c := NextToken(ctx, p).value;
    ParseValue(ctx, t, c).Success? && ParseValue(ctx, t, c).value.value == v && ParseValue(ctx, t, c).value.cur.pos == e
  }

  /** `w` is written in `s` at `p`. */
  predicate At(s: string, p: nat, w: string) {
    p + |w| <= |s| && s[p..p + |w|] == w
  }

  // ---------------------------------------------------------------------
  // Scalars
  // ---------------------------------------------------------------------

  /** `Integer.toString` writes a JSON integer, without an exponent. */
  lemma IntTextIsNumber(i: int)
    ensures IsJsonNumber(IntText(i)) && 'E' !in IntText(i)
  {
    var t := IntText(i);
    var m := Unsigned(t);
    if i < 0 {
      assert m == t[1..] == DecimalText(-i);
    } else {
      assert m == t == DecimalText(i);
    }
    assert m[..|m|] == m && m[|m|..|m|] == [] && m[|m|..] == [];
    AllDigitsEach(m);
    assert IsIntPart(m);
    assert SplitsAt(m, |m|, |m|);
  }

  lemma EndsValueEndsNumber(c: char)
    requires EndsValue(c)
    ensures EndsNumber(c)
  {
  }

  /** A number sentence without an exponent letter `E`, followed by a
      character that ends a value, is the next token as written. */
  lemma PullPlainNumber(ctx: Ctx, p: nat, w: string)
    requires Lexed(ctx)
    requires At(ctx.doc, p, w) && IsJsonNumber(w) && 'E' !in w && EndsValue(Ch(ctx.doc, p + |w|))
    ensures NextToken(ctx, p) == Success(Cursor(p + |w|, Some(Number(w))))
  {
    var e := p + |w|;
    EndsValueEndsNumber(Ch(ctx.doc, e));
    LowerENoE(w);
    assert ctx.doc[p..e] == w;
    PullNumber(ctx, p, e);
  }

  /** An escaped string is pulled as the string it escapes. */
  lemma EscapedToken(doc: string, p: nat, s: string)
    requires ShortControlsOnly(s) && At(doc, p, Escape(s))
    ensures GetNextToken(doc, p) == Success(Pulled(Some(Str(s)), p + |Escape(s)|))
  {
    AtChar(doc, p, Escape(s), 0);
    ReadEscaped(doc, p, s);
    assert SkipIgnored(doc, p) == Success(p);
    NumberOrStringToken(doc, p, p);
  }

  lemma PullEscaped(ctx: Ctx, p: nat, s: string)
    requires Lexed(ctx)
    requires ShortControlsOnly(s) && At(ctx.doc, p, Escape(s))
    ensures NextToken(ctx, p) == Success(Cursor(p + |Escape(s)|, Some(Str(s))))
  {
    var doc := ctx.doc;
    EscapedToken(doc, p, s);
    assert GetNextToken(doc, p) == Success(Pulled(Some(Str(s)), p + |Escape(s)|));
    PullToken(ctx, p, Some(Str(s)), p + |Escape(s)|);
  }

  /** `true` and `false` are pulled as the literals they spell. */
  lemma WordToken(doc: string, p: nat, b: bool)
    requires At(doc, p, if b then "true" else "false")
    ensures GetNextToken(doc, p) == Success(Pulled(Some(if b then True else False), p + (if b then 4 else 5)))
  {
    var w := if b then "true" else "false";
    AtChar(doc, p, w, 0);
    assert SkipIgnored(doc, p) == Success(p);
    LiteralToken(doc, p, p);
  }

  lemma PullWord(ctx: Ctx, p: nat, b: bool)
    requires Lexed(ctx)
    requires At(ctx.doc, p, if b then "true" else "false")
    ensures NextToken(ctx, p) ==
              Success(Cursor(p + (if b then 4 else 5), Some(if b then True else False)))
  {
    WordToken(ctx.doc, p, b);
    PullToken(ctx, p, Some(if b then True else False), p + (if b then 4 else 5));
  }

  lemma StringSpan(ctx: Ctx, p: nat, s: string, d: nat, w: string)
    requires Lexed(ctx)
    requires ShortControlsOnly(s) && ConvertToString(Plain, VStr(s), d) == Success(w)
    requires At(ctx.doc, p, w)
    ensures ValueSpan(ctx, StringType, p, VStr(s), p + |w|)
  {
    assert w == Escape(s);
    PullEscaped(ctx, p, s);
    ExactClassMatch(Str(s));
  }

  lemma BoolSpan(ctx: Ctx, p: nat, b: bool, d: nat, w: string)
    requires Lexed(ctx)
    requires ConvertToString(Plain, VBool(b), d) == Success(w) && At(ctx.doc, p, w)
    ensures ValueSpan(ctx, BooleanType, p, VBool(b), p + |w|)
  {
    assert w == if b then "true" else "false";
    PullWord(ctx, p, b);
    ExactClassMatch(if b then True else False);
  }

  /** An integer's text is read back as the integer by its own class. */
  lemma IntRead(v: Value, t: TypeDesc)
    requires (v.VInt? && t == IntegerType && IntMin <= v.i <= IntMax) ||
             (v.VLong? && t == LongType && LongMin <= v.i <= LongMax)
    ensures ReadValue(Number(IntText(v.i)), t) == Success(v)
  {
    IntegerTarget(Number(IntText(v.i)), t);
    IntTextParses(v.i, IntegerRange(t).0, IntegerRange(t).1);
  }

  lemma IntSpan(ctx: Ctx, p: nat, v: Value, t: TypeDesc, d: nat, w: string)
    requires Lexed(ctx)
    requires (v.VInt? && t == IntegerType && IntMin <= v.i <= IntMax) ||
             (v.VLong? && t == LongType && LongMin <= v.i <= LongMax)
    requires ConvertToString(Plain, v, d) == Success(w) && At(ctx.doc, p, w) && EndsValue(Ch(ctx.doc, p + |w|))
    ensures ValueSpan(ctx, t, p, v, p + |w|)
  {
    assert w == IntText(v.i);
    IntTextIsNumber(v.i);
    PullPlainNumber(ctx, p, w);
    IntRead(v, t);
    ScalarValue(ctx, t, Cursor(p + |w|, Some(Number(w))), v);
  }

  /** An enum constant that selects itself is read back from its name. */
  lemma EnumRead(c: string, n: string, t: TypeDesc)
    requires t.EnumType? && t.cls == c && SelectsItself(t.constants, n)
    ensures ReadValue(Str(n), t) == Success(VEnum(c, n))
  {
    ConvertedTargets(Str(n), t);
  }

  lemma EnumSpan(ctx: Ctx, p: nat, c: string, n: string, t: TypeDesc, d: nat, w: string)
    requires Lexed(ctx)
    requires t.EnumType? && t.cls == c && SelectsItself(t.constants, n) && ShortControlsOnly(n)
    requires ConvertToString(Plain, VEnum(c, n), d) == Success(w) && At(ctx.doc, p, w)
    ensures ValueSpan(ctx, t, p, VEnum(c, n), p + |w|)
  {
    assert w == Escape(n);
    PullEscaped(ctx, p, n);
    EnumRead(c, n, t);
    ScalarValue(ctx, t, Cursor(p + |w|, Some(Str(n))), VEnum(c, n));
  }

  // ---------------------------------------------------------------------
  // Text positions and joins
  // ---------------------------------------------------------------------

  /** The two halves of a text written at `p`. */
  lemma AtSplit(s: string, p: nat, x: string, y: string)
    requires At(s, p, x + y)
    ensures At(s, p, x) && At(s, p + |x|, y)
  {
    assert s[p..p + |x|] == (x + y)[..|x|];
    assert s[p + |x|..p + |x| + |y|] == (x + y)[|x|..];
  }

  /** The character at offset `i` of a text written at `p`. */
  lemma AtChar(s: string, p: nat, w: string, i: nat)
    requires At(s, p, w) && i < |w|
    ensures p + i < |s| && s[p + i] == w[i] && Ch(s, p + i) == w[i]
  {
    assert s[p + i] == s[p..p + |w|][i];
  }

  /** The parts from the `k`-th on, joined: the `k`-th, then, unless it is
      the last, the separator and the rest. */
  lemma JoinFrom(parts: seq<string>, sep: string, k: nat)
    requires k < |parts|
    ensures Join(parts[k..], sep) == parts[k] + (if k + 1 < |parts| then sep + Join(parts[k + 1..], sep) else "")
  {
    var r := parts[k..];
    assert r[0] == parts[k];
    if k + 1 < |parts| {
      assert r[1..] == parts[k + 1..];
    }
  }

  /** The text `open`, `body`, `close` written at `p`. */
  lemma EnclosedAt(s: string, p: nat, open: char, body: string, close: char)
    requires At(s, p, [open] + body + [close])
    ensures p < |s| && s[p] == open && Ch(s, p) == open
    ensures At(s, p + 1, body + [close])
  {
    var w := [open] + body + [close];
    AtChar(s, p, w, 0);
    assert w == [open] + (body + [close]);
    AtSplit(s, p, [open], body + [close]);
  }

  /** Parts joined by commas from the `k`-th on and closed by `close`,
      written at `q`, when the `k`-th is not the last: the `k`-th part, a
      comma and the rest. */
  lemma JoinedMore(s: string, q: nat, parts: seq<string>, k: nat, close: char)
    requires k + 1 < |parts| && At(s, q, Join(parts[k..], ",") + [close])
    ensures At(s, q, parts[k]) && q + |parts[k]| < |s| && s[q + |parts[k]|] == ','
    ensures At(s, q + |parts[k]| + 1, Join(parts[k + 1..], ",") + [close])
    ensures |Join(parts[k..], ",")| == |parts[k]| + 1 + |Join(parts[k + 1..], ",")|
  {
    var x := parts[k];
    var y := Join(parts[k + 1..], ",") + [close];
    JoinFrom(parts, ",", k);
    assert Join(parts[k..], ",") + [close] == x + ([','] + y);
    AtSplit(s, q, x, [','] + y);
    AtChar(s, q + |x|, [','] + y, 0);
    AtSplit(s, q + |x|, [','], y);
  }

  /** The same when the `k`-th part is the last: it is followed by `close`. */
  lemma JoinedLast(s: string, q: nat, parts: seq<string>, k: nat, close: char)
    requires k + 1 == |parts| && At(s, q, Join(parts[k..], ",") + [close])
    ensures At(s, q, parts[k]) && q + |parts[k]| < |s| && s[q + |parts[k]|] == close
    ensures |Join(parts[k..], ",")| == |parts[k]|
  {
    var x := parts[k];
    JoinFrom(parts, ",", k);
    assert Join(parts[k..], ",") + [close] == x + [close];
    AtSplit(s, q, x, [close]);
    AtChar(s, q + |x|, [close], 0);
  }

  /** A member `key:value` written at `q`. */
  lemma MemberTextAt(s: string, q: nat, key: string, val: string)
    requires At(s, q, key + ":" + val)
    ensures At(s, q, key) && q + |key| < |s| && s[q + |key|] == ':' && At(s, q + |key| + 1, val)
  {
    var w := key + ":" + val;
    assert w == key + (":" + val);
    AtSplit(s, q, key, ":" + val);
    AtChar(s, q + |key|, ":" + val, 0);
    AtSplit(s, q + |key|, ":", val);
  }

  /** Without indentation every member is written as it is. */
  lemma PrefixedNothing(parts: seq<string>)
    ensures Prefixed("", parts) == parts
  {
    var r := Prefixed("", parts);
    forall i | 0 <= i < |parts|
      ensures r[i] == parts[i]
    {
      assert "" + parts[i] == parts[i];
    }
  }

  /** Without indentation or comments an object with members is its
      members joined by commas, in braces. */
  lemma PlainObjectText(ms: seq<string>, d: nat, cls: string)
    requires ms != [] && forall i :: 0 <= i < |ms| ==> |ms[i]| >= 1
    ensures ObjectText(Plain, ms, d) + Comment(Plain, cls) == "{" + Join(ms, ",") + "}"
  {
    ObjectTextJoin(Plain, ms, d);
    PrefixedNothing(ms);
    assert "," + "" == ",";
    assert ObjectText(Plain, ms, d) == "{" + "" + Join(ms, ",") + "" + "" + "}";
    assert "{" + "" + Join(ms, ",") + "" + "" + "}" == "{" + Join(ms, ",") + "}";
  }

  // ---------------------------------------------------------------------
  // Any value
  // ---------------------------------------------------------------------

  /** The encoding of a value that round-trips, written at `p` and followed
      by a character that ends a value, is read back as that value. */
  lemma {:induction false} ValueAt(ctx: Ctx, p: nat, v: Value, t: TypeDesc, d: nat, w: string)
    requires Lexed(ctx)
    requires RoundTrips(v, t) && Described(v) && ConvertToString(Plain, v, d) == Success(w)
    requires At(ctx.doc, p, w) && EndsValue(Ch(ctx.doc, p + |w|))
    ensures ValueSpan(ctx, t, p, v, p + |w|)
    decreases v, 2, 0
  {
    match v
    case VStr(s) => StringSpan(ctx, p, s, d, w);
    case VBool(b) => BoolSpan(ctx, p, b, d, w);
    case VInt(_) => IntSpan(ctx, p, v, t, d, w);
    case VLong(_) => IntSpan(ctx, p, v, t, d, w);
    case VEnum(c, n) => EnumSpan(ctx, p, c, n, t, d, w);
    case VList(_, _) => CollectionAt(ctx, p, v, t, d, w);
    case VSet(_, _) => CollectionAt(ctx, p, v, t, d, w);
    case VMap(_, _) => MapAt(ctx, p, v, t, d, w);
    case VBean(_, _) => BeanAt(ctx, p, v, t, d, w);
  }

  /** The round trip: a value that round-trips, encoded without indentation
      or comments, decodes with its own descriptor to itself, whatever the
      descriptor of untyped containers. */
  lemma DecodeEncode(v: Value, t: TypeDesc, u: TypeDesc)
    requires RoundTrips(v, t) && Described(v)
    ensures Encode(Plain, v).Success?
    ensures Decode(Encode(Plain, v).value, t, u) == Success(v)
  {
    RoundTripsKeysPresent(v, t);
    EncodeSucceeds(Plain, v, 0);
    var w := Encode(Plain, v).value;
    assert w[0..|w|] == w;
    ValueAt(Document(w, u), 0, v, t, 0, w);
    DecodeWhole(w, t, u, v);
  }

  /** A value that round-trips has no map with a `null` key, so its
      encoding does not throw. */
  lemma {:induction false} RoundTripsKeysPresent(v: Value, t: TypeDesc)
    requires RoundTrips(v, t)
    ensures KeysPresent(v)
    decreases v
  {
    match v
    case VList(_, es) =>
      forall i | 0 <= i < |es| ensures KeysPresent(es[i]) {
        RoundTripsKeysPresent(es[i], t.elem);
      }
    case VSet(_, es) =>
      forall i | 0 <= i < |es| ensures KeysPresent(es[i]) {
        RoundTripsKeysPresent(es[i], t.elem);
      }
    case VMap(_, entries) =>
      forall i | 0 <= i < |entries| ensures KeysPresent(entries[i].val) {
        assert entries[i] in entries;
        RoundTripsKeysPresent(entries[i].val, t.val);
      }
    case VBean(_, fields) =>
      forall i | 0 <= i < |fields| ensures KeysPresent(fields[i].val) {
        assert fields[i] in fields;
        if fields[i].val != VNull {
          RoundTripsKeysPresent(fields[i].val, t.props[i].typ);
        }
      }
    case _ =>
  }

  /** A document that is one value's text from its first character to its
      last decodes to that value. */
  lemma DecodeWhole(doc: string, t: TypeDesc, u: TypeDesc, v: Value)
    requires ValueSpan(Document(doc, u), t, 0, v, |doc|)
    ensures Decode(doc, t, u) == Success(v)
  {
    var ctx := Document(doc, u);
    var c0 := NextToken(ctx, 0).value;
    var pv := ParseValue(ctx, t, c0).value;
    PullEnd(ctx, |doc|);
    DecodeAfterValue(doc, t, u, c0, pv, Cursor(|doc|, None));
  }

  // ---------------------------------------------------------------------
  // Lists and sets
  // ---------------------------------------------------------------------

  /** The first `k` elements, in a container of the same kind and class. */
  function Front(v: Value, k: nat): (r: Value)
    requires (v.VList? || v.VSet?) && k <= |v.elems|
    ensures (r.VList? || r.VSet?) && r.VList? == v.VList? && r.cls == v.cls && r.elems == v.elems[..k]
  {
    if v.VList? then VList(v.cls, v.elems[..k]) else VSet(v.cls, v.elems[..k])
  }

  /** The text of a list or set: the texts of its elements, joined by
      commas, in brackets. */
  lemma CollectionText(v: Value, t: TypeDesc, d: nat, w: string)
    requires (v.VList? || v.VSet?) && RoundTrips(v, t) && Described(v) && ConvertToString(Plain, v, d) == Success(w)
    ensures Items(Plain, v.elems, d).Success?
    ensures var items := Items(Plain, v.elems, d).value;
      w == "[" + Join(items, ",") + "]" && ElementTexts(v, t, d, items)
  {
    ArrayTextJoin(Items(Plain, v.elems, d).value);
    ElementTextsOf(v, t, d, Items(Plain, v.elems, d).value);
  }

  lemma CollectionAt(ctx: Ctx, p: nat, v: Value, t: TypeDesc, d: nat, w: string)
    requires Lexed(ctx)
    requires (v.VList? || v.VSet?) && RoundTrips(v, t) && Described(v) && ConvertToString(Plain, v, d) == Success(w)
    requires At(ctx.doc, p, w)
    ensures ValueSpan(ctx, t, p, v, p + |w|)
    decreases v, 1, 0
  {
    CollectionText(v, t, d, w);
    var items := Items(Plain, v.elems, d).value;
    var body := Join(items, ",");
    EnclosedAt(ctx.doc, p, '[', body, ']');
    PullPunctuation(ctx, p);
    var cur := Cursor(p + 1, Some(LeftBracket));
    ValueDispatch(ctx, t, cur);
    CollectionBody(ctx, v, t, d, items, p + 1);
  }

  /** After the opening bracket, the elements closed by `]` are read as the
      list or set. */
  lemma CollectionBody(ctx: Ctx, v: Value, t: TypeDesc, d: nat, items: seq<string>, q: nat)
    requires Lexed(ctx)
    requires ElementTexts(v, t, d, items) && At(ctx.doc, q, Join(items, ",") + "]")
    ensures ParseArray(ctx, t, Cursor(q, Some(LeftBracket))) ==
              Success(Parsed(v, Cursor(q + |Join(items, ",")| + 1, Some(RightBracket))))
    decreases v, 0, |items| + 2
  {
    var cur := Cursor(q, Some(LeftBracket));
    if items == [] {
      AtChar(ctx.doc, q, Join(items, ",") + "]", 0);
      NextPunctuation(ctx, q);
      ArrayCloses(ctx, t, cur, Cursor(q + 1, Some(RightBracket)));
      assert v == NewInstance(t);
    } else {
      assert items[0..] == items;
      assert Front(v, 0) == NewInstance(t);
      ElementsAt(ctx, v, t, d, items, 0, q, NewInstance(t), Join(items, ","), q + |Join(items, ",")| + 1);
      var c1 := NextToken(ctx, q).value;
      NextValidOf(ctx, q, c1);
      ArrayOpens(ctx, t, cur, c1);
    }
  }

  /** The container of the first `k` elements fits the descriptor, and adding
      the next element to it appends that element. */
  lemma FrontGrows(v: Value, t: TypeDesc, k: nat)
    requires (v.VList? || v.VSet?) && (t.ListType? || t.SetType?) && Fits(v, t) && k < |v.elems|
    ensures Fits(Front(v, k), t) && Fits(Front(v, k + 1), t)
    ensures t.SetType? ==> v.elems[k] !in Front(v, k).elems
    ensures Grown(Front(v, k), v.elems[k]) == Front(v, k + 1)
  {
    var xs := v.elems;
    if t.SetType? {
      forall i, j | 0 <= i < j < k
        ensures ElemAt(xs[..k], i) != ElemAt(xs[..k], j)
      {
        assert ElemAt(xs, i) != ElemAt(xs, j);
      }
      var ys := xs[..k + 1];
      forall i, j | 0 <= i < j < |ys|
        ensures ElemAt(ys, i) != ElemAt(ys, j)
      {
        assert ElemAt(xs, i) != ElemAt(xs, j);
      }
      forall i | 0 <= i < k
        ensures xs[..k][i] != xs[k]
      {
        assert ElemAt(xs, i) != ElemAt(xs, k);
      }
    }
    assert xs[..k + 1] == xs[..k] + [xs[k]];
  }

  /** The `i`-th element of `v` round-trips for the element descriptor and
      is written as `items[i]`. */
  predicate ElementOk(v: Value, t: TypeDesc, d: nat, items: seq<string>, i: nat)
    requires (v.VList? || v.VSet?) && (t.ListType? || t.SetType?)
  {
    i < |v.elems| && i < |items| && RoundTrips(v.elems[i], t.elem) && Described(v.elems[i]) &&
    ConvertToString(Plain, v.elems[i], d) == Success(items[i])
  }

  /** `items` are the texts of the elements of `v`, each of which
      round-trips, and `v` fits `t`. */
  predicate ElementTexts(v: Value, t: TypeDesc, d: nat, items: seq<string>) {
    (v.VList? || v.VSet?) && (t.ListType? || t.SetType?) && Fits(v, t) && |items| == |v.elems| &&
    forall i :: 0 <= i < |items| ==> ElementOk(v, t, d, items, i)
  }

  /** A list or set that round-trips has its element texts. */
  lemma ElementTextsOf(v: Value, t: TypeDesc, d: nat, items: seq<string>)
    requires (v.VList? || v.VSet?) && RoundTrips(v, t) && Described(v)
    requires Items(Plain, v.elems, d) == Success(items)
    ensures ElementTexts(v, t, d, items)
  {
  }

  /** The element loop, started on `a` at the element after `q`, gives `res`. */
  predicate ElementsFrom(ctx: Ctx, t: TypeDesc, a: Value, q: nat, res: Result<Parsed>) {
    ValidPos(ctx, q) && NextToken(ctx, q).Success? && StartsValue(NextToken(ctx, q).value.token) && Fits(a, t) &&
    Elements(ctx, t, a, NextToken(ctx, q).value) == res
  }

  /** The elements from the `k`-th on, written as `body` from `q` and
      closed by `]` just before `after`, read into the container `a` of the
      ones before. */
  lemma {:induction false} ElementsAt(ctx: Ctx, v: Value, t: TypeDesc, d: nat, items: seq<string>, k: nat, q: nat,
                                      a: Value, body: string, after: nat)
    requires Lexed(ctx)
    requires ElementTexts(v, t, d, items) && k < |items|
    requires a == Front(v, k) && body == Join(items[k..], ",") && At(ctx.doc, q, body + "]")
    requires after == q + |body| + 1
    ensures ElementsFrom(ctx, t, a, q, Success(Parsed(v, Cursor(after, Some(RightBracket)))))
    decreases v, 0, |items| - k + 1
  {
    if k + 1 < |items| {
      var q' := q + |items[k]| + 1;
      JoinedMore(ctx.doc, q, items, k, ']');
      ElementsAt(ctx, v, t, d, items, k + 1, q', Front(v, k + 1), Join(items[k + 1..], ","), after);
      ElementNext(ctx, v, t, d, items, k, q, a, Success(Parsed(v, Cursor(after, Some(RightBracket)))));
    } else {
      ElementLast(ctx, v, t, d, items, k, q, a, body, after);
    }
  }

  /** The last element, followed by `]`: the container is complete. */
  lemma {:induction false} ElementLast(ctx: Ctx, v: Value, t: TypeDesc, d: nat, items: seq<string>, k: nat, q: nat,
                                       a: Value, body: string, after: nat)
    requires Lexed(ctx)
    requires ElementTexts(v, t, d, items) && k + 1 == |items|
    requires a == Front(v, k) && body == Join(items[k..], ",") && At(ctx.doc, q, body + "]")
    requires after == q + |body| + 1
    ensures ElementsFrom(ctx, t, a, q, Success(Parsed(v, Cursor(after, Some(RightBracket)))))
    decreases v, 0, 1
  {
    ElementLastText(ctx.doc, v, t, d, items, k, q);
    ElementAt(ctx, v, t, d, items, k, q, a, v);
    ClosedAfter(ctx, t, a, NextToken(ctx, q).value, v, q + |items[k]|, after);
  }

  /** The `k`-th element followed by a comma: when the loop gives `res`
      after the comma with the elements up to the `k`-th, it gives `res`
      from this element with `a`. */
  lemma {:induction false} ElementNext(ctx: Ctx, v: Value, t: TypeDesc, d: nat, items: seq<string>, k: nat, q: nat,
                                       a: Value, res: Result<Parsed>)
    requires Lexed(ctx)
    requires ElementTexts(v, t, d, items) && k + 1 < |items| && a == Front(v, k)
    requires At(ctx.doc, q, items[k]) && q + |items[k]| < |ctx.doc| && ctx.doc[q + |items[k]|] == ','
    requires ElementsFrom(ctx, t, Front(v, k + 1), q + |items[k]| + 1, res)
    ensures ElementsFrom(ctx, t, a, q, res)
    decreases v, 0, 1
  {
    ElementAt(ctx, v, t, d, items, k, q, a, Front(v, k + 1));
    CommaAfter(ctx, t, a, NextToken(ctx, q).value, Front(v, k + 1), q + |items[k]|, res);
  }

  /** The `k`-th element, written at `q` and followed by a comma or `]`, is
      read into `a`, the container of the elements before it, giving `b`. */
  lemma {:induction false} ElementAt(ctx: Ctx, v: Value, t: TypeDesc, d: nat, items: seq<string>, k: nat, q: nat,
                                     a: Value, b: Value)
    requires Lexed(ctx)
    requires ElementTexts(v, t, d, items) && k < |items| && a == Front(v, k) && b == Front(v, k + 1)
    requires At(ctx.doc, q, items[k]) && q + |items[k]| < |ctx.doc|
    requires ctx.doc[q + |items[k]|] == ',' || ctx.doc[q + |items[k]|] == ']'
    ensures Fits(a, t) && ValidPos(ctx, q) && NextToken(ctx, q).Success? && StartsValue(NextToken(ctx, q).value.token)
    ensures Appends(ctx, t, a, NextToken(ctx, q).value, b, q + |items[k]|)
    decreases v, 0, 0
  {
    ElementNextText(v, t, d, items, k);
    ElementValue(ctx, t, a, v.elems[k], b, d, items[k], q);
  }

  /** The text side of `ElementLast`: the last element's text, then `]`,
      and the elements up to the last are the whole container. */
  lemma ElementLastText(s: string, v: Value, t: TypeDesc, d: nat, items: seq<string>, k: nat, q: nat)
    requires ElementTexts(v, t, d, items) && k + 1 == |items|
    requires At(s, q, Join(items[k..], ",") + "]")
    ensures At(s, q, items[k]) && q + |items[k]| < |s| && s[q + |items[k]|] == ']'
    ensures |Join(items[k..], ",")| == |items[k]|
    ensures Front(v, k + 1) == v
  {
    JoinedLast(s, q, items, k, ']');
    assert v.elems[..k + 1] == v.elems;
  }

  /** The element facts `ElementNext` needs about the `k`-th element. */
  lemma ElementNextText(v: Value, t: TypeDesc, d: nat, items: seq<string>, k: nat)
    requires ElementTexts(v, t, d, items) && k < |items|
    ensures ElementOk(v, t, d, items, k) && Fits(Front(v, k), t) && Fits(Front(v, k + 1), t)
    ensures t.SetType? ==> v.elems[k] !in Front(v, k).elems
    ensures Grown(Front(v, k), v.elems[k]) == Front(v, k + 1)
  {
    assert ElementOk(v, t, d, items, k);
    FrontGrows(v, t, k);
  }

  /** An element read into `a` as `b` and followed by `]`: the loop ends. */
  lemma ClosedAfter(ctx: Ctx, t: TypeDesc, a: Value, c: Cursor, b: Value, e: nat, after: nat)
    requires Lexed(ctx) && Appends(ctx, t, a, c, b, e)
    requires e < |ctx.doc| && ctx.doc[e] == ']' && after == e + 1
    ensures Elements(ctx, t, a, c) == Success(Parsed(b, Cursor(after, Some(RightBracket))))
  {
    NextCloseBracket(ctx, e);
    ElementsClose(ctx, t, a, c, b, e, Cursor(after, Some(RightBracket)));
  }

  /** An element read into `a` as `b` and followed by a comma: the loop
      goes on after the comma with `b`. */
  lemma CommaAfter(ctx: Ctx, t: TypeDesc, a: Value, c: Cursor, b: Value, e: nat, res: Result<Parsed>)
    requires Lexed(ctx) && Appends(ctx, t, a, c, b, e)
    requires e < |ctx.doc| && ctx.doc[e] == ','
    requires ElementsFrom(ctx, t, b, e + 1, res)
    ensures Elements(ctx, t, a, c) == res
  {
    NextComma(ctx, e);
    ElementsComma(ctx, t, a, c, b, e, Cursor(e + 1, Some(Comma)), NextToken(ctx, e + 1).value);
  }

  /** An element `el`, written as `x` at `q` and followed by a comma or
      `]`, is read and appended to the container `a`, giving `b`, and the
      cursor is left on the last character of its text. */
  lemma {:induction false} ElementValue(ctx: Ctx, t: TypeDesc, a: Value, el: Value, b: Value, d: nat, x: string, q: nat)
    requires Lexed(ctx)
    requires (t.ListType? || t.SetType?) && (a.VList? || a.VSet?) && Fits(a, t)
    requires t.SetType? ==> el !in a.elems
    requires b == Grown(a, el)
    requires RoundTrips(el, t.elem) && Described(el) && ConvertToString(Plain, el, d) == Success(x)
    requires At(ctx.doc, q, x) && q + |x| < |ctx.doc| && (ctx.doc[q + |x|] == ',' || ctx.doc[q + |x|] == ']')
    ensures ValidPos(ctx, q) && NextToken(ctx, q).Success? && StartsValue(NextToken(ctx, q).value.token)
    ensures Appends(ctx, t, a, NextToken(ctx, q).value, b, q + |x|)
    decreases el, 3
  {
    assert Ch(ctx.doc, q + |x|) == ctx.doc[q + |x|];
    ValueAt(ctx, q, el, t.elem, d, x);
    var c0 := NextToken(ctx, q).value;
    ElementParsed(ctx, t, a, c0, ParseValue(ctx, t.elem, c0).value);
  }

  // ---------------------------------------------------------------------
  // Maps
  // ---------------------------------------------------------------------

  /** Putting a key the entries do not hold appends it. */
  lemma {:induction false} PutNew(entries: seq<Entry>, k: Value, x: Value)
    requires forall i :: 0 <= i < |entries| ==> entries[i].key != k
    ensures Put(entries, k, x) == entries + [Entry(k, x)]
    decreases |entries|
  {
    if entries != [] {
      var rest := entries[1..];
      assert entries[0].key != k;
      PutNew(rest, k, x);
      calc {
        Put(entries, k, x);
        [entries[0]] + Put(rest, k, x);
        [entries[0]] + (rest + [Entry(k, x)]);
        { assert [entries[0]] + rest == entries; }
        entries + [Entry(k, x)];
      }
    }
  }

  /** The `i`-th entry of `v` has a string key and a value that
      round-trips for the value descriptor, and is written as `ms[i]`:
      the key escaped, a colon, and the value printed at depth `d`. */
  predicate EntryOk(v: Value, t: TypeDesc, d: nat, ms: seq<string>, i: nat)
    requires v.VMap? && t.MapType?
  {
    i < |v.entries| && i < |ms| && v.entries[i].key.VStr? && ShortControlsOnly(v.entries[i].key.s) &&
    RoundTrips(v.entries[i].val, t.val) && Described(v.entries[i].val) &&
    ConvertToString(Plain, v.entries[i].val, d).Success? &&
    ms[i] == Escape(v.entries[i].key.s) + ":" + ConvertToString(Plain, v.entries[i].val, d).value
  }

  /** `ms` are the member texts of the entries of the map `v`, in order,
      each of which is right, and `v` fits `t`. */
  predicate EntryTexts(v: Value, t: TypeDesc, d: nat, ms: seq<string>) {
    v.VMap? && t.MapType? && t.key == StringType && Fits(v, t) && |ms| == |v.entries| &&
    forall i :: 0 <= i < |ms| ==> EntryOk(v, t, d, ms, i)
  }

  /** With every value present, the map printer writes `"key":value` for
      each entry, in order. */
  lemma MapMemberTexts(v: Value, t: TypeDesc, d: nat)
    requires v.VMap? && RoundTrips(v, t) && Described(v) && MapMembers(Plain, v.entries, d).Success?
    ensures EntryTexts(v, t, d, MapMembers(Plain, v.entries, d).value)
  {
    var es := v.entries;
    var ms := MapMembers(Plain, es, d).value;
    assert forall i :: 0 <= i < |es| ==> es[i].val != VNull;
    AllEntriesPresent(es);
    MapMembersAre(Plain, es, d);
    forall i | 0 <= i < |ms|
      ensures EntryOk(v, t, d, ms, i)
    {
      EntryMemberText(Plain, es[i], d, ms[i]);
    }
  }

  /** Entries whose values are all present are all printed. */
  lemma {:induction false} AllEntriesPresent(entries: seq<Entry>)
    requires forall i :: 0 <= i < |entries| ==> entries[i].val != VNull
    ensures NonNullEntries(entries) == entries
    decreases |entries|
  {
    if entries != [] {
      AllEntriesPresent(entries[1..]);
      assert [entries[0]] + entries[1..] == entries;
    }
  }

  /** The text of a map with string keys: its members `"key":value`,
      joined by commas, in braces. */
  lemma MapText(v: Value, t: TypeDesc, d: nat, w: string)
    requires v.VMap? && RoundTrips(v, t) && Described(v) && ConvertToString(Plain, v, d) == Success(w)
    ensures MapMembers(Plain, v.entries, d + 1).Success?
    ensures var ms := MapMembers(Plain, v.entries, d + 1).value;
      w == "{" + Join(ms, ",") + "}" && ms != [] && EntryTexts(v, t, d + 1, ms)
  {
    var ms := MapMembers(Plain, v.entries, d + 1).value;
    assert w == ObjectText(Plain, ms, d) + Comment(Plain, v.cls);
    MapMemberTexts(v, t, d + 1);
    forall i | 0 <= i < |ms|
      ensures |ms[i]| >= 1
    {
      assert EntryOk(v, t, d + 1, ms, i);
    }
    PlainObjectText(ms, d, v.cls);
  }

  lemma MapAt(ctx: Ctx, p: nat, v: Value, t: TypeDesc, d: nat, w: string)
    requires Lexed(ctx)
    requires v.VMap? && RoundTrips(v, t) && Described(v) && ConvertToString(Plain, v, d) == Success(w)
    requires At(ctx.doc, p, w)
    ensures ValueSpan(ctx, t, p, v, p + |w|)
    decreases v, 1, 0
  {
    MapText(v, t, d, w);
    var ms := MapMembers(Plain, v.entries, d + 1).value;
    var body := Join(ms, ",");
    EnclosedAt(ctx.doc, p, '{', body, '}');
    PullPunctuation(ctx, p);
    var cur := Cursor(p + 1, Some(LeftBrace));
    ValueDispatch(ctx, t, cur);
    MapBody(ctx, v, t, d, ms, p + 1, body, p + 1 + |body| + 1);
  }

  /** After the opening brace, the members `ms` joined as `body` and closed
      by `}` before `after` are read as the map. */
  lemma MapBody(ctx: Ctx, v: Value, t: TypeDesc, d: nat, ms: seq<string>, q: nat, body: string, after: nat)
    requires Lexed(ctx)
    requires EntryTexts(v, t, d + 1, ms) && ms != []
    requires body == Join(ms, ",") && At(ctx.doc, q, body + "}") && after == q + |body| + 1
    ensures ParseObject(ctx, t, Cursor(q, Some(LeftBrace))) == Success(Parsed(v, Cursor(after, Some(RightBrace))))
    decreases v, 0, |ms| + 3
  {
    assert ms[0..] == ms;
    assert VMap(v.cls, v.entries[..0]) == NewInstance(t);
    MembersOfMapAt(ctx, v, t, d, ms, 0, q, NewInstance(t), body, after);
    ObjectBody(ctx, t, q, Success(Parsed(v, Cursor(after, Some(RightBrace)))));
  }

  /** An object whose member loop, started on the new instance at the first
      member, gives `res`, gives `res`. */
  lemma ObjectBody(ctx: Ctx, t: TypeDesc, q: nat, res: Result<Parsed>)
    requires (t.MapType? || t.BeanType?) && MembersFrom(ctx, t, NewInstance(t), q, res)
    ensures ParseObject(ctx, t, Cursor(q, Some(LeftBrace))) == res
  {
    var c1 := NextToken(ctx, q).value;
    NextValidOf(ctx, q, c1);
    ObjectOpens(ctx, t, Cursor(q, Some(LeftBrace)), c1);
  }

  /** Members joined by commas from the `k`-th on (`body`) and closed by
      `close`, written at `q`, where the `k`-th member is the key text `kt`,
      a colon and the value text `y`: where each part sits, and what
      follows the member. */
  lemma MemberJoinText(s: string, q: nat, ms: seq<string>, k: nat, kt: string, y: string, close: char,
                       body: string, body': string)
    requires k < |ms| && ms[k] == kt + ":" + y && (close == '}' || close == ']')
    requires body == Join(ms[k..], ",") && At(s, q, body + [close])
    requires k + 1 < |ms| ==> body' == Join(ms[k + 1..], ",")
    ensures At(s, q, kt + ":") && At(s, q + |kt| + 1, y) && |ms[k]| == |kt| + 1 + |y|
    ensures q + |ms[k]| < |s| && EndsValue(Ch(s, q + |ms[k]|))
    ensures k + 1 < |ms| ==>
              s[q + |ms[k]|] == ',' && At(s, q + |ms[k]| + 1, body' + [close]) &&
              |body| == |ms[k]| + 1 + |body'|
    ensures k + 1 == |ms| ==> s[q + |ms[k]|] == close && |body| == |ms[k]|
  {
    if k + 1 < |ms| {
      JoinedMore(s, q, ms, k, close);
    } else {
      JoinedLast(s, q, ms, k, close);
    }
    assert ms[k] == (kt + ":") + y;
    AtSplit(s, q, kt + ":", y);
  }

  /** The key of a member and the colon after it. */
  lemma KeyColon(ctx: Ctx, q: nat, key: string)
    requires Lexed(ctx) && ShortControlsOnly(key) && At(ctx.doc, q, Escape(key) + ":")
    ensures NextToken(ctx, q) == Success(Cursor(q + |Escape(key)|, Some(Str(key))))
    ensures NextValid(ctx, q + |Escape(key)|) == Success(Cursor(q + |Escape(key)| + 1, Some(Colon)))
  {
    AtSplit(ctx.doc, q, Escape(key), ":");
    PullEscaped(ctx, q, key);
    AtChar(ctx.doc, q + |Escape(key)|, ":", 0);
    NextColon(ctx, q + |Escape(key)|);
  }

  /** A member `"key":value` at `q` that makes the object `o` into `b` and
      ends at `e`, followed by `}`: the loop ends with `b`. */
  lemma MemberThenClose(ctx: Ctx, sh: TypeDesc, o: Value, key: string, q: nat, b: Value, e: nat, after: nat)
    requires Lexed(ctx) && ShortControlsOnly(key)
    requires At(ctx.doc, q, Escape(key) + ":") && MemberRead(ctx, sh, o, key, q + |Escape(key)| + 1, b, e)
    requires e < |ctx.doc| && ctx.doc[e] == '}' && after == e + 1
    ensures MembersFrom(ctx, sh, o, q, Success(Parsed(b, Cursor(after, Some(RightBrace)))))
  {
    KeyColon(ctx, q, key);
    NextCloseBrace(ctx, e);
    MemberCloses(ctx, sh, o, Cursor(q + |Escape(key)|, Some(Str(key))), key,
                 Cursor(q + |Escape(key)| + 1, Some(Colon)), NextToken(ctx, q + |Escape(key)| + 1).value,
                 b, e, Cursor(after, Some(RightBrace)));
  }

  /** The same member followed by a comma: when the loop gives `res` from
      the key after the comma with `b`, it gives `res` from this member with `o`. */
  lemma MemberThenMore(ctx: Ctx, sh: TypeDesc, o: Value, key: string, q: nat, b: Value, e: nat,
                       res: Result<Parsed>)
    requires Lexed(ctx) && ShortControlsOnly(key)
    requires At(ctx.doc, q, Escape(key) + ":") && MemberRead(ctx, sh, o, key, q + |Escape(key)| + 1, b, e)
    requires e < |ctx.doc| && ctx.doc[e] == ','
    requires MembersFrom(ctx, sh, b, e + 1, res)
    ensures MembersFrom(ctx, sh, o, q, res)
  {
    KeyColon(ctx, q, key);
    NextComma(ctx, e);
    MemberContinues(ctx, sh, o, Cursor(q + |Escape(key)|, Some(Str(key))), key,
                    Cursor(q + |Escape(key)| + 1, Some(Colon)), NextToken(ctx, q + |Escape(key)| + 1).value,
                    b, e, Cursor(e + 1, Some(Comma)), NextToken(ctx, e + 1).value);
  }

  /** The value of the member `key`, written from `p` on, is read into `o`,
      giving `b`, and ends at `e`. */
  predicate MemberRead(ctx: Ctx, sh: TypeDesc, o: Value, key: string, p: nat, b: Value, e: nat) {
    ValidPos(ctx, p) && NextToken(ctx, p).Success? && Adds(ctx, sh, o, key, NextToken(ctx, p).value, b, e)
  }

  /** The map of the entries before the `k`-th, and the `k`-th entry. */
  lemma MapFront(v: Value, t: TypeDesc, k: nat)
    requires v.VMap? && t.MapType? && Fits(v, t) && k < |v.entries|
    ensures Fits(VMap(v.cls, v.entries[..k]), t)
    ensures forall i :: 0 <= i < k ==> v.entries[..k][i].key != v.entries[k].key
    ensures v.entries[..k] + [v.entries[k]] == v.entries[..k + 1]
    ensures v.entries[k].val < v
  {
    var es := v.entries;
    var en := es[k];
    assert en in es;
    forall i, j | 0 <= i < j < k
      ensures KeyAt(es[..k], i) != KeyAt(es[..k], j)
    {
      assert KeyAt(es, i) != KeyAt(es, j);
    }
    forall i | 0 <= i < k
      ensures es[..k][i].key != en.key
    {
      assert KeyAt(es, i) != KeyAt(es, k);
    }
  }

  /** The value of the `k`-th entry of `v`, written as `x` at `p`, is put
      into `o`, the map of the entries before it, as a new last entry,
      giving `b`, and the value ends at `e`. */
  lemma {:induction false} MapValueAdded(ctx: Ctx, v: Value, t: TypeDesc, d: nat, ms: seq<string>, k: nat,
                                         o: Value, b: Value, x: string, p: nat, e: nat)
    requires Lexed(ctx) && EntryTexts(v, t, d + 1, ms) && k < |ms|
    requires o == VMap(v.cls, v.entries[..k]) && b == VMap(v.cls, v.entries[..k + 1])
    requires Described(v.entries[k].val) && ConvertToString(Plain, v.entries[k].val, d + 1) == Success(x)
    requires At(ctx.doc, p, x) && e == p + |x| && EndsValue(Ch(ctx.doc, e))
    ensures v.entries[k].key.VStr? && MemberRead(ctx, t, o, v.entries[k].key.s, p, b, e)
    decreases v, 0, 0
  {
    var en := v.entries[k];
    EntryFront(v, t, d, ms, k);
    ValueAt(ctx, p, en.val, t.val, d + 1, x);
    PutNew(o.entries, en.key, en.val);
    assert ConvertKey(ctx, en.key.s, StringType) == en.key;
  }

  /** The members of a map from the `k`-th on, written as `body` from `q`
      and closed by `}`, read into the map `o` of the entries before. */
  lemma {:induction false} MembersOfMapAt(ctx: Ctx, v: Value, t: TypeDesc, d: nat, ms: seq<string>, k: nat, q: nat,
                                          o: Value, body: string, after: nat)
    requires Lexed(ctx)
    requires EntryTexts(v, t, d + 1, ms) && k < |ms|
    requires body == Join(ms[k..], ",") && At(ctx.doc, q, body + "}") && after == q + |body| + 1
    requires o == VMap(v.cls, v.entries[..k])
    ensures MembersFrom(ctx, t, o, q, Success(Parsed(v, Cursor(after, Some(RightBrace)))))
    decreases v, 0, |ms| - k + 2
  {
    if k + 1 < |ms| {
      var body' := Join(ms[k + 1..], ",");
      var b := VMap(v.cls, v.entries[..k + 1]);
      var q' := q + |ms[k]| + 1;
      JoinedMore(ctx.doc, q, ms, k, '}');
      MembersOfMapAt(ctx, v, t, d, ms, k + 1, q', b, body', after);
      MapMemberNext(ctx, v, t, d, ms, k, q, o, body, q', Success(Parsed(v, Cursor(after, Some(RightBrace)))));
    } else {
      MapMemberLast(ctx, v, t, d, ms, k, q, o, body, after);
    }
  }

  /** A token a member starts with: its key. */
  predicate StartsMember(c: Cursor) {
    c.token.Some? && c.token.value.Str?
  }

  /** The member loop, started on `o` at the key after `q`, gives `res`. */
  predicate MembersFrom(ctx: Ctx, t: TypeDesc, o: Value, q: nat, res: Result<Parsed>) {
    ValidPos(ctx, q) && NextToken(ctx, q).Success? && StartsMember(NextToken(ctx, q).value) && Fits(o, t) &&
    Members(ctx, t, o, NextToken(ctx, q).value) == res
  }

  /** The `k`-th member of a map followed by a comma: when the loop gives
      `res` after the comma with the map of the entries up to the `k`-th, it
      gives `res` from this member with `o`. */
  lemma {:induction false} MapMemberNext(ctx: Ctx, v: Value, t: TypeDesc, d: nat, ms: seq<string>, k: nat, q: nat,
                                         o: Value, body: string, q': nat, res: Result<Parsed>)
    requires Lexed(ctx)
    requires EntryTexts(v, t, d + 1, ms) && k + 1 < |ms|
    requires body == Join(ms[k..], ",") && At(ctx.doc, q, body + "}") && q' == q + |ms[k]| + 1
    requires o == VMap(v.cls, v.entries[..k])
    requires MembersFrom(ctx, t, VMap(v.cls, v.entries[..k + 1]), q', res)
    ensures MembersFrom(ctx, t, o, q, res)
    decreases v, 0, 2
  {
    var b := VMap(v.cls, v.entries[..k + 1]);
    EntryAt(ctx, v, t, d, ms, k, q, o, body, b, Join(ms[k + 1..], ","));
    MemberThenMore(ctx, t, o, v.entries[k].key.s, q, b, q + |ms[k]|, res);
  }

  /** The `k`-th member of a map, written at `q` as the key, a colon and
      the value: the value is read into `o`, the map of the entries before,
      giving `b`, and what follows is a comma and the later members or the
      closing brace. */
  lemma {:induction false} EntryAt(ctx: Ctx, v: Value, t: TypeDesc, d: nat, ms: seq<string>, k: nat, q: nat,
                                   o: Value, body: string, b: Value, rest: string)
    requires Lexed(ctx)
    requires EntryTexts(v, t, d + 1, ms) && k < |ms|
    requires body == Join(ms[k..], ",") && At(ctx.doc, q, body + "}")
    requires k + 1 < |ms| ==> rest == Join(ms[k + 1..], ",")
    requires o == VMap(v.cls, v.entries[..k]) && b == VMap(v.cls, v.entries[..k + 1])
    ensures v.entries[k].key.VStr? && ShortControlsOnly(v.entries[k].key.s)
    ensures At(ctx.doc, q, Escape(v.entries[k].key.s) + ":") && q + |ms[k]| < |ctx.doc|
    ensures MemberRead(ctx, t, o, v.entries[k].key.s, q + |Escape(v.entries[k].key.s)| + 1, b, q + |ms[k]|)
    ensures k + 1 < |ms| ==> ctx.doc[q + |ms[k]|] == ',' && At(ctx.doc, q + |ms[k]| + 1, rest + "}")
    ensures k + 1 == |ms| ==> ctx.doc[q + |ms[k]|] == '}' && |body| == |ms[k]|
    decreases v, 0, 1
  {
    var en := v.entries[k];
    EntryFront(v, t, d, ms, k);
    var y := ConvertToString(Plain, en.val, d + 1).value;
    MemberJoinText(ctx.doc, q, ms, k, Escape(en.key.s), y, '}', body, rest);
    MapValueAdded(ctx, v, t, d, ms, k, o, b, y, q + |Escape(en.key.s)| + 1, q + |ms[k]|);
  }

  /** The map facts about the `k`-th entry: it is printed as its member
      text, and it is new to the map of the entries before it. */
  lemma EntryFront(v: Value, t: TypeDesc, d: nat, ms: seq<string>, k: nat)
    requires EntryTexts(v, t, d + 1, ms) && k < |ms|
    ensures EntryOk(v, t, d + 1, ms, k)
    ensures Fits(VMap(v.cls, v.entries[..k]), t)
    ensures forall i :: 0 <= i < k ==> v.entries[..k][i].key != v.entries[k].key
    ensures v.entries[..k] + [v.entries[k]] == v.entries[..k + 1]
  {
    MapFront(v, t, k);
    assert EntryOk(v, t, d + 1, ms, k);
  }

  /** The last member of a map, followed by `}`: the map is complete. */
  lemma {:induction false} MapMemberLast(ctx: Ctx, v: Value, t: TypeDesc, d: nat, ms: seq<string>, k: nat, q: nat,
                                         o: Value, body: string, after: nat)
    requires Lexed(ctx)
    requires EntryTexts(v, t, d + 1, ms) && k + 1 == |ms|
    requires body == Join(ms[k..], ",") && At(ctx.doc, q, body + "}") && after == q + |body| + 1
    requires o == VMap(v.cls, v.entries[..k])
    ensures MembersFrom(ctx, t, o, q, Success(Parsed(v, Cursor(after, Some(RightBrace)))))
    decreases v, 0, 2
  {
    assert v.entries[..k + 1] == v.entries;
    EntryAt(ctx, v, t, d, ms, k, q, o, body, v, "");
    MemberThenClose(ctx, t, o, v.entries[k].key.s, q, v, q + |ms[k]|, after);
  }

  // ---------------------------------------------------------------------
  // Beans
  // ---------------------------------------------------------------------

  /** The bean's fields before `k` as given, those from `k` on still unset. */
  function Partial(fields: seq<Field>, k: nat): (r: seq<Field>)
    requires k <= |fields|
    decreases |fields|
  {
    if fields == [] then []
    else [if k > 0 then fields[0] else Field(fields[0].name, VNull)] + Partial(fields[1..], if k > 0 then k - 1 else 0)
  }

  /** Each field of `Partial`: as given before `k`, unset from `k` on. */
  lemma {:induction false} PartialAt(fields: seq<Field>, k: nat)
    requires k <= |fields|
    ensures |Partial(fields, k)| == |fields|
    ensures forall i :: 0 <= i < |fields| ==>
              Partial(fields, k)[i] == if i < k then fields[i] else Field(fields[i].name, VNull)
    decreases |fields|
  {
    if fields != [] {
      PartialAt(fields[1..], if k > 0 then k - 1 else 0);
    }
  }

  /** A property whose name no other property has is the one found by it. */
  lemma {:induction false} FindUnique(props: seq<Property>, k: nat)
    requires k < |props| && forall j :: 0 <= j < |props| && j != k ==> props[j].name != props[k].name
    ensures FindProperty(props, props[k].name) == Some(props[k])
    decreases k
  {
    if k > 0 {
      var rest := props[1..];
      assert rest[k - 1] == props[k];
      assert forall j :: 0 <= j < |rest| && j != k - 1 ==> rest[j] == props[j + 1];
      FindUnique(rest, k - 1);
    }
  }

  /** With distinct names, the property named like the `k`-th field is the
      `k`-th declared one. */
  lemma FindDeclared(props: seq<Property>, fields: seq<Field>, k: nat)
    requires FieldNames(fields) == PropertyNames(props) && DistinctNames(fields) && k < |fields|
    ensures FindProperty(props, fields[k].name) == Some(props[k])
  {
    forall j | 0 <= j < |props|
      ensures props[j].name == fields[j].name
      ensures j != k ==> props[j].name != props[k].name
    {
      assert props[j].name == PropertyNames(props)[j];
      assert props[k].name == PropertyNames(props)[k];
      assert NameAt(fields, j) != NameAt(fields, k) || j == k;
    }
    FindUnique(props, k);
  }

  /** Past an unset field the partial bean is the same. */
  lemma PartialUnset(fields: seq<Field>, k: nat)
    requires k < |fields| && fields[k].val == VNull
    ensures Partial(fields, k) == Partial(fields, k + 1)
  {
    PartialAt(fields, k);
    PartialAt(fields, k + 1);
  }

  /** When the fields after the `k`-th are all unset, the partial bean past
      the `k`-th is the whole bean. */
  lemma PartialComplete(fields: seq<Field>, k: nat)
    requires k < |fields| && forall j :: k + 1 <= j < |fields| ==> fields[j].val == VNull
    ensures Partial(fields, k + 1) == fields
  {
    PartialAt(fields, k + 1);
  }

  /** The partial bean has the bean's properties, in order. */
  lemma PartialNames(fields: seq<Field>, k: nat)
    requires k <= |fields|
    ensures FieldNames(Partial(fields, k)) == FieldNames(fields)
  {
    PartialAt(fields, k);
  }

  /** Setting the `k`-th field's value sets only that field. */
  lemma SetPartial(fields: seq<Field>, k: nat)
    requires DistinctNames(fields) && k < |fields|
    ensures SetField(Partial(fields, k), fields[k].name, fields[k].val) == Partial(fields, k + 1)
  {
    PartialAt(fields, k);
    PartialAt(fields, k + 1);
    var r := SetField(Partial(fields, k), fields[k].name, fields[k].val);
    forall i | 0 <= i < |fields|
      ensures r[i] == Partial(fields, k + 1)[i]
    {
      if i != k {
        assert NameAt(fields, i) != NameAt(fields, k);
      }
    }
  }

  /** The members the bean printer writes for the fields from the `k`-th
      on, read by index rather than on the suffix of the fields. */
  function FieldMembers(fs: seq<Field>, k: nat, d: nat): Result<seq<string>>
    requires k <= |fs| && forall i :: 0 <= i < |fs| ==> Described(fs[i].val)
    decreases |fs| - k
  {
    if k == |fs| then Success([])
    else if fs[k].val == VNull then FieldMembers(fs, k + 1, d)
    else
      var val :- ConvertToString(Plain, fs[k].val, d);
      var rest :- FieldMembers(fs, k + 1, d);
      Success([Escape(fs[k].name) + ":" + val] + rest)
  }

  /** Read by index from `k`, the members are the printer's members of the
      fields from `k` on. */
  lemma {:induction false} FieldMembersSuffix(fs: seq<Field>, k: nat, d: nat)
    requires k <= |fs| && forall i :: 0 <= i < |fs| ==> Described(fs[i].val)
    ensures FieldMembers(fs, k, d) == BeanMembers(Plain, fs[k..], d)
    decreases |fs| - k
  {
    if k < |fs| {
      FieldMembersSuffix(fs, k + 1, d);
      assert fs[k..][0] == fs[k] && fs[k..][1..] == fs[k + 1..];
    }
  }

  /** The members from a set field `k` on: its member, then those after it. */
  lemma FieldMembersFirst(fs: seq<Field>, k: nat, d: nat)
    requires k < |fs| && forall i :: 0 <= i < |fs| ==> Described(fs[i].val)
    requires fs[k].val != VNull && FieldMembers(fs, k, d).Success?
    ensures ConvertToString(Plain, fs[k].val, d).Success? && FieldMembers(fs, k + 1, d).Success?
    ensures FieldMembers(fs, k, d).value ==
              [Escape(fs[k].name) + ":" + ConvertToString(Plain, fs[k].val, d).value] + FieldMembers(fs, k + 1, d).value
  {
  }

  /** Fields from `k` on whose members print as nothing are all unset. */
  lemma {:induction false} NoMembersAllUnset(fs: seq<Field>, k: nat, d: nat)
    requires k <= |fs| && forall i :: 0 <= i < |fs| ==> Described(fs[i].val)
    requires FieldMembers(fs, k, d) == Success([])
    ensures forall j :: k <= j < |fs| ==> fs[j].val == VNull
    decreases |fs| - k
  {
    if k < |fs| {
      NoMembersAllUnset(fs, k + 1, d);
    }
  }

  /** The text of a bean with some property set: the members of its set
      properties, joined by commas, in braces. */
  lemma BeanText(v: Value, t: TypeDesc, d: nat, w: string)
    requires v.VBean? && RoundTrips(v, t) && Described(v) && ConvertToString(Plain, v, d) == Success(w)
    ensures BeanMembers(Plain, v.fields, d + 1).Success?
    ensures var ms := BeanMembers(Plain, v.fields, d + 1).value;
      w == "{" + Join(ms, ",") + "}" && ms != []
  {
    var fs := v.fields;
    var ms := BeanMembers(Plain, fs, d + 1).value;
    assert w == ObjectText(Plain, ms, d) + Comment(Plain, v.cls);
    BeanMembersAre(Plain, fs, d + 1);
    var i :| 0 <= i < |fs| && fs[i].val != VNull;
    NonNullFieldsAre(fs);
    assert fs[i] in NonNullFields(fs);
    PlainObjectText(ms, d, v.cls);
  }

  lemma BeanAt(ctx: Ctx, p: nat, v: Value, t: TypeDesc, d: nat, w: string)
    requires Lexed(ctx)
    requires v.VBean? && RoundTrips(v, t) && Described(v) && ConvertToString(Plain, v, d) == Success(w)
    requires At(ctx.doc, p, w)
    ensures ValueSpan(ctx, t, p, v, p + |w|)
    decreases v, 1, 0
  {
    BeanText(v, t, d, w);
    var ms := BeanMembers(Plain, v.fields, d + 1).value;
    var body := Join(ms, ",");
    BeanStart(v, t, d);
    EnclosedAt(ctx.doc, p, '{', body, '}');
    PullPunctuation(ctx, p);
    var cur := Cursor(p + 1, Some(LeftBrace));
    ValueDispatch(ctx, t, cur);
    BeanBody(ctx, v, t, d, p + 1, body, p + 1 + |body| + 1);
  }

  /** After the opening brace, the members closed by `}` (`body`, then the
      brace, ending before `after`) are read as the bean. */
  lemma BeanBody(ctx: Ctx, v: Value, t: TypeDesc, d: nat, q: nat, body: string, after: nat)
    requires Lexed(ctx)
    requires FieldsOk(v, t) && NewInstance(t) == VBean(v.cls, Partial(v.fields, 0))
    requires FieldMembers(v.fields, 0, d + 1).Success? && FieldMembers(v.fields, 0, d + 1).value != []
    requires body == Join(FieldMembers(v.fields, 0, d + 1).value, ",") && At(ctx.doc, q, body + "}")
    requires after == q + |body| + 1
    ensures ParseObject(ctx, t, Cursor(q, Some(LeftBrace))) == Success(Parsed(v, Cursor(after, Some(RightBrace))))
    decreases v, 0, |v.fields| + 3
  {
    BeanFieldsAt(ctx, v, t, d, 0, q, NewInstance(t), body, after);
    ObjectBody(ctx, t, q, Success(Parsed(v, Cursor(after, Some(RightBrace)))));
  }

  /** A bean that round-trips is read starting from the fresh instance of
      its descriptor, which has all its properties unset, and its members
      are printed field by field. */
  lemma BeanStart(v: Value, t: TypeDesc, d: nat)
    requires v.VBean? && RoundTrips(v, t) && Described(v) && BeanMembers(Plain, v.fields, d + 1).Success?
    ensures t.BeanType? && FieldsOk(v, t)
    ensures FieldMembers(v.fields, 0, d + 1) == BeanMembers(Plain, v.fields, d + 1)
    ensures NewInstance(t) == VBean(v.cls, Partial(v.fields, 0))
  {
    FieldsOkOf(v, t);
    FieldMembersSuffix(v.fields, 0, d + 1);
    assert v.fields[0..] == v.fields;
    FreshPartial(v, t);
  }

  /** The `i`-th field of a bean that round-trips: its name needs no long
      escapes and its value, when set, round-trips for the declared type. */
  predicate FieldOk(v: Value, t: TypeDesc, i: nat)
    requires v.VBean? && t.BeanType?
  {
    i < |v.fields| && i < |t.props| && ShortControlsOnly(v.fields[i].name) &&
    (v.fields[i].val == VNull || (RoundTrips(v.fields[i].val, t.props[i].typ) && Described(v.fields[i].val)))
  }

  /** What the member loop needs of a bean that round-trips, field by field. */
  predicate FieldsOk(v: Value, t: TypeDesc) {
    v.VBean? && t.BeanType? && t.cls == v.cls &&
    FieldNames(v.fields) == PropertyNames(t.props) && DistinctNames(v.fields) &&
    (forall i :: 0 <= i < |v.fields| ==> Described(v.fields[i].val)) &&
    forall i :: 0 <= i < |v.fields| ==> FieldOk(v, t, i)
  }

  lemma FieldsOkOf(v: Value, t: TypeDesc)
    requires v.VBean? && RoundTrips(v, t) && Described(v)
    ensures FieldsOk(v, t)
  {
    forall i | 0 <= i < |v.fields|
      ensures FieldOk(v, t, i)
    {
      assert PropertyNames(t.props)[i] == FieldNames(v.fields)[i];
    }
  }

  /** A new instance of the bean's class has its properties, all unset. */
  lemma FreshPartial(v: Value, t: TypeDesc)
    requires FieldsOk(v, t)
    ensures NewInstance(t) == VBean(v.cls, Partial(v.fields, 0))
  {
    var r := NewInstance(t);
    var fs := Partial(v.fields, 0);
    PartialAt(v.fields, 0);
    forall i | 0 <= i < |fs|
      ensures r.fields[i] == fs[i]
    {
      assert t.props[i].name == PropertyNames(t.props)[i] == FieldNames(v.fields)[i];
    }
  }

  /** The bean's members from field `k` on, of which there is at least one,
      written as `body` at `q` and closed by `}` before `after`, to be read
      into `o`, the bean whose fields before `k` are set. */
  predicate FieldsFrom(ctx: Ctx, v: Value, t: TypeDesc, d: nat, k: nat, q: nat, o: Value, body: string, after: nat) {
    Lexed(ctx) && FieldsOk(v, t) && k < |v.fields| &&
    FieldMembers(v.fields, k, d + 1).Success? && FieldMembers(v.fields, k, d + 1).value != [] &&
    body == Join(FieldMembers(v.fields, k, d + 1).value, ",") && At(ctx.doc, q, body + "}") &&
    after == q + |body| + 1 && o == VBean(v.cls, Partial(v.fields, k))
  }

  /** The set `k`-th field of the bean written as `"name":y` at `q`, the
      value's text ending at `e` inside the document. */
  predicate FieldWritten(ctx: Ctx, v: Value, t: TypeDesc, d: nat, k: nat, q: nat, y: string, e: nat) {
    Lexed(ctx) && FieldsOk(v, t) && k < |v.fields| && v.fields[k].val != VNull &&
    ConvertToString(Plain, v.fields[k].val, d + 1) == Success(y) &&
    At(ctx.doc, q, Escape(v.fields[k].name) + ":") && At(ctx.doc, q + |Escape(v.fields[k].name)| + 1, y) &&
    e == q + |Escape(v.fields[k].name)| + 1 + |y| && e < |ctx.doc|
  }

  /** Members from field `k` on, read into the bean `o`. */
  lemma {:induction false} BeanFieldsAt(ctx: Ctx, v: Value, t: TypeDesc, d: nat, k: nat, q: nat, o: Value,
                                        body: string, after: nat)
    requires FieldsFrom(ctx, v, t, d, k, q, o, body, after)
    ensures MembersFrom(ctx, t, o, q, Success(Parsed(v, Cursor(after, Some(RightBrace)))))
    decreases v, 0, |v.fields| - k + 2, 1
  {
    var fs := v.fields;
    if fs[k].val == VNull {
      assert FieldMembers(fs, k, d + 1) == FieldMembers(fs, k + 1, d + 1);
      PartialUnset(fs, k);
      BeanFieldsAt(ctx, v, t, d, k + 1, q, o, body, after);
    } else {
      BeanFieldSet(ctx, v, t, d, k, q, o, body, after);
    }
  }

  /** `BeanFieldsAt` where the `k`-th field is set: its member comes first,
      then either a comma and the following members or the closing brace. */
  lemma {:induction false} BeanFieldSet(ctx: Ctx, v: Value, t: TypeDesc, d: nat, k: nat, q: nat, o: Value,
                                        body: string, after: nat)
    requires Lexed(ctx)
    requires FieldsOk(v, t) && k < |v.fields| && v.fields[k].val != VNull
    requires FieldMembers(v.fields, k, d + 1).Success?
    requires body == Join(FieldMembers(v.fields, k, d + 1).value, ",") && At(ctx.doc, q, body + "}")
    requires after == q + |body| + 1
    requires o == VBean(v.cls, Partial(v.fields, k))
    ensures MembersFrom(ctx, t, o, q, Success(Parsed(v, Cursor(after, Some(RightBrace)))))
    decreases v, 0, |v.fields| - k + 2, 0
  {
    var y, e, more, k1, q1, b, body' := FieldThenRest(ctx, v, t, d, k, q, body, after);
    BeanFieldThen(ctx, v, t, d, k, q, y, e, o, more, k1, q1, b, body', after);
  }

  /** The set `k`-th field written as `"name":y` at `q` and ending at `e`,
      followed either by a comma and the text of the later set fields
      (`more`, read from `q1` into `b`, the bean whose fields before `k1`
      are set) or by the closing brace: the loop completes the bean. */
  lemma {:induction false} BeanFieldThen(ctx: Ctx, v: Value, t: TypeDesc, d: nat, k: nat, q: nat, y: string, e: nat,
                                         o: Value, more: bool, k1: nat, q1: nat, b: Value, body': string, after: nat)
    requires FieldWritten(ctx, v, t, d, k, q, y, e)
    requires o == VBean(v.cls, Partial(v.fields, k))
    requires k1 == k + 1 && q1 == e + 1 && b == VBean(v.cls, Partial(v.fields, k1))
    requires more ==> ctx.doc[e] == ',' && FieldsFrom(ctx, v, t, d, k1, q1, b, body', after)
    requires !more ==> ctx.doc[e] == '}' && after == e + 1 && forall j :: k + 1 <= j < |v.fields| ==> v.fields[j].val == VNull
    ensures MembersFrom(ctx, t, o, q, Success(Parsed(v, Cursor(after, Some(RightBrace)))))
    decreases v, 0, |v.fields| - k + 1, 3
  {
    if more {
      BeanFieldMore(ctx, v, t, d, k, q, y, e, o, k1, q1, b, body', after);
    } else {
      BeanFieldLast(ctx, v, t, d, k, q, y, e, o, after);
    }
  }

  /** The set `k`-th field written as `"name":y` at `q`, followed by a comma
      and the members of the later set fields: the loop completes the bean. */
  lemma {:induction false} BeanFieldMore(ctx: Ctx, v: Value, t: TypeDesc, d: nat, k: nat, q: nat, y: string, e: nat,
                                         o: Value, k1: nat, q1: nat, b: Value, body': string, after: nat)
    requires FieldWritten(ctx, v, t, d, k, q, y, e) && ctx.doc[e] == ','
    requires o == VBean(v.cls, Partial(v.fields, k))
    requires k1 == k + 1 && q1 == e + 1 && b == VBean(v.cls, Partial(v.fields, k1))
    requires FieldsFrom(ctx, v, t, d, k1, q1, b, body', after)
    ensures MembersFrom(ctx, t, o, q, Success(Parsed(v, Cursor(after, Some(RightBrace)))))
    decreases v, 0, |v.fields| - k + 1, 2
  {
    var res := Success(Parsed(v, Cursor(after, Some(RightBrace))));
    BeanFieldsAt(ctx, v, t, d, k1, q1, b, body', after);
    BeanFieldNext(ctx, v, t, d, k, q, y, e, o, b, res);
  }

  /** The members from the set `k`-th field on, at `q`: the `k`-th field's
      member `"name":y` ending at `e`, then either a comma and the members
      of the following fields (`more`, written as `body'`), or the closing
      brace when no later field is set. */
  lemma FieldThenRest(ctx: Ctx, v: Value, t: TypeDesc, d: nat, k: nat, q: nat, body: string, after: nat)
    returns (y: string, e: nat, more: bool, k1: nat, q1: nat, b: Value, body': string)
    requires Lexed(ctx)
    requires FieldsOk(v, t) && k < |v.fields| && v.fields[k].val != VNull
    requires FieldMembers(v.fields, k, d + 1).Success?
    requires body == Join(FieldMembers(v.fields, k, d + 1).value, ",") && At(ctx.doc, q, body + "}")
    requires after == q + |body| + 1
    ensures FieldWritten(ctx, v, t, d, k, q, y, e)
    ensures k1 == k + 1 && q1 == e + 1 && b == VBean(v.cls, Partial(v.fields, k1))
    ensures more ==> ctx.doc[e] == ',' && FieldsFrom(ctx, v, t, d, k1, q1, b, body', after)
    ensures !more ==> ctx.doc[e] == '}' && after == e + 1 && forall j :: k + 1 <= j < |v.fields| ==> v.fields[j].val == VNull
  {
    var rest;
    y, e, rest := FieldMemberAt(ctx, v, t, d, k, q, body, after);
    more := rest != [];
    k1, q1 := k + 1, e + 1;
    b := VBean(v.cls, Partial(v.fields, k1));
    body' := Join(rest, ",");
    if !more {
      NoMembersAllUnset(v.fields, k + 1, d + 1);
    }
  }

  /** The set `k`-th field's member `"name":y` at `q`, ending at `e`, and
      the members `rest` of the later fields, written after it behind a
      comma, or nothing but the closing brace when there are none. */
  lemma FieldMemberAt(ctx: Ctx, v: Value, t: TypeDesc, d: nat, k: nat, q: nat, body: string, after: nat)
    returns (y: string, e: nat, rest: seq<string>)
    requires Lexed(ctx)
    requires FieldsOk(v, t) && k < |v.fields| && v.fields[k].val != VNull
    requires FieldMembers(v.fields, k, d + 1).Success?
    requires body == Join(FieldMembers(v.fields, k, d + 1).value, ",") && At(ctx.doc, q, body + "}")
    requires after == q + |body| + 1
    ensures FieldWritten(ctx, v, t, d, k, q, y, e)
    ensures FieldMembers(v.fields, k + 1, d + 1) == Success(rest)
    ensures rest != [] ==> k + 1 < |v.fields| && ctx.doc[e] == ',' &&
                           At(ctx.doc, e + 1, Join(rest, ",") + "}") && after == e + 1 + |Join(rest, ",")| + 1
    ensures rest == [] ==> ctx.doc[e] == '}' && after == e + 1
  {
    var fs := v.fields;
    FieldMembersFirst(fs, k, d + 1);
    y := ConvertToString(Plain, fs[k].val, d + 1).value;
    rest := FieldMembers(fs, k + 1, d + 1).value;
    e := q + |Escape(fs[k].name)| + 1 + |y|;
    FirstMemberText(ctx.doc, q, FieldMembers(fs, k, d + 1).value, Escape(fs[k].name), y, rest, body, e);
  }


  /** Members `ms`, the first being `kt:y` and the others `rest`, joined and
      closed by `}` at `q`: the first member's key, colon and value, then a
      comma and the rest, or the closing brace. */
  lemma FirstMemberText(s: string, q: nat, ms: seq<string>, kt: string, y: string, rest: seq<string>, body: string,
                         e: nat)
    requires ms == [kt + ":" + y] + rest
    requires body == Join(ms, ",") && At(s, q, body + "}") && e == q + |kt| + 1 + |y|
    ensures At(s, q, kt + ":") && At(s, q + |kt| + 1, y) && e < |s| &&
      (rest != [] ==> s[e] == ',' && At(s, e + 1, Join(rest, ",") + "}") &&
                      |body| == |kt| + 1 + |y| + 1 + |Join(rest, ",")|) &&
      (rest == [] ==> s[e] == '}' && |body| == |kt| + 1 + |y|)
  {
    assert ms[0..] == ms && ms[1..] == rest;
    MemberJoinText(s, q, ms, 0, kt, y, '}', body, if rest != [] then Join(rest, ",") else "");
  }

  /** A set field written as `"name":y` at `q` and followed by a comma at
      `e`: when the loop gives `res` after the comma with the field set on
      the bean (`b`), it gives `res` from this member with `o`. */
  lemma {:induction false} BeanFieldNext(ctx: Ctx, v: Value, t: TypeDesc, d: nat, k: nat, q: nat, y: string, e: nat,
                                         o: Value, b: Value, res: Result<Parsed>)
    requires FieldWritten(ctx, v, t, d, k, q, y, e) && ctx.doc[e] == ','
    requires o == VBean(v.cls, Partial(v.fields, k)) && b == VBean(v.cls, Partial(v.fields, k + 1))
    requires MembersFrom(ctx, t, b, e + 1, res)
    ensures MembersFrom(ctx, t, o, q, res)
    decreases v, 0, 1
  {
    BeanValueSet(ctx, v, t, d, k, y, q + |Escape(v.fields[k].name)| + 1, e);
    MemberThenMore(ctx, t, o, v.fields[k].name, q, b, e, res);
  }

  /** The last set field, written as `"name":y` at `q` and followed by `}`
      at `e`: the bean is complete. */
  lemma {:induction false} BeanFieldLast(ctx: Ctx, v: Value, t: TypeDesc, d: nat, k: nat, q: nat, y: string, e: nat,
                                         o: Value, after: nat)
    requires FieldWritten(ctx, v, t, d, k, q, y, e) && ctx.doc[e] == '}' && after == e + 1
    requires forall j :: k + 1 <= j < |v.fields| ==> v.fields[j].val == VNull
    requires o == VBean(v.cls, Partial(v.fields, k))
    ensures MembersFrom(ctx, t, o, q, Success(Parsed(v, Cursor(after, Some(RightBrace)))))
    decreases v, 0, 1
  {
    PartialComplete(v.fields, k);
    assert VBean(v.cls, Partial(v.fields, k + 1)) == v;
    BeanValueSet(ctx, v, t, d, k, y, q + |Escape(v.fields[k].name)| + 1, e);
    MemberThenClose(ctx, t, o, v.fields[k].name, q, v, e, after);
  }

  /** The value of the `k`-th field, set and written as `y` after the key
      at `q`, is set on the bean built so far. */
  lemma BeanValueSet(ctx: Ctx, v: Value, t: TypeDesc, d: nat, k: nat, y: string, vq: nat, e: nat)
    requires Lexed(ctx)
    requires FieldsOk(v, t) && k < |v.fields| && v.fields[k].val != VNull
    requires ConvertToString(Plain, v.fields[k].val, d + 1) == Success(y)
    requires At(ctx.doc, vq, y) && e == vq + |y| && EndsValue(Ch(ctx.doc, e))
    ensures ShortControlsOnly(v.fields[k].name) && Fits(VBean(v.cls, Partial(v.fields, k)), t)
    ensures MemberRead(ctx, t, VBean(v.cls, Partial(v.fields, k)), v.fields[k].name, vq,
                       VBean(v.cls, Partial(v.fields, k + 1)), e)
    decreases v, 0, 0
  {
    var fs := v.fields;
    var f := fs[k];
    assert f in v.fields && FieldOk(v, t, k);
    assert f.val < v;
    ValueAt(ctx, vq, f.val, t.props[k].typ, d + 1, y);
    FindDeclared(t.props, fs, k);
    SetPartial(fs, k);
    var o := VBean(v.cls, Partial(fs, k));
    PartialNames(fs, k);
    var c := NextToken(ctx, vq).value;
    BeanAdds(ctx, t, o, f.name, t.props[k], c, ParseValue(ctx, t.props[k].typ, c).value);
  }

  /** Reading the value of a declared property into a bean sets that
      property to the value read. */
  lemma BeanAdds(ctx: Ctx, t: TypeDesc, o: Value, name: string, prop: Property, c: Cursor, pv: Parsed)
    requires ValidPos(ctx, c.pos) && t.BeanType? && Fits(o, t)
    requires FindProperty(t.props, name) == Some(prop) && ParseValue(ctx, prop.typ, c) == Success(pv)
    ensures AddMember(ctx, t, o, name, c) == Success(Parsed(VBean(o.cls, SetField(o.fields, name, pv.value)), pv.cur))
  {
  }
}
