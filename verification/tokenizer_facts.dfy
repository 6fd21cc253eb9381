/** Properties of the lexer stated against independent readings: skipping
    as the removal of one ignorable unit at a time, the token each first
    character selects, the closing quote as the first quote with an even
    run of backslashes before it, the complete table of `unescapeString`,
    and the depth discipline of `getObjectString`. */
module TokenizerFacts {
  import opened Results
  import opened Chars
  import opened JsonToken
  import opened JsonTokenizer

  // ---------------------------------------------------------------------
  // Skipping whitespace and comments
  // ---------------------------------------------------------------------

  /** One ignorable unit at `p`: a whitespace character or one comment;
      `None` when neither starts there. */
  function SkipUnit(s: string, p: nat): (r: Result<Option<nat>>)
    requires p <= |s| + 1
    ensures r.Success? && r.value.Some? ==> p < r.value.value <= |s| + 1
    ensures r.Success? && r.value.None? <==> !IsWhite(Ch(s, p)) && Ch(s, p) != '/'
  {
    if IsWhite(Ch(s, p)) then Success(Some(p + 1))
    else if Ch(s, p) == '/' then
      var q :- SkipComments(s, p);
      Success(Some(q))
    else Success(None)
  }

  /** The reference reading of what the lexer skips: units removed one at a
      time until none starts at the cursor. */
  function SkipUnits(s: string, p: nat): (r: Result<nat>)
    requires p <= |s| + 1
    ensures r.Success? ==> p <= r.value <= |s| + 1 && SkipUnit(s, r.value) == Success(None)
    decreases |s| + 2 - p
  {
    var u :- SkipUnit(s, p);
    match u
    case None => Success(p)
    case Some(q) => SkipUnits(s, q)
  }

  lemma {:induction false} SkipUnitsWhite(s: string, p: nat)
    requires p <= |s| + 1
    ensures SkipUnits(s, p) == SkipUnits(s, SkipWhite(s, p))
    decreases |s| + 2 - p
  {
    if IsWhite(Ch(s, p)) {
      SkipUnitsWhite(s, p + 1);
    }
  }

  /** `skipIgnored`, which skips all whitespace and then one comment per
      round until a round changes nothing, ends where the unit-by-unit
      reading ends, and fails exactly when it fails, with the same error. */
  lemma {:induction false} SkipIgnoredIsUnitwise(s: string, p: nat)
    requires p <= |s| + 1
    ensures SkipIgnored(s, p) == SkipUnits(s, p)
    decreases |s| + 2 - p
  {
    var w := SkipWhite(s, p);
    SkipUnitsWhite(s, p);
    if Ch(s, w) == '/' {
      match SkipComments(s, w)
      case Failure(_) =>
      case Success(c) =>
        SkipIgnoredIsUnitwise(s, c);
    } else if w != p {
      assert SkipIgnored(s, w) == Success(w);
    }
  }

  // ---------------------------------------------------------------------
  // The token the first character selects
  // ---------------------------------------------------------------------

  /** The structural token a character stands for, if any. */
  function Punctuation(c: char): (r: Option<Token>)
    ensures r.Some? <==> c in "{}[],:"
    ensures r.Some? ==> ValueText(r.value) == [c]
  {
    if c == '{' then Some(LeftBrace)
    else if c == '}' then Some(RightBrace)
    else if c == '[' then Some(LeftBracket)
    else if c == ']' then Some(RightBracket)
    else if c == ',' then Some(Comma)
    else if c == ':' then Some(Colon)
    else None
  }

  /** Each of `{ } [ ] , :` yields its own token and advances one character. */
  lemma StructuralToken(s: string, p: nat, q: nat)
    requires p <= |s| + 1 && SkipIgnored(s, p) == Success(q)
    requires Punctuation(Ch(s, q)).Some?
    ensures GetNextToken(s, p) == Success(Pulled(Punctuation(Ch(s, q)), q + 1))
  {
  }

  /** No token is produced exactly when skipping reaches the 0 sentinel; the
      cursor then stays there. */
  lemma NoTokenAtEnd(s: string, p: nat, n: nat)
    requires p <= |s| + 1
    ensures GetNextToken(s, p) == Success(Pulled(None, n)) <==> SkipIgnored(s, p) == Success(n) && Ch(s, n) == '\0'
  {
    if GetNextToken(s, p) == Success(Pulled(None, n)) {
      var q := SkipIgnored(s, p).value;
      assert Ch(s, q) == '\0';
    }
  }

  /** The word and the token a literal's first letter announces. */
  function Keyword(c: char): (r: (string, Token))
    requires c == 't' || c == 'f' || c == 'n'
    ensures |r.0| >= 4 && r.0[0] == c
    ensures r.1.IsScalar() && ValueText(r.1) == r.0
  {
    if c == 't' then ("true", True) else if c == 'f' then ("false", False) else ("null", Null)
  }

  /** At `t`, `f` or `n` the lexer consumes exactly the length of the word
      and succeeds exactly when the word is spelled out. */
  lemma LiteralToken(s: string, p: nat, q: nat)
    requires p <= |s| + 1 && SkipIgnored(s, p) == Success(q)
    requires Ch(s, q) == 't' || Ch(s, q) == 'f' || Ch(s, q) == 'n'
    ensures var (word, tok) := Keyword(Ch(s, q));
      (GetNextToken(s, p).Success? <==> q + |word| <= |s| && s[q..q + |word|] == word) &&
      (GetNextToken(s, p).Success? ==> GetNextToken(s, p).value == Pulled(Some(tok), q + |word|)) &&
      (GetNextToken(s, p).Failure? ==> GetNextToken(s, p).error.ParseError? &&
                                       GetNextToken(s, p).error.location == q + |word|)
  {
  }

  /** A digit or `-` starts a number, and a `"` a string. */
  lemma NumberOrStringToken(s: string, p: nat, q: nat)
    requires p <= |s| + 1 && SkipIgnored(s, p) == Success(q)
    ensures IsDigit(Ch(s, q)) || Ch(s, q) == '-' ==> GetNextToken(s, p) == ReadNumber(s, q)
    ensures Ch(s, q) == '"' ==> q < |s| && GetNextToken(s, p) == ReadString(s, q)
  {
  }

  /** Any other character that starts no token is an error at its location. */
  lemma UnexpectedCharacter(s: string, p: nat, q: nat)
    requires p <= |s| + 1 && SkipIgnored(s, p) == Success(q)
    requires Punctuation(Ch(s, q)).None? && !IsDigit(Ch(s, q)) && Ch(s, q) !in "tfn\"-\0"
    ensures GetNextToken(s, p) == Failure(ParseError("Unexpected " + [Ch(s, q)] + " encountered", q + 1))
  {
  }

  /** The literal comparison as written rejects even a correctly spelled
      `true`, which content comparison accepts. */
  lemma LiteralIdentityFinding()
    ensures ReadLiteralAsWritten("true", 0, "true", True).Failure?
    ensures ReadLiteral("true", 0, "true", True) == Success(Pulled(Some(True), 4))
  {
  }

  // ---------------------------------------------------------------------
  // Strings
  // ---------------------------------------------------------------------

  /** The search ends at the first quote, at or after `from`, with an even
      run of backslashes before it. */
  lemma ClosingQuoteIsFirst(s: string, from: nat, k: nat, loc: int)
    requires from <= k < |s| && IsClosingQuote(s, k)
    requires forall j :: from <= j < k ==> !IsClosingQuote(s, j)
    ensures ClosingQuote(s, from, loc) == Success(k)
  {
  }

  /** `readString` at the opening quote: the text between it and the first
      closing quote, unescaped, with the cursor just past that quote; with
      no closing quote, "Unterminated string literal". */
  lemma ReadStringAt(s: string, p: nat, k: nat, body: string)
    requires p < k < |s| && s[p] == '"' && ClosingQuote(s, p + 1, p + 1) == Success(k)
    requires body == s[p + 1..k]
    ensures Unescape(body, p + 1).Success? ==>
              ReadString(s, p) == Success(Pulled(Some(Str(Unescape(body, p + 1).value)), k + 1))
    ensures Unescape(body, p + 1).Failure? ==>
              ReadString(s, p) == Failure(Unescape(body, p + 1).error)
  {
    var u := Unescape(body, p + 1);
    assert ReadString(s, p) == if u.Success? then Success(Pulled(Some(Str(u.value)), k + 1)) else Failure(u.error);
  }

  /** A string at `p`, up to its first closing quote, whose contents
      unescape, is the token read from `p`. */
  lemma StringToken(s: string, p: nat, k: nat, text: string)
    requires p < k < |s| && s[p] == '"' && IsClosingQuote(s, k)
    requires forall j :: p + 1 <= j < k ==> !IsClosingQuote(s, j)
    requires Unescape(s[p + 1..k], p + 1) == Success(text)
    ensures GetNextToken(s, p) == Success(Pulled(Some(Str(text)), k + 1))
  {
    assert Ch(s, p) == '"';
    assert SkipIgnored(s, p) == Success(p);
    NumberOrStringToken(s, p, p);
    ClosingQuoteIsFirst(s, p + 1, k, p + 1);
    ReadStringAt(s, p, k, s[p + 1..k]);
  }

  lemma Unterminated(s: string, p: nat)
    requires p < |s| && s[p] == '"'
    requires forall j :: p + 1 <= j < |s| ==> !IsClosingQuote(s, j)
    ensures ReadString(s, p) == Failure(ParseError("Unterminated string literal", p + 1))
  {
  }

  /** Where the first backslash of `pre + "\\" + after` is, when `pre` has none. */
  lemma FirstBackslash(pre: string, after: string)
    requires '\\' !in pre
    ensures IndexOf(pre + ['\\'] + after, '\\', 0) == Some(|pre|)
  {
    var t := pre + ['\\'] + after;
    assert t[|pre|] == '\\';
    forall k | 0 <= k < |pre| ensures t[k] != '\\' {
      assert t[k] == pre[k];
    }
    var r := IndexOf(t, '\\', 0);
    assert r.Some? && r.value <= |pre|;
  }

  /** A two-character escape appends its translation, and unescaping goes on after it. */
  lemma UnescapeSimple(pre: string, e: char, rest: string, loc: int)
    requires '\\' !in pre && e != 'u'
    ensures Unescape(rest, loc).Success? ==>
              Unescape(pre + ['\\', e] + rest, loc) == Success(pre + SimpleEscape(e) + Unescape(rest, loc).value)
    ensures Unescape(rest, loc).Failure? ==>
              Unescape(pre + ['\\', e] + rest, loc) == Unescape(rest, loc)
  {
    var t := pre + ['\\', e] + rest;
    FirstBackslash(pre, [e] + rest);
    assert pre + ['\\'] + ([e] + rest) == t;
    var b := |pre|;
    assert t[..b] == pre && t[b + 1] == e && t[b + 2..] == rest;
    if rest == [] {
      assert Unescape(rest, loc) == Success([]);
      assert pre + SimpleEscape(e) + [] == pre + SimpleEscape(e);
    }
  }

  /** `\uXXXX` appends the decimal digits of the code point, and unescaping
      goes on after the four digits. */
  lemma UnescapeUnicode(pre: string, h: string, rest: string, loc: int)
    requires '\\' !in pre && |h| == 4 && AllHexDigits(h)
    ensures Unescape(rest, loc).Success? ==>
              Unescape(pre + "\\u" + h + rest, loc) ==
              Success(pre + DecimalText(HexValue(h)) + Unescape(rest, loc).value)
    ensures Unescape(rest, loc).Failure? ==>
              Unescape(pre + "\\u" + h + rest, loc) == Unescape(rest, loc)
  {
    var t := pre + "\\u" + h + rest;
    FirstBackslash(pre, "u" + h + rest);
    assert pre + ['\\'] + ("u" + h + rest) == t;
    var b := |pre|;
    assert t[..b] == pre && t[b + 1] == 'u';
    var after := t[b + 2..];
    assert after == h + rest;
    assert after[..4] == h;
    assert after[4..] == rest;
    if rest == [] {
      assert Unescape(rest, loc) == Success([]);
      assert pre + DecimalText(HexValue(h)) + [] == pre + DecimalText(HexValue(h));
    }
  }

  /** `\u` without four hex digits after it is a parse error. */
  lemma UnescapeBadUnicode(pre: string, after: string, loc: int)
    requires '\\' !in pre && !(|after| >= 4 && AllHexDigits(after[..4]))
    ensures Unescape(pre + "\\u" + after, loc).Failure?
    ensures Unescape(pre + "\\u" + after, loc).error.ParseError?
  {
    var t := pre + "\\u" + after;
    FirstBackslash(pre, "u" + after);
    assert pre + ['\\'] + ("u" + after) == t;
    assert t[|pre| + 1] == 'u' && t[|pre| + 2..] == after;
  }

  /** A backslash in last position makes `charAt` throw. */
  lemma UnescapeTrailingBackslash(pre: string, loc: int)
    requires '\\' !in pre
    ensures Unescape(pre + "\\", loc) == Failure(IndexOutOfBounds)
  {
    FirstBackslash(pre, "");
    assert pre + ['\\'] + "" == pre + "\\";
  }

  // ---------------------------------------------------------------------
  // getObjectString
  // ---------------------------------------------------------------------

  lemma DepthPrefix(t: string, open: char, close: char, d: int, k: nat)
    requires 0 < k <= |t|
    ensures Depth(t[..k], open, close, d) ==
      Depth(t[1..][..k - 1], open, close, if t[0] == close then d - 1 else if t[0] == open then d + 1 else d)
  {
    assert t[..k][0] == t[0];
    assert t[..k][1..] == t[1..][..k - 1];
  }

  /** Text without brackets leaves the depth as it is. */
  lemma {:induction false} DepthFlat(t: string, open: char, close: char, d: int)
    requires open !in t && close !in t
    ensures Depth(t, open, close, d) == d
    decreases |t|
  {
    if t != [] {
      assert t[0] in t && forall c :: c in t[1..] ==> c in t;
      DepthFlat(t[1..], open, close, d);
    }
  }

  /** Every non-empty prefix of `[w]`, for `w` without square brackets,
      leaves a starting depth of one positive: two inside, one after the
      `]`. */
  lemma BracketedDepth(w: string, k: nat)
    requires '[' !in w && ']' !in w && k <= |w|
    ensures Depth(("[" + w + "]")[..k + 1], '[', ']', 1) == 2
    ensures Depth("[" + w + "]", '[', ']', 1) == 1
  {
    var b := "[" + w + "]";
    assert b[..k + 1][0] == '[' && b[..k + 1][1..] == w[..k];
    assert forall c :: c in w[..k] ==> c in w;
    DepthFlat(w[..k], '[', ']', 2);
    assert b[0] == '[' && b[1..] == w + "]";
    DepthFlatThenClose(w, 2);
  }

  /** Text without brackets and then `]` lowers the depth by one. */
  lemma {:induction false} DepthFlatThenClose(w: string, d: int)
    requires '[' !in w && ']' !in w
    ensures Depth(w + "]", '[', ']', d) == d - 1
    decreases |w|
  {
    if w == [] {
      assert w + "]" == "]" && "]"[1..] == [];
    } else {
      assert (w + "]")[0] == w[0] && (w + "]")[1..] == w[1..] + "]";
      assert w[0] in w && forall c :: c in w[1..] ==> c in w;
      DepthFlatThenClose(w[1..], d);
    }
  }

  /** The copied span stops after the character that brings the depth to 0,
      or at the 0 sentinel; no shorter prefix of it reaches depth 0. */
  lemma {:induction false} SpanStopsAtDepthZero(s: string, p: nat, open: char, close: char, d: nat)
    requires d > 0
    ensures var (text, q) := Span(s, p, open, close, d);
      (Depth(text, open, close, d) == 0 || Ch(s, q) == '\0') &&
      (forall k :: 0 <= k < |text| ==> Depth(text[..k], open, close, d) > 0)
    decreases |s| - p
  {
    var (text, q) := Span(s, p, open, close, d);
    var c := Ch(s, p);
    if c != '\0' {
      var d' := if c == close then d - 1 else if c == open then d + 1 else d;
      assert text[0] == c;
      if d' == 0 {
        assert text == [c];
        assert text[1..] == [];
        assert text[..0] == [];
      } else {
        SpanStopsAtDepthZero(s, p + 1, open, close, d');
        var rest := Span(s, p + 1, open, close, d').0;
        assert text == [c] + rest;
        assert text[1..] == rest;
        forall k | 0 <= k < |text| ensures Depth(text[..k], open, close, d) > 0 {
          if k > 0 {
            DepthPrefix(text, open, close, d, k);
          } else {
            assert text[..k] == [];
          }
        }
      }
    }
  }
}
