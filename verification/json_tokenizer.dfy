/** `JsonTokenizer`: the lexer, as pure functions on the source text `s` and
    a cursor position.

    The Java class keeps `loc` and a lookahead `ch`; after every `nextChar`,
    `ch` is the character at `loc - 1`, or 0 once `loc - 1` is past the end
    (the call advances `loc` even then). The model keeps only `p = loc - 1`,
    the index of `ch`, and reads `ch` as `Ch(s, p)`; so `loc` is `p + 1`, and
    that is the location every `parseError` reports. */
module JsonTokenizer {
  import opened Results
  import opened Chars
  import opened JsonToken

  /** The lookahead character at cursor `p`: the source character, or the
      0 sentinel past the end of the text. */
  function Ch(s: string, p: nat): char {
    if p < |s| then s[p] else '\0'
  }

  /** One pull of `getNextToken`: the token (`None` for the Java `null`
      returned at end of input) and the cursor afterwards. */
  datatype Pulled = Pulled(token: Option<Token>, next: nat)

  // ---------------------------------------------------------------------
  // Whitespace and comments (skipWhite, skipComments, skipIgnored)
  // ---------------------------------------------------------------------

  /** `skipWhite`: the first position at or after `p` whose character is not
      whitespace. */
  function SkipWhite(s: string, p: nat): (q: nat)
    ensures p <= q
    ensures !IsWhite(Ch(s, q))
    ensures forall k :: p <= k < q ==> k < |s| && IsWhite(s[k])
    ensures q == p || q <= |s|
    decreases |s| - p
  {
    if IsWhite(Ch(s, p)) then
      var q := SkipWhite(s, p + 1);
      assert IsWhite(s[p]);
      q
    else p
  }

  /** The body of a `//` comment: the first position at or after `p` holding a
      newline or the 0 sentinel. */
  function LineEnd(s: string, p: nat): (q: nat)
    ensures p <= q
    ensures Ch(s, q) == '\n' || Ch(s, q) == '\0'
    ensures forall k :: p <= k < q ==> Ch(s, k) != '\n' && Ch(s, k) != '\0'
    ensures q == p || q <= |s|
    decreases |s| - p
  {
    if Ch(s, p) == '\n' || Ch(s, p) == '\0' then p else LineEnd(s, p + 1)
  }

  /** A comment terminator (star, slash) starts at `k`. */
  predicate ClosesComment(s: string, k: nat) {
    Ch(s, k) == '*' && Ch(s, k + 1) == '/'
  }

  /** The body of a block comment, starting at `p` just past the opening star:
      the position just past the first star-slash, or "Multi-line comment not
      closed" as soon as a step lands on the 0 sentinel. */
  function BlockEnd(s: string, p: nat): (r: Result<nat>)
    requires p <= |s|
    ensures r.Success? ==> p + 2 <= r.value <= |s| && ClosesComment(s, r.value - 2)
    ensures r.Success? ==> forall k :: p <= k < r.value - 2 ==> !ClosesComment(s, k)
    ensures r.Failure? ==> r.error.ParseError? && r.error.message == "Multi-line comment not closed"
    ensures r.Failure? ==> p + 2 <= r.error.location && Ch(s, r.error.location - 1) == '\0'
    ensures r.Failure? ==> forall k :: p <= k < r.error.location - 1 ==> !ClosesComment(s, k)
    decreases |s| - p
  {
    var q := p + 1;
    if Ch(s, p) == '*' && Ch(s, q) == '/' then Success(q + 1)
    else if Ch(s, q) == '\0' then Failure(ParseError("Multi-line comment not closed", q + 1))
    else BlockEnd(s, q)
  }

  /** `skipComments`: at a `/`, skips one line or block comment; any other
      character after the `/` is an error. Elsewhere it does nothing. */
  function SkipComments(s: string, p: nat): (r: Result<nat>)
    requires p <= |s| + 1
    ensures Ch(s, p) != '/' ==> r == Success(p)
    ensures r.Success? ==> p <= r.value <= |s| + 1
    ensures r.Success? && Ch(s, p) == '/' ==> p < r.value
    ensures r.Failure? ==> Ch(s, p) == '/' && IsSkipError(r.error)
  {
    if Ch(s, p) != '/' then Success(p)
    else
      var q := p + 1;
      if Ch(s, q) == '/' then Success(LineEnd(s, q + 1) + 1)
      else if Ch(s, q) == '*' then BlockEnd(s, q + 1)
      else Failure(ParseError("Unexpected " + [Ch(s, q)] + " encountered (expecting '/' or '*' )", q + 1))
  }

  /** The two errors skipping can raise: a `/` that starts no comment, and an
      unclosed block comment. */
  predicate IsSkipError(e: Error) {
    e.ParseError? &&
      (e.message == "Multi-line comment not closed" ||
       exists c: char :: e.message == "Unexpected " + [c] + " encountered (expecting '/' or '*' )")
  }

  /** `skipIgnored`: skip whitespace, then a comment, and repeat until a round
      leaves the cursor where it was. */
  function SkipIgnored(s: string, p: nat): (r: Result<nat>)
    requires p <= |s| + 1
    ensures r.Success? ==> p <= r.value <= |s| + 1
    ensures r.Success? ==> !IsWhite(Ch(s, r.value)) && Ch(s, r.value) != '/'
    ensures !IsWhite(Ch(s, p)) && Ch(s, p) != '/' ==> r == Success(p)
    ensures r.Failure? ==> IsSkipError(r.error)
    decreases |s| + 2 - p
  {
    var w := SkipWhite(s, p);
    var c :- SkipComments(s, w);
    if c == p then Success(c) else SkipIgnored(s, c)
  }

  // ---------------------------------------------------------------------
  // Literals true / false / null
  // ---------------------------------------------------------------------

  /** The `n` lookahead characters from `p`, as successive `nextChar` calls see them. */
  function Lookahead(s: string, p: nat, n: nat): (r: string)
    ensures |r| == n
    ensures forall i :: 0 <= i < n ==> r[i] == Ch(s, p + i)
    decreases n
  {
    if n == 0 then [] else [Ch(s, p)] + Lookahead(s, p + 1, n - 1)
  }

  /** The source compares `"t" + nextChar() + nextChar() + nextChar()` with the
      literal `"true"` using `==`, which in Java compares object identity. The
      concatenation builds a new string object at run time, which is never
      the interned literal, so the comparison is false whatever the text. */
  predicate FreshStringIsLiteral(found: string, literal: string) {
    false
  }

  /** `true`/`false`/`null` AS WRITTEN: reads the word's length in characters
      and, because of the identity comparison, always fails. */
  function ReadLiteralAsWritten(s: string, p: nat, word: string, tok: Token): (r: Result<Pulled>)
    requires |word| >= 1
    ensures r.Failure? && r.error.ParseError? && r.error.location == p + |word|
  {
    var found := [word[0]] + Lookahead(s, p + 1, |word| - 1);
    var next: nat := p + |word|;
    if FreshStringIsLiteral(found, word) then Success(Pulled(Some(tok), next))
    else Failure(ParseError("Expecting '" + word + "' but found " + found, next))
  }

  /** `true`/`false`/`null` as evidently intended: the word's characters are
      compared by content. The rest of the model uses this reading. */
  function ReadLiteral(s: string, p: nat, word: string, tok: Token): (r: Result<Pulled>)
    requires |word| >= 1 && Ch(s, p) == word[0]
    requires forall i :: 0 <= i < |word| ==> word[i] != '\0'
    ensures r.Success? <==> p + |word| <= |s| && s[p..p + |word|] == word
    ensures r.Success? ==> r.value == Pulled(Some(tok), p + |word|)
    ensures r.Failure? ==> r.error.ParseError? && r.error.location == p + |word|
  {
    var found := [word[0]] + Lookahead(s, p + 1, |word| - 1);
    assert found == Lookahead(s, p, |word|);
    LookaheadInSource(s, p, word);
    if found == word then Success(Pulled(Some(tok), p + |word|))
    else Failure(ParseError("Expecting '" + word + "' but found " + found, p + |word|))
  }

  /** The lookahead characters equal `word` exactly when `word` is in the
      source at `p`; it needs `word` free of the 0 sentinel. */
  lemma LookaheadInSource(s: string, p: nat, word: string)
    requires |word| >= 1
    requires forall i :: 0 <= i < |word| ==> word[i] != '\0'
    ensures Lookahead(s, p, |word|) == word <==> p + |word| <= |s| && s[p..p + |word|] == word
  {
    var la := Lookahead(s, p, |word|);
    if la == word && |word| > 0 {
      assert Ch(s, p + |word| - 1) == word[|word| - 1];
    }
    if p + |word| <= |s| {
      forall i | 0 <= i < |word| ensures la[i] == s[p..p + |word|][i] {
        assert la[i] == Ch(s, p + i);
      }
      assert la == s[p..p + |word|];
    }
  }

  // ---------------------------------------------------------------------
  // Strings (readString, unescapeString)
  // ---------------------------------------------------------------------

  /** The number of backslashes immediately before index `q`. The source
      scans backwards with `charAt`; the run always stops at the opening
      quote, so it never reaches index -1. */
  function BackslashRun(s: string, q: nat): nat
    requires q <= |s|
    decreases q
  {
    if q > 0 && s[q - 1] == '\\' then 1 + BackslashRun(s, q - 1) else 0
  }

  /** A `"` at `k` whose preceding run of backslashes is even closes a string. */
  predicate IsClosingQuote(s: string, k: nat)
    requires k < |s|
  {
    s[k] == '"' && BackslashRun(s, k) % 2 == 0
  }

  /** The `indexOf` loop of `readString`: the first closing quote at or after
      `from`, or "Unterminated string literal". */
  function ClosingQuote(s: string, from: nat, loc: int): (r: Result<nat>)
    ensures r.Success? ==> from <= r.value < |s| && IsClosingQuote(s, r.value)
    ensures r.Success? ==> forall k :: from <= k < r.value ==> !IsClosingQuote(s, k)
    ensures r.Failure? ==> r.error == ParseError("Unterminated string literal", loc)
    ensures r.Failure? ==> forall k :: from <= k < |s| ==> !IsClosingQuote(s, k)
    decreases |s| - from
  {
    match IndexOf(s, '"', from)
    case None => Failure(ParseError("Unterminated string literal", loc))
    case Some(q) =>
      if BackslashRun(s, q) % 2 == 0 then Success(q) else ClosingQuote(s, q + 1, loc)
  }

  /** The first character of `t` that is not a hex digit. */
  function FirstNonHex(t: string): (r: Option<char>)
    ensures r.None? <==> AllHexDigits(t)
    ensures r.Some? ==> r.value in t && !IsHexDigit(r.value)
  {
    if t == [] then None
    else if !IsHexDigit(t[0]) then Some(t[0])
    else
      var r := FirstNonHex(t[1..]);
      assert AllHexDigits(t[1..]) ==> AllHexDigits(t) by {
        if AllHexDigits(t[1..]) {
          forall i | 0 <= i < |t| ensures IsHexDigit(t[i]) {
            if i > 0 { assert t[i] == t[1..][i - 1]; }
          }
        }
      }
      r
  }

  /** What one escape `\e` (other than `\u`) appends. A character outside the
      supported set appends the decimal digits of `'\\' + e`, which Java
      evaluates as the int 92 + code(e). */
  function SimpleEscape(e: char): string {
    if e == '"' then "\""
    else if e == '\\' then "\\"
    else if e == 'n' then "\n"
    else if e == 'r' then "\r"
    else if e == 't' then "\t"
    else if e == 'f' then [FormFeed]
    else if e == '/' then "/"
    else if e == 'b' then [Backspace]
    else DecimalText(92 + e as int)
  }

  /** What the escape `\e` appends, and how many characters after `e` it
      consumes: four for `\uXXXX`, whose code point is appended as decimal
      digits (`String.valueOf(Integer.parseInt(hex, 16))`). */
  datatype Piece = Piece(text: string, extra: nat)

  function EscapePiece(e: char, after: string, loc: int): (r: Result<Piece>)
    ensures r.Success? ==> r.value.extra <= |after|
    ensures e != 'u' ==> r == Success(Piece(SimpleEscape(e), 0))
    ensures e == 'u' && |after| >= 4 && AllHexDigits(after[..4]) ==>
              r == Success(Piece(DecimalText(HexValue(after[..4])), 4))
    ensures e == 'u' && !(|after| >= 4 && AllHexDigits(after[..4])) ==> r.Failure? && r.error.ParseError?
  {
    if e != 'u' then Success(Piece(SimpleEscape(e), 0))
    else if |after| < 4 then
      Failure(ParseError("Unexpected end of input.  Expecting 4 hex digits after \\u.", loc))
    else
      match FirstNonHex(after[..4])
      case Some(c) => Failure(ParseError("Excepted a hex digit, but found: " + [c], loc))
      case None => Success(Piece(DecimalText(HexValue(after[..4])), 4))
  }

  /** `unescapeString`: copies text up to each backslash, replaces the escape,
      and continues after it while input remains. `loc` is the tokenizer
      location its parse errors report. A backslash in last position makes
      `charAt` throw. */
  function Unescape(t: string, loc: int): (r: Result<string>)
    ensures '\\' !in t ==> r == Success(t)
    decreases |t|
  {
    match IndexOf(t, '\\', 0)
    case None => Success(t)
    case Some(b) =>
      if b + 1 == |t| then Failure(IndexOutOfBounds)
      else
        var piece :- EscapePiece(t[b + 1], t[b + 2..], loc);
        var rest := t[b + 2 + piece.extra..];
        if |rest| == 0 then Success(t[..b] + piece.text)
        else
          var tail :- Unescape(rest, loc);
          Success(t[..b] + piece.text + tail)
  }

  /** `readString`, at the opening quote `p`: the STRING token of the
      unescaped text up to the closing quote; the cursor ends just past it. */
  function ReadString(s: string, p: nat): (r: Result<Pulled>)
    requires p < |s| && s[p] == '"'
    ensures r.Success? ==> r.value.token.Some? && r.value.token.value.Str?
    ensures r.Success? ==> p + 2 <= r.value.next <= |s| && IsClosingQuote(s, r.value.next - 1)
  {
    var q :- ClosingQuote(s, p + 1, p + 1);
    var text :- Unescape(s[p + 1..q], p + 1);
    Success(Pulled(Some(Str(text)), q + 1))
  }

  // ---------------------------------------------------------------------
  // Numbers (readNumber)
  // ---------------------------------------------------------------------

  /** The first position at or after `p` whose character is not a digit. */
  function DigitsEnd(s: string, p: nat): (q: nat)
    ensures p <= q
    ensures !IsDigit(Ch(s, q))
    ensures forall k :: p <= k < q ==> k < |s| && IsDigit(s[k])
    ensures q == p || q <= |s|
    decreases |s| - p
  {
    if IsDigit(Ch(s, p)) then
      var q := DigitsEnd(s, p + 1);
      assert IsDigit(s[p]);
      q
    else p
  }

  /** A stretch of number text and the cursor after it. */
  datatype Scan = Scan(text: string, next: nat)

  /** The integer part: a single `0` that no digit may follow, or a run of digits. */
  function IntegerPart(s: string, p: nat): (r: Result<Scan>)
    requires IsDigit(Ch(s, p))
    ensures r.Success? ==> r.value.next <= |s| && p < r.value.next && r.value.text == s[p..r.value.next]
    ensures r.Success? ==> 'E' !in r.value.text
  {
    if Ch(s, p) == '0' then
      if IsDigit(Ch(s, p + 1)) then Failure(ParseError("A digit cannot immediately follow 0", p + 2))
      else Success(Scan("0", p + 1))
    else
      var q := DigitsEnd(s, p);
      Success(Scan(s[p..q], q))
  }

  /** The optional fraction: `.` and at least one digit. */
  function FractionPart(s: string, p: nat): (r: Result<Scan>)
    requires p <= |s|
    ensures r.Success? ==> p <= r.value.next <= |s| && r.value.text == s[p..r.value.next]
    ensures r.Success? ==> 'E' !in r.value.text
  {
    if Ch(s, p) != '.' then Success(Scan("", p))
    else if !IsDigit(Ch(s, p + 1)) then Failure(ParseError("Expecting a digit", p + 2))
    else
      var q := DigitsEnd(s, p + 1);
      Success(Scan("." + s[p + 1..q], q))
  }

  /** Where the exponent's digits start, for an `e` or `E` at `p`: after the
      optional sign. */
  function ExponentDigits(s: string, p: nat): (d: nat)
    ensures p + 1 <= d <= p + 2
  {
    if Ch(s, p + 1) == '+' || Ch(s, p + 1) == '-' then p + 2 else p + 1
  }

  /** The optional exponent: `e` or `E` (written down as `e`), an optional
      sign, and at least one digit. */
  function ExponentPart(s: string, p: nat): (r: Result<Scan>)
    requires p <= |s|
    ensures Ch(s, p) != 'e' && Ch(s, p) != 'E' ==> r == Success(Scan("", p))
    ensures (Ch(s, p) == 'e' || Ch(s, p) == 'E') ==>
              (r.Success? <==> IsDigit(Ch(s, ExponentDigits(s, p))))
    ensures (Ch(s, p) == 'e' || Ch(s, p) == 'E') && r.Success? ==>
              r.value.next == DigitsEnd(s, ExponentDigits(s, p))
    ensures r.Success? ==> p <= r.value.next <= |s| && r.value.text == LowerE(s[p..r.value.next])
  {
    if Ch(s, p) != 'e' && Ch(s, p) != 'E' then Success(Scan("", p))
    else
      var d := ExponentDigits(s, p);
      if !IsDigit(Ch(s, d)) then
        Failure(ParseError("Scientific notation number needs exponent value", d + 1))
      else
        var e := DigitsEnd(s, d);
        var sign := s[p + 1..d];
        assert s[p..e] == [s[p]] + sign + s[d..e];
        LowerEAppend([s[p]], sign + s[d..e]);
        LowerENoE(sign + s[d..e]);
        Success(Scan("e" + sign + s[d..e], e))
  }

  /** The number text with `E` written as `e`. */
  function LowerE(t: string): (r: string)
    ensures |r| == |t|
    ensures forall i {:trigger r[i]} :: 0 <= i < |t| ==> r[i] == (if t[i] == 'E' then 'e' else t[i])
  {
    seq(|t|, i requires 0 <= i < |t| => if t[i] == 'E' then 'e' else t[i])
  }

  lemma LowerEAppend(a: string, b: string)
    ensures LowerE(a + b) == LowerE(a) + LowerE(b)
  {
  }

  lemma LowerENoE(t: string)
    requires 'E' !in t
    ensures LowerE(t) == t
  {
  }

  /** The mantissa part of a number is copied verbatim, the exponent part with `E` lowered. */
  lemma NumberText(s: string, p: nat, p1: nat, p2: nat, p3: nat, e: nat, mantissa: string, exponent: string)
    requires p <= p1 < p2 <= p3 <= e <= |s|
    requires mantissa == s[p..p3] && 'E' !in mantissa
    requires exponent == LowerE(s[p3..e])
    ensures mantissa + exponent == LowerE(s[p..e])
  {
    assert s[p..e] == s[p..p3] + s[p3..e];
    LowerEAppend(s[p..p3], s[p3..e]);
    LowerENoE(s[p..p3]);
  }

  /** `readNumber`, at a digit or `-`: the NUMBER token of the consumed text,
      with `E` written as `e`; the cursor ends at the first character that
      cannot continue the number. */
  function ReadNumber(s: string, p: nat): (r: Result<Pulled>)
    requires Ch(s, p) == '-' || IsDigit(Ch(s, p))
    ensures r.Success? ==> p < r.value.next <= |s|
    ensures r.Success? ==> r.value.token == Some(Number(LowerE(s[p..r.value.next])))
  {
    var sign := if Ch(s, p) == '-' then "-" else "";
    var p1 := p + |sign|;
    if !IsDigit(Ch(s, p1)) then Failure(ParseError("Expecting a digit", p1 + 1))
    else
      var ip :- IntegerPart(s, p1);
      var fp :- FractionPart(s, ip.next);
      var ep :- ExponentPart(s, fp.next);
      var mantissa := sign + ip.text + fp.text;
      assert mantissa == s[p..fp.next] by {
        assert sign == s[p..p1];
      }
      var text := mantissa + ep.text;
      NumberText(s, p, p1, ip.next, fp.next, ep.next, mantissa, ep.text);
      Success(Pulled(Some(Number(text)), ep.next))
  }

  // ---------------------------------------------------------------------
  // getNextToken
  // ---------------------------------------------------------------------

  /** `getNextToken`: skips whitespace and comments, then reads one token from
      its first character; the 0 sentinel gives no token (end of input). */
  function GetNextToken(s: string, p: nat): (r: Result<Pulled>)
    requires p <= |s| + 1
    ensures r.Success? ==> p <= r.value.next <= |s| + 1
    ensures r.Success? && r.value.token.Some? ==> p < r.value.next
  {
    var q :- SkipIgnored(s, p);
    var c := Ch(s, q);
    if c == '{' then Success(Pulled(Some(LeftBrace), q + 1))
    else if c == '}' then Success(Pulled(Some(RightBrace), q + 1))
    else if c == '[' then Success(Pulled(Some(LeftBracket), q + 1))
    else if c == ']' then Success(Pulled(Some(RightBracket), q + 1))
    else if c == ',' then Success(Pulled(Some(Comma), q + 1))
    else if c == ':' then Success(Pulled(Some(Colon), q + 1))
    else if c == 't' then ReadLiteral(s, q, "true", True)
    else if c == 'f' then ReadLiteral(s, q, "false", False)
    else if c == 'n' then ReadLiteral(s, q, "null", Null)
    else if c == '"' then ReadString(s, q)
    else if IsDigit(c) || c == '-' then ReadNumber(s, q)
    else if c == '\0' then Success(Pulled(None, q))
    else Failure(ParseError("Unexpected " + [c] + " encountered", q + 1))
  }

  // ---------------------------------------------------------------------
  // Raw span extraction (getObjectString)
  // ---------------------------------------------------------------------

  /** Bracket depth after reading `t`, starting from `d`: +1 for `open`, -1 for `close`. */
  function Depth(t: string, open: char, close: char, d: int): int {
    if t == [] then d
    else Depth(t[1..], open, close, if t[0] == close then d - 1 else if t[0] == open then d + 1 else d)
  }

  /** The copy loop of `getObjectString` from cursor `p` at depth `d`: copies
      characters until one brings the depth to 0 (copied too) or the
      sentinel 0 is reached. String contents are not skipped. */
  function Span(s: string, p: nat, open: char, close: char, d: nat): (r: (string, nat))
    requires d > 0
    ensures p <= r.1 && (r.1 == p || r.1 <= |s|)
    ensures (r.1 == p && r.0 == "") || (r.1 <= |s| && r.0 == s[p..r.1])
    decreases |s| - p
  {
    var c := Ch(s, p);
    if c == '\0' then ("", p)
    else
      var d' := if c == close then d - 1 else if c == open then d + 1 else d;
      if d' == 0 then ([c], p + 1)
      else
        var (rest, q) := Span(s, p + 1, open, close, d');
        ([c] + rest, q)
  }

  /** `getObjectString`: the switch reads `charAt(loc - 1)`, which is the
      lookahead `ch` itself, not the bracket already consumed. When it is `{`
      or `[`, the span of matching depth is copied from the cursor; for any
      other character the result is empty and the cursor does not move; past
      the end `charAt` throws. */
  function GetObjectString(s: string, p: nat): (r: Result<(string, nat)>)
    ensures p >= |s| <==> r.Failure?
    ensures r.Failure? ==> r.error == IndexOutOfBounds
    ensures r.Success? && s[p] != '{' && s[p] != '[' ==> r.value == ("", p)
    ensures r.Success? ==> p <= r.value.1 <= |s| && r.value.0 == s[p..r.value.1]
  {
    if p >= |s| then Failure(IndexOutOfBounds)
    else if s[p] == '{' then Success(Span(s, p, '{', '}', 1))
    else if s[p] == '[' then Success(Span(s, p, '[', ']', 1))
    else Success(("", p))
  }
}
