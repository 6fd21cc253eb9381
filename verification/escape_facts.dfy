/** What the tokenizer reads back from the text `escapeString` writes. The
    escapes `\"`, `\\`, `\b`, `\f`, `\n`, `\r` and `\t` are undone exactly;
    the `\u00XX` escape of any other control character is read back as the
    decimal digits of its code, so those characters do not survive. */
module EscapeFacts {
  import opened Results
  import opened Chars
  import opened JsonToken
  import opened JsonTokenizer
  import opened JsonEncoder
  import opened TokenizerFacts

  /** Characters `escapeString` writes as themselves. */
  predicate IsPlain(c: char) {
    c != '"' && c != '\\' && !IsControl(c)
  }

  /** Text whose control characters all have a two-character escape. */
  predicate ShortControlsOnly(t: string) {
    forall i :: 0 <= i < |t| ==> IsControl(t[i]) ==> HasShortEscape(t[i])
  }

  /** Text without quotes, backslashes or control characters is its own escape. */
  lemma {:induction false} PlainEscape(t: string)
    requires forall i :: 0 <= i < |t| ==> IsPlain(t[i])
    ensures EscapeBody(t) == t
  {
    if t != [] {
      PlainEscape(t[1..]);
      assert [t[0]] + t[1..] == t;
    }
  }

  /** The two-character escape of a character that has one is undone by
      the tokenizer's table. */
  lemma ShortEscapeUndone(c: char)
    requires !IsPlain(c) && (IsControl(c) ==> HasShortEscape(c))
    ensures |EscapeChar(c)| == 2 && EscapeChar(c)[0] == '\\' && EscapeChar(c)[1] != 'u'
    ensures SimpleEscape(EscapeChar(c)[1]) == [c]
  {
  }

  /** The escape of any other control character is `\u00` and two lowercase
      hex digits, or `\u000` and one, whose value is the code. */
  lemma UnicodeEscape(c: char)
    requires IsControl(c) && !HasShortEscape(c)
    ensures |EscapeChar(c)| == 6 && EscapeChar(c)[..2] == "\\u"
    ensures AllHexDigits(EscapeChar(c)[2..]) && HexValue(EscapeChar(c)[2..]) == c as int
  {
    HexOfControl(c);
    var hex := HexText(c as int);
    var h := EscapeChar(c)[2..];
    var n := if |hex| == 2 then 2 else 3;
    assert h == Zeros(n) + hex;
    HexZeros(hex, n);
  }

  /** Leading zeros change neither hex-ness nor value. */
  lemma {:induction false} HexZeros(hex: string, n: nat)
    requires AllHexDigits(hex)
    ensures AllHexDigits(Zeros(n) + hex) && HexValue(Zeros(n) + hex) == HexValue(hex)
  {
    if n > 0 {
      HexZeros(hex, n - 1);
      assert Zeros(n) + hex == "0" + (Zeros(n - 1) + hex);
      HexPrefixZero(Zeros(n - 1) + hex);
    } else {
      assert Zeros(n) + hex == hex;
    }
  }

  function Zeros(n: nat): (r: string)
    ensures |r| == n && forall i :: 0 <= i < n ==> r[i] == '0'
  {
    if n == 0 then "" else "0" + Zeros(n - 1)
  }

  lemma {:induction false} HexPrefixZero(t: string)
    requires AllHexDigits(t)
    ensures AllHexDigits("0" + t) && HexValue("0" + t) == HexValue(t)
    decreases |t|
  {
    var z := "0" + t;
    assert AllHexDigits(z) by {
      forall i | 0 <= i < |z| ensures IsHexDigit(z[i]) {
        if i > 0 { assert z[i] == t[i - 1]; }
      }
    }
    if t != [] {
      var init := t[..|t| - 1];
      HexPrefixZero(init);
      assert z[..|z| - 1] == "0" + init;
      assert z[|z| - 1] == t[|t| - 1];
    }
  }

  /** The escape of `t` unescapes back to `t` exactly when every control
      character in `t` has a two-character escape. */
  lemma {:induction false} UnescapeOfEscape(t: string, loc: int)
    requires ShortControlsOnly(t)
    ensures Unescape(EscapeBody(t), loc) == Success(t)
    decreases |t|
  {
    var j := PlainPrefix(t);
    if j == |t| {
      PlainEscape(t);
    } else {
      var pre, c, rest := t[..j], t[j], t[j + 1..];
      assert t == pre + ([c] + rest);
      assert ShortControlsOnly(rest) by {
        forall i | 0 <= i < |rest| ensures IsControl(rest[i]) ==> HasShortEscape(rest[i]) {
          assert rest[i] == t[j + 1 + i];
        }
      }
      UnescapeOfEscape(rest, loc);
      UnescapeStep(pre, c, rest, loc);
    }
  }

  /** One escaped character after plain text is undone, given that the rest is. */
  lemma UnescapeStep(pre: string, c: char, rest: string, loc: int)
    requires forall i :: 0 <= i < |pre| ==> IsPlain(pre[i])
    requires !IsPlain(c) && (IsControl(c) ==> HasShortEscape(c))
    requires Unescape(EscapeBody(rest), loc) == Success(rest)
    ensures Unescape(EscapeBody(pre + ([c] + rest)), loc) == Success(pre + ([c] + rest))
  {
    var e := EscapeSplit(pre, c, rest);
    UnescapeAfter(pre, e, c, EscapeBody(rest), rest, loc);
  }

  lemma UnescapeAfter(pre: string, e: char, c: char, w: string, rest: string, loc: int)
    requires '\\' !in pre && e != 'u' && SimpleEscape(e) == [c]
    requires Unescape(w, loc) == Success(rest)
    ensures Unescape(pre + ['\\', e] + w, loc) == Success(pre + ([c] + rest))
  {
    UnescapeSimple(pre, e, w, loc);
    var x := SimpleEscape(e);
    assert Unescape(pre + ['\\', e] + w, loc) == Success(pre + x + rest);
    assert pre + x + rest == pre + ([c] + rest);
  }

  /** The escape of plain text, one escaped character and the rest. */
  lemma EscapeSplit(pre: string, c: char, rest: string) returns (e: char)
    requires forall i :: 0 <= i < |pre| ==> IsPlain(pre[i])
    requires !IsPlain(c) && (IsControl(c) ==> HasShortEscape(c))
    ensures '\\' !in pre && e != 'u' && SimpleEscape(e) == [c]
    ensures EscapeBody(pre + ([c] + rest)) == pre + ['\\', e] + EscapeBody(rest)
  {
    PlainEscape(pre);
    ShortEscapeUndone(c);
    e := EscapeChar(c)[1];
    assert EscapeChar(c) == ['\\', e];
    EscapeBodyAppend(pre, [c] + rest);
    EscapeBodyAppend([c], rest);
    assert EscapeBody([c]) == EscapeChar(c) by {
      assert [c][1..] == [];
    }
    assert '\\' !in pre by {
      forall i | 0 <= i < |pre| ensures pre[i] != '\\' {
        assert IsPlain(pre[i]);
      }
    }
  }

  /** The length of the longest prefix of plain characters. */
  function PlainPrefix(t: string): (r: nat)
    ensures r <= |t| && forall i :: 0 <= i < r ==> IsPlain(t[i])
    ensures r < |t| ==> !IsPlain(t[r])
  {
    if t == [] || !IsPlain(t[0]) then 0
    else
      var r := 1 + PlainPrefix(t[1..]);
      assert forall i :: 1 <= i < r ==> t[i] == t[1..][i - 1];
      r
  }

  /** A control character without a two-character escape is written as
      `\u00XX`, which the tokenizer reads back as the decimal digits of its
      code: the character is lost. */
  lemma UnicodeEscapeLost(c: char, loc: int)
    requires IsControl(c) && !HasShortEscape(c)
    ensures Unescape(EscapeBody([c]), loc) == Success(DecimalText(c as int))
    ensures DecimalText(c as int) != [c]
  {
    UnicodeEscape(c);
    var h := EscapeChar(c)[2..];
    assert EscapeBody([c]) == "" + "\\u" + h + "" by {
      assert [c][1..] == [];
    }
    UnescapeUnicode("", h, "", loc);
    assert Unescape("", loc) == Success("");
    assert "" + DecimalText(HexValue(h)) + "" == DecimalText(c as int);
    var d := DecimalText(c as int);
    assert IsDigit(d[0]);
  }

  // ---------------------------------------------------------------------
  // The closing quote
  // ---------------------------------------------------------------------

  /** The backslash run before `k` depends only on the text before `k`. */
  lemma {:induction false} BackslashRunPrefix(s: string, s2: string, k: nat)
    requires k <= |s| && k <= |s2| && s[..k] == s2[..k]
    ensures BackslashRun(s, k) == BackslashRun(s2, k)
    decreases k
  {
    if k > 0 {
      assert s[k - 1] == s[..k][k - 1] == s2[k - 1];
      assert s[..k - 1] == s[..k][..k - 1];
      assert s2[..k - 1] == s2[..k][..k - 1];
      BackslashRunPrefix(s, s2, k - 1);
    }
  }

  /** An opening quote followed by escaped text: the run of backslashes at
      its end is even, and every quote inside it follows an odd run. */
  predicate QuotedPrefix(x: string) {
    |x| >= 1 && x[0] == '"' && BackslashRun(x, |x|) % 2 == 0 &&
    forall k :: 1 <= k < |x| && x[k] == '"' ==> BackslashRun(x, k) % 2 == 1
  }

  /** Appending the escape of one more character keeps that shape. */
  lemma AppendEscape(x: string, c: char)
    requires QuotedPrefix(x)
    ensures QuotedPrefix(x + EscapeChar(c))
  {
    var e := EscapeChar(c);
    var y := x + e;
    assert y[..|x|] == x;
    forall k | 1 <= k <= |x| ensures BackslashRun(y, k) == BackslashRun(x, k) {
      assert y[..k] == x[..k];
      BackslashRunPrefix(y, x, k);
    }
    if c == '\\' {
      assert y[|y| - 1] == '\\' && y[|y| - 2] == '\\';
      assert BackslashRun(y, |y|) == 2 + BackslashRun(y, |x|);
    } else if c == '"' {
      assert y[|x| + 1] == '"' && y[|x|] == '\\';
      assert BackslashRun(y, |x| + 1) == 1 + BackslashRun(y, |x|);
      assert BackslashRun(y, |y|) == 0;
    } else {
      EscapeTail(c);
      assert y[|y| - 1] == e[|e| - 1];
      assert BackslashRun(y, |y|) == 0;
    }
    forall k | 1 <= k < |y| && y[k] == '"' ensures BackslashRun(y, k) % 2 == 1 {
      if k >= |x| {
        assert e[k - |x|] == '"';
        EscapeQuote(c, k - |x|);
      }
    }
  }

  /** The escape of anything but a backslash does not end in one. */
  lemma EscapeTail(c: char)
    requires c != '\\'
    ensures EscapeChar(c)[|EscapeChar(c)| - 1] != '\\'
  {
    if IsControl(c) && !HasShortEscape(c) {
      UnicodeEscape(c);
      var e := EscapeChar(c);
      assert IsHexDigit(e[2..][3]);
    }
  }

  /** A quote in an escape is the second character of `\"`. */
  lemma EscapeQuote(c: char, i: nat)
    requires i < |EscapeChar(c)| && EscapeChar(c)[i] == '"'
    ensures c == '"' && i == 1
  {
    if IsControl(c) && !HasShortEscape(c) {
      UnicodeEscape(c);
    }
  }

  /** So does the whole escaped text after the opening quote. */
  lemma {:induction false} QuotedEscape(t: string)
    ensures QuotedPrefix("\"" + EscapeBody(t))
    decreases |t|
  {
    if t == [] {
      QuotedEmpty();
    } else {
      var init, c := t[..|t| - 1], t[|t| - 1];
      QuotedEscape(init);
      QuotedStep(init, c);
      assert init + [c] == t;
    }
  }

  lemma QuotedEmpty()
    ensures QuotedPrefix("\"" + EscapeBody(""))
  {
    assert "\"" + EscapeBody("") == "\"";
  }

  lemma QuotedStep(init: string, c: char)
    requires QuotedPrefix("\"" + EscapeBody(init))
    ensures QuotedPrefix("\"" + EscapeBody(init + [c]))
  {
    AppendEscape("\"" + EscapeBody(init), c);
    EscapeLast(init, c);
    AppendAssoc("\"", EscapeBody(init), EscapeChar(c));
  }

  lemma AppendAssoc(a: string, b: string, c: string)
    ensures a + (b + c) == (a + b) + c
  {
  }

  lemma EscapeLast(init: string, c: char)
    ensures EscapeBody(init + [c]) == EscapeBody(init) + EscapeChar(c)
  {
    EscapeBodyAppend(init, [c]);
    assert EscapeBody([c]) == EscapeChar(c) by {
      assert [c][1..] == [];
    }
  }

  /** Inside a text that starts with a non-backslash, the backslash run does
      not depend on what precedes the text. */
  lemma {:induction false} BackslashRunShift(s: string, p: nat, x: string, j: nat)
    requires p + |x| <= |s| && s[p..p + |x|] == x && 1 <= j <= |x| && x[0] != '\\'
    ensures BackslashRun(s, p + j) == BackslashRun(x, j)
    decreases j
  {
    assert s[p + j - 1] == x[j - 1];
    if j > 1 {
      BackslashRunShift(s, p, x, j - 1);
    }
  }

  /** A quoted prefix followed by a quote: that quote is the first closing one. */
  lemma ClosesAfter(s: string, p: nat, x: string, k: nat)
    requires QuotedPrefix(x) && k == p + |x| && k < |s| && s[p..k] == x && s[k] == '"'
    ensures IsClosingQuote(s, k)
    ensures forall j :: p + 1 <= j < k ==> !IsClosingQuote(s, j)
  {
    BackslashRunShift(s, p, x, |x|);
    forall j | p + 1 <= j < k ensures !IsClosingQuote(s, j) {
      assert s[j] == x[j - p];
      BackslashRunShift(s, p, x, j - p);
    }
  }

  /** The escape of `t` written at `p`: the opening quote, the escaped body
      up to `k`, and at `k` the first closing quote. */
  lemma EscapedParts(s: string, p: nat, t: string, k: nat)
    requires p + |Escape(t)| <= |s| && s[p..p + |Escape(t)|] == Escape(t)
    requires k == p + 1 + |EscapeBody(t)|
    ensures p < k < |s| && s[p] == '"' && k + 1 == p + |Escape(t)|
    ensures ClosingQuote(s, p + 1, p + 1) == Success(k)
    ensures s[p + 1..k] == EscapeBody(t)
  {
    var x := "\"" + EscapeBody(t);
    QuotedEscape(t);
    EscapedSlices(s, p, t, x, k);
    ClosesAfter(s, p, x, k);
    ClosingQuoteIsFirst(s, p + 1, k, p + 1);
  }

  /** Where the pieces of the escape of `t`, written at `p`, sit. */
  lemma EscapedSlices(s: string, p: nat, t: string, x: string, k: nat)
    requires p + |Escape(t)| <= |s| && s[p..p + |Escape(t)|] == Escape(t)
    requires x == "\"" + EscapeBody(t) && k == p + |x|
    ensures k < |s| && s[p..k] == x && s[k] == '"' && s[p] == '"' && k + 1 == p + |Escape(t)|
    ensures s[p + 1..k] == EscapeBody(t)
  {
    var w := s[p..p + |Escape(t)|];
    assert w == x + "\"";
    assert s[p..k] == w[..|x|] == x;
    assert s[k] == w[|x|] == '"';
    assert s[p] == w[0] == '"';
    assert s[p + 1..k] == x[1..];
  }

  /** `readString` at the start of an escaped text reads back the original
      text, and the cursor ends just past the closing quote. */
  lemma ReadEscaped(s: string, p: nat, t: string)
    requires ShortControlsOnly(t)
    requires p + |Escape(t)| <= |s| && s[p..p + |Escape(t)|] == Escape(t)
    ensures ReadString(s, p) == Success(Pulled(Some(Str(t)), p + |Escape(t)|))
  {
    EscapedParts(s, p, t, p + 1 + |EscapeBody(t)|);
    ReadQuotedBody(s, p, t, p + 1 + |EscapeBody(t)|);
  }

  /** The string whose contents up to its first closing quote at `k` are
      the escape of `t` reads as `t`. */
  lemma ReadQuotedBody(s: string, p: nat, t: string, k: nat)
    requires ShortControlsOnly(t)
    requires p < k < |s| && s[p] == '"' && ClosingQuote(s, p + 1, p + 1) == Success(k)
    requires s[p + 1..k] == EscapeBody(t)
    ensures ReadString(s, p) == Success(Pulled(Some(Str(t)), k + 1))
  {
    UnescapeOfEscape(t, p + 1);
    ReadStringAt(s, p, k, EscapeBody(t));
  }
}
