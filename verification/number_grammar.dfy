/** The number syntax `readNumber` accepts, stated as a grammar
    independent of the scanner:

      number   = [ "-" ] int [ frac ] [ exp ]
      int      = "0" | nonzero-digit { digit }
      frac     = "." digit { digit }
      exp      = ( "e" | "E" ) [ "+" | "-" ] digit { digit }

    and the proof that the scanner reads exactly that: every number it
    returns is a sentence of the grammar ending where no digit can follow,
    and a sentence followed by a character that cannot extend it is read
    whole, with `E` written as `e`. */
module NumberGrammar {
  import opened Results
  import opened Chars
  import opened JsonToken
  import opened JsonTokenizer

  predicate IsIntPart(x: string) {
    x == "0" || (|x| >= 1 && '1' <= x[0] <= '9' && AllDigits(x))
  }

  predicate IsFraction(x: string) {
    x == "" || (|x| >= 2 && x[0] == '.' && AllDigits(x[1..]))
  }

  /** Digits with an optional leading sign. */
  predicate IsSignedDigits(x: string) {
    var d := if |x| > 0 && (x[0] == '+' || x[0] == '-') then x[1..] else x;
    |d| >= 1 && AllDigits(d)
  }

  predicate IsExponent(x: string) {
    x == "" || (|x| >= 2 && (x[0] == 'e' || x[0] == 'E') && IsSignedDigits(x[1..]))
  }

  /** The number without its minus sign. */
  function Unsigned(t: string): (m: string)
    ensures |m| <= |t|
  {
    if |t| > 0 && t[0] == '-' then t[1..] else t
  }

  /** `m[..i]`, `m[i..j]` and `m[j..]` are the integer part, fraction and exponent. */
  predicate SplitsAt(m: string, i: nat, j: nat)
    requires i <= j <= |m|
  {
    IsIntPart(m[..i]) && IsFraction(m[i..j]) && IsExponent(m[j..])
  }

  predicate IsJsonNumber(t: string) {
    var m := Unsigned(t);
    exists i: nat, j: nat :: i <= j <= |m| && SplitsAt(m, i, j)
  }

  /** A character that cannot continue a number. */
  predicate EndsNumber(c: char) {
    !IsDigit(c) && c != '.' && c != 'e' && c != 'E'
  }

  // ---------------------------------------------------------------------
  // Digit runs
  // ---------------------------------------------------------------------

  /** A run of digits from `a` to `b`, followed by a non-digit, is what `DigitsEnd` finds. */
  lemma {:induction false} DigitsEndExact(s: string, a: nat, b: nat)
    requires a <= b <= |s|
    requires forall k :: a <= k < b ==> IsDigit(s[k])
    requires !IsDigit(Ch(s, b))
    ensures DigitsEnd(s, a) == b
    decreases b - a
  {
    if a < b {
      DigitsEndExact(s, a + 1, b);
    }
  }

  lemma AllDigitsSlice(s: string, a: nat, b: nat)
    requires a <= b <= |s|
    ensures AllDigits(s[a..b]) <==> forall k :: a <= k < b ==> IsDigit(s[k])
  {
    AllDigitsEach(s[a..b]);
    if AllDigits(s[a..b]) {
      forall k | a <= k < b ensures IsDigit(s[k]) {
        assert s[k] == s[a..b][k - a];
      }
    }
  }

  // ---------------------------------------------------------------------
  // The scanner's parts against the grammar's parts
  // ---------------------------------------------------------------------

  lemma IntegerPartSound(s: string, p: nat)
    requires IsDigit(Ch(s, p)) && IntegerPart(s, p).Success?
    ensures var sc := IntegerPart(s, p).value; IsIntPart(sc.text) && !IsDigit(Ch(s, sc.next))
  {
    var sc := IntegerPart(s, p).value;
    if Ch(s, p) != '0' {
      AllDigitsSlice(s, p, sc.next);
    }
  }

  lemma IntegerPartComplete(s: string, p: nat, i: nat)
    requires p + i <= |s| && IsIntPart(s[p..p + i]) && !IsDigit(Ch(s, p + i))
    ensures IntegerPart(s, p) == Success(Scan(s[p..p + i], p + i))
  {
    assert s[p..p + i][0] == s[p];
    if s[p..p + i] != "0" {
      AllDigitsSlice(s, p, p + i);
      DigitsEndExact(s, p, p + i);
    } else {
      assert p + 1 == p + i;
    }
  }

  lemma FractionPartSound(s: string, p: nat)
    requires p <= |s| && FractionPart(s, p).Success?
    ensures var sc := FractionPart(s, p).value;
      IsFraction(sc.text) && (sc.text == "" <==> Ch(s, p) != '.') && (sc.text != "" ==> !IsDigit(Ch(s, sc.next)))
  {
    var sc := FractionPart(s, p).value;
    if Ch(s, p) == '.' {
      AllDigitsSlice(s, p + 1, sc.next);
      assert sc.text[1..] == s[p + 1..sc.next];
    }
  }

  lemma FractionPartComplete(s: string, p: nat, k: nat)
    requires p + k <= |s| && IsFraction(s[p..p + k])
    requires k == 0 ==> Ch(s, p) != '.'
    requires k > 0 ==> !IsDigit(Ch(s, p + k))
    ensures FractionPart(s, p) == Success(Scan(s[p..p + k], p + k))
  {
    if k > 0 {
      assert s[p..p + k][0] == s[p];
      assert s[p..p + k][1..] == s[p + 1..p + k];
      AllDigitsSlice(s, p + 1, p + k);
      DigitsEndExact(s, p + 1, p + k);
      assert "." + s[p + 1..p + k] == s[p..p + k];
    }
  }

  lemma ExponentPartSound(s: string, p: nat)
    requires p <= |s| && ExponentPart(s, p).Success?
    ensures var sc := ExponentPart(s, p).value;
      IsExponent(s[p..sc.next]) && (sc.next == p <==> (Ch(s, p) != 'e' && Ch(s, p) != 'E'))
      && (sc.next > p ==> !IsDigit(Ch(s, sc.next)))
  {
    var sc := ExponentPart(s, p).value;
    if Ch(s, p) == 'e' || Ch(s, p) == 'E' {
      var d := ExponentDigits(s, p);
      assert sc.next == DigitsEnd(s, d);
      ExponentText(s, p, d, sc.next);
    }
  }

  /** An `e` or `E`, the optional sign, and a run of digits form an exponent. */
  lemma ExponentText(s: string, p: nat, d: nat, n: nat)
    requires p < d < n <= |s| && (s[p] == 'e' || s[p] == 'E')
    requires d == ExponentDigits(s, p)
    requires forall k :: d <= k < n ==> IsDigit(s[k])
    ensures IsExponent(s[p..n])
  {
    var y := s[p..n][1..];
    assert y == s[p + 1..n];
    assert y[0] == s[p + 1];
    var digits := if y[0] == '+' || y[0] == '-' then y[1..] else y;
    assert digits == s[d..n];
    AllDigitsSlice(s, d, n);
  }

  lemma ExponentPartComplete(s: string, p: nat, n: nat)
    requires p <= n <= |s| && IsExponent(s[p..n])
    requires n == p ==> Ch(s, p) != 'e' && Ch(s, p) != 'E'
    requires n > p ==> !IsDigit(Ch(s, n))
    ensures ExponentPart(s, p) == Success(Scan(LowerE(s[p..n]), n))
  {
    if n > p {
      var x := s[p..n];
      assert x[0] == s[p];
      var d := ExponentDigits(s, p);
      assert x[1..] == s[p + 1..n];
      assert x[1..][d - (p + 1)..] == s[d..n];
      AllDigitsSlice(s, d, n);
      DigitsEndExact(s, d, n);
    }
  }

  // ---------------------------------------------------------------------
  // readNumber against the grammar
  // ---------------------------------------------------------------------

  /** The steps of `readNumber`: sign, integer part, fraction, exponent. */
  lemma ReadNumberSteps(s: string, p: nat)
    requires Ch(s, p) == '-' || IsDigit(Ch(s, p))
    requires ReadNumber(s, p).Success?
    ensures var p1 := if Ch(s, p) == '-' then p + 1 else p;
      IsDigit(Ch(s, p1)) && IntegerPart(s, p1).Success? &&
      var ip := IntegerPart(s, p1).value;
      FractionPart(s, ip.next).Success? &&
      var fp := FractionPart(s, ip.next).value;
      ExponentPart(s, fp.next).Success? &&
      ReadNumber(s, p).value.next == ExponentPart(s, fp.next).value.next
  {
  }

  /** Three consecutive stretches of the text that are an integer part, a
      fraction and an exponent make a number (with the sign before them). */
  lemma NumberFromParts(s: string, p: nat, p1: nat, a: nat, b: nat, e: nat)
    requires p <= p1 <= a <= b <= e <= |s|
    requires p1 == p || (p1 == p + 1 && s[p] == '-')
    requires p1 < |s| && IsDigit(s[p1])
    requires IsIntPart(s[p1..a]) && IsFraction(s[a..b]) && IsExponent(s[b..e])
    ensures IsJsonNumber(s[p..e])
  {
    UnsignedSlice(s, p, p1, e);
    SplitOfSlices(s, p1, a, b, e);
  }

  lemma UnsignedSlice(s: string, p: nat, p1: nat, e: nat)
    requires p <= p1 < e <= |s|
    requires p1 == p || (p1 == p + 1 && s[p] == '-')
    requires IsDigit(s[p1])
    ensures Unsigned(s[p..e]) == s[p1..e]
  {
    assert s[p..e][0] == s[p];
    if p1 == p + 1 {
      assert s[p..e][1..] == s[p1..e];
    }
  }

  lemma SplitOfSlices(s: string, p1: nat, a: nat, b: nat, e: nat)
    requires p1 <= a <= b <= e <= |s|
    requires IsIntPart(s[p1..a]) && IsFraction(s[a..b]) && IsExponent(s[b..e])
    ensures SplitsAt(s[p1..e], a - p1, b - p1)
  {
    var m := s[p1..e];
    var x, y, z := m[..a - p1], m[a - p1..b - p1], m[b - p1..];
    assert x == s[p1..a];
    assert |y| == b - a;
    forall k | 0 <= k < b - a ensures y[k] == s[a..b][k] {
      assert y[k] == m[a - p1 + k];
    }
    assert y == s[a..b];
    assert z == s[b..e];
    assert IsIntPart(x) && IsFraction(y) && IsExponent(z);
  }

  /** Every number `readNumber` returns is a sentence of the grammar, and no
      digit follows it. */
  lemma ReadNumberSound(s: string, p: nat)
    requires Ch(s, p) == '-' || IsDigit(Ch(s, p))
    requires ReadNumber(s, p).Success?
    ensures var e := ReadNumber(s, p).value.next;
      IsJsonNumber(s[p..e]) && !IsDigit(Ch(s, e))
  {
    ReadNumberSteps(s, p);
    var e := ReadNumber(s, p).value.next;
    var p1 := if Ch(s, p) == '-' then p + 1 else p;
    var ip := IntegerPart(s, p1).value;
    IntegerPartSound(s, p1);
    var fp := FractionPart(s, ip.next).value;
    FractionPartSound(s, ip.next);
    ExponentPartSound(s, fp.next);
    NumberFromParts(s, p, p1, ip.next, fp.next, e);
  }

  /** The reverse of `SplitOfSlices`: a split of the unsigned text names
      three stretches of the source. */
  lemma SlicesOfSplit(s: string, p1: nat, i: nat, j: nat, e: nat)
    requires p1 <= e <= |s| && i <= j <= e - p1
    requires SplitsAt(s[p1..e], i, j)
    ensures IsIntPart(s[p1..p1 + i]) && IsFraction(s[p1 + i..p1 + j]) && IsExponent(s[p1 + j..e])
    ensures 0 < i && p1 < e && IsDigit(Ch(s, p1))
  {
    var m := s[p1..e];
    var x, y, z := m[..i], m[i..j], m[j..];
    assert x == s[p1..p1 + i];
    assert |y| == j - i;
    forall k | 0 <= k < j - i ensures y[k] == s[p1 + i..p1 + j][k] {
      assert y[k] == m[i + k];
    }
    assert y == s[p1 + i..p1 + j];
    assert z == s[p1 + j..e];
    assert x[0] == s[p1];
  }

  /** `readNumber` returns what its three parts read. */
  lemma ReadNumberOfParts(s: string, p: nat, p1: nat, a: nat, b: nat, e: nat)
    requires Ch(s, p) == '-' || IsDigit(Ch(s, p))
    requires p1 == (if Ch(s, p) == '-' then p + 1 else p) && IsDigit(Ch(s, p1))
    requires p1 <= a <= b <= e <= |s|
    requires IntegerPart(s, p1) == Success(Scan(s[p1..a], a))
    requires FractionPart(s, a) == Success(Scan(s[a..b], b))
    requires ExponentPart(s, b) == Success(Scan(LowerE(s[b..e]), e))
    ensures ReadNumber(s, p) == Success(Pulled(Some(Number(LowerE(s[p..e]))), e))
  {
  }

  /** Three consecutive parts of a sentence, followed by a character that
      cannot extend it, are each read whole by their scanner. */
  lemma PartsComplete(s: string, p1: nat, a: nat, b: nat, e: nat)
    requires p1 <= a <= b <= e <= |s| && EndsNumber(Ch(s, e))
    requires IsIntPart(s[p1..a]) && IsFraction(s[a..b]) && IsExponent(s[b..e])
    ensures IntegerPart(s, p1) == Success(Scan(s[p1..a], a))
    ensures FractionPart(s, a) == Success(Scan(s[a..b], b))
    ensures ExponentPart(s, b) == Success(Scan(LowerE(s[b..e]), e))
  {
    // what follows each part cannot continue it
    var ca, cb := Ch(s, a), Ch(s, b);
    if b > a {
      assert s[a..b][0] == s[a];
      assert ca == '.';
    } else if e > b {
      assert s[b..e][0] == s[b];
      assert ca == 'e' || ca == 'E';
    }
    if e > b {
      assert s[b..e][0] == s[b];
      assert cb == 'e' || cb == 'E';
    }
    assert !IsDigit(ca);
    assert !IsDigit(cb);
    IntegerPartComplete(s, p1, a - p1);
    FractionPartComplete(s, a, b - a);
    ExponentPartComplete(s, b, e);
  }

  /** A sentence of the grammar followed by a character that cannot extend
      it is read whole: the literal is its text with `E` as `e`, and the
      cursor stops right after it. */
  lemma ReadNumberComplete(s: string, p: nat, e: nat)
    requires p <= e <= |s| && IsJsonNumber(s[p..e]) && EndsNumber(Ch(s, e))
    ensures Ch(s, p) == '-' || IsDigit(Ch(s, p))
    ensures ReadNumber(s, p) == Success(Pulled(Some(Number(LowerE(s[p..e]))), e))
  {
    var m := Unsigned(s[p..e]);
    var i: nat, j: nat :| i <= j <= |m| && SplitsAt(m, i, j);
    SplitAtComplete(s, p, e, i, j);
  }

  lemma SplitAtComplete(s: string, p: nat, e: nat, i: nat, j: nat)
    requires p <= e <= |s| && EndsNumber(Ch(s, e))
    requires i <= j <= |Unsigned(s[p..e])| && SplitsAt(Unsigned(s[p..e]), i, j)
    ensures Ch(s, p) == '-' || IsDigit(Ch(s, p))
    ensures ReadNumber(s, p) == Success(Pulled(Some(Number(LowerE(s[p..e]))), e))
  {
    var p1 := UnsignedStart(s, p, e);
    SplitFromComplete(s, p, p1, e, i, j);
  }

  /** `SplitAtComplete` once the unsigned text is known to start at `p1`. */
  lemma SplitFromComplete(s: string, p: nat, p1: nat, e: nat, i: nat, j: nat)
    requires p1 == (if Ch(s, p) == '-' && p < e then p + 1 else p) && p <= p1 <= e <= |s|
    requires EndsNumber(Ch(s, e)) && i <= j <= e - p1 && SplitsAt(s[p1..e], i, j)
    ensures Ch(s, p) == '-' || IsDigit(Ch(s, p))
    ensures ReadNumber(s, p) == Success(Pulled(Some(Number(LowerE(s[p..e]))), e))
  {
    SlicesOfSplit(s, p1, i, j, e);
    SplitComplete(s, p, p1, p1 + i, p1 + j, e);
  }

  /** Where the unsigned text of `s[p..e]` starts. */
  lemma UnsignedStart(s: string, p: nat, e: nat) returns (p1: nat)
    requires p <= e <= |s|
    ensures p1 == (if Ch(s, p) == '-' && p < e then p + 1 else p) && p1 <= e
    ensures Unsigned(s[p..e]) == s[p1..e]
  {
    p1 := if p < e && s[p] == '-' then p + 1 else p;
  }

  lemma SplitComplete(s: string, p: nat, p1: nat, a: nat, b: nat, e: nat)
    requires p1 == (if Ch(s, p) == '-' then p + 1 else p) && IsDigit(Ch(s, p1))
    requires p1 <= a <= b <= e <= |s| && EndsNumber(Ch(s, e))
    requires IsIntPart(s[p1..a]) && IsFraction(s[a..b]) && IsExponent(s[b..e])
    ensures ReadNumber(s, p) == Success(Pulled(Some(Number(LowerE(s[p..e]))), e))
  {
    PartsComplete(s, p1, a, b, e);
    ReadNumberOfParts(s, p, p1, a, b, e);
  }

  // ---------------------------------------------------------------------
  // readNumber's errors
  // ---------------------------------------------------------------------

  /** Where the digits of a number at `p` start: after its minus sign. */
  function DigitsStart(s: string, p: nat): (p1: nat)
    ensures p1 == p || (p1 == p + 1 && Ch(s, p) == '-')
  {
    if Ch(s, p) == '-' then p + 1 else p
  }

  /** Where the integer part starting at the digit at `p1` ends: after a
      lone `0`, or after the run of digits. */
  function IntEnd(s: string, p1: nat): (a: nat)
    ensures p1 <= a
  {
    if Ch(s, p1) == '0' then p1 + 1 else DigitsEnd(s, p1)
  }

  /** Where the fraction starting at `a` ends: after `.` and its digits,
      or at `a` when there is no `.`. */
  function FractionEnd(s: string, a: nat): (b: nat)
    ensures a <= b
  {
    if Ch(s, a) == '.' then DigitsEnd(s, a + 1) else a
  }

  /** No digit after the optional minus sign. */
  predicate NoIntegerDigit(s: string, p: nat) {
    !IsDigit(Ch(s, DigitsStart(s, p)))
  }

  /** A leading `0` followed by another digit. */
  predicate DigitAfterZero(s: string, p: nat) {
    var p1 := DigitsStart(s, p);
    Ch(s, p1) == '0' && IsDigit(Ch(s, p1 + 1))
  }

  /** A `.` after the integer part with no digit after it. */
  predicate NoFractionDigit(s: string, p: nat) {
    var a := IntEnd(s, DigitsStart(s, p));
    Ch(s, a) == '.' && !IsDigit(Ch(s, a + 1))
  }

  /** An exponent letter after the fraction with no digit after it and its
      optional sign. */
  predicate NoExponentDigit(s: string, p: nat) {
    var b := FractionEnd(s, IntEnd(s, DigitsStart(s, p)));
    (Ch(s, b) == 'e' || Ch(s, b) == 'E') && !IsDigit(Ch(s, ExponentDigits(s, b)))
  }

  /** A minus sign not followed by a digit: "Expecting a digit", located
      just past the character that is not a digit. */
  lemma ReadNumberNoIntegerDigit(s: string, p: nat)
    requires Ch(s, p) == '-' || IsDigit(Ch(s, p))
    requires NoIntegerDigit(s, p)
    ensures Ch(s, p) == '-'
    ensures ReadNumber(s, p) == Failure(ParseError("Expecting a digit", p + 2))
  {
  }

  /** `0` followed by a digit: "A digit cannot immediately follow 0",
      located just past that digit. */
  lemma ReadNumberDigitAfterZero(s: string, p: nat)
    requires Ch(s, p) == '-' || IsDigit(Ch(s, p))
    requires DigitAfterZero(s, p)
    ensures ReadNumber(s, p) == Failure(ParseError("A digit cannot immediately follow 0", DigitsStart(s, p) + 2))
  {
  }

  /** `.` not followed by a digit: "Expecting a digit", located just past
      the character after the `.`. */
  lemma ReadNumberNoFractionDigit(s: string, p: nat)
    requires Ch(s, p) == '-' || IsDigit(Ch(s, p))
    requires !NoIntegerDigit(s, p) && !DigitAfterZero(s, p) && NoFractionDigit(s, p)
    ensures ReadNumber(s, p) ==
              Failure(ParseError("Expecting a digit", IntEnd(s, DigitsStart(s, p)) + 2))
  {
  }

  /** An exponent letter (and sign) not followed by a digit: "Scientific
      notation number needs exponent value", located just past the
      character where the digit should be. */
  lemma ReadNumberNoExponentDigit(s: string, p: nat)
    requires Ch(s, p) == '-' || IsDigit(Ch(s, p))
    requires !NoIntegerDigit(s, p) && !DigitAfterZero(s, p) && !NoFractionDigit(s, p) && NoExponentDigit(s, p)
    ensures var b := FractionEnd(s, IntEnd(s, DigitsStart(s, p)));
      ReadNumber(s, p) ==
        Failure(ParseError("Scientific notation number needs exponent value", ExponentDigits(s, b) + 1))
  {
    var b := IntegerAndFraction(s, p);
    assert ExponentPart(s, b) ==
      Failure(ParseError("Scientific notation number needs exponent value", ExponentDigits(s, b) + 1));
  }

  /** Those four are the only ways `readNumber` fails. */
  lemma ReadNumberFails(s: string, p: nat)
    requires Ch(s, p) == '-' || IsDigit(Ch(s, p))
    ensures ReadNumber(s, p).Failure? <==>
              NoIntegerDigit(s, p) || DigitAfterZero(s, p) || NoFractionDigit(s, p) || NoExponentDigit(s, p)
  {
    if NoIntegerDigit(s, p) {
      ReadNumberNoIntegerDigit(s, p);
    } else if DigitAfterZero(s, p) {
      ReadNumberDigitAfterZero(s, p);
    } else if NoFractionDigit(s, p) {
      ReadNumberNoFractionDigit(s, p);
    } else if NoExponentDigit(s, p) {
      ReadNumberNoExponentDigit(s, p);
    } else {
      var b := IntegerAndFraction(s, p);
      assert ExponentPart(s, b).Success?;
    }
  }

  /** With a digit after the sign, no digit after a leading `0` and a
      digit after any `.`, the integer part and the fraction are read and
      the cursor stands where the fraction ends. */
  lemma IntegerAndFraction(s: string, p: nat) returns (b: nat)
    requires Ch(s, p) == '-' || IsDigit(Ch(s, p))
    requires !NoIntegerDigit(s, p) && !DigitAfterZero(s, p) && !NoFractionDigit(s, p)
    ensures b == FractionEnd(s, IntEnd(s, DigitsStart(s, p))) && b <= |s|
    ensures var p1 := DigitsStart(s, p); var a := IntEnd(s, p1);
      IsDigit(Ch(s, p1)) && IntegerPart(s, p1).Success? && IntegerPart(s, p1).value.next == a &&
      FractionPart(s, a).Success? && FractionPart(s, a).value.next == b
    ensures ExponentPart(s, b).Success? ==> ReadNumber(s, p).Success?
    ensures ExponentPart(s, b).Failure? ==> ReadNumber(s, p) == Failure(ExponentPart(s, b).error)
  {
    var p1 := DigitsStart(s, p);
    var a := IntEnd(s, p1);
    assert IntegerPart(s, p1).Success? && IntegerPart(s, p1).value.next == a;
    b := FractionEnd(s, a);
    assert FractionPart(s, a).Success? && FractionPart(s, a).value.next == b;
  }
}
