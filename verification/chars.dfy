/** Character classes and the small number/text conversions of the Java
    library that the engine relies on: `Integer.toString`, `String.valueOf(int)`,
    `Integer.toString(n, 16)`, `Integer.parseInt(hex, 16)`,
    `Integer.valueOf`/`Long.valueOf` and `String.toUpperCase`. */
module Chars {
  import opened Results

  const Backspace: char := 8 as char
  const FormFeed: char := 12 as char

  predicate IsDigit(c: char) {
    '0' <= c <= '9'
  }

  predicate IsHexDigit(c: char) {
    IsDigit(c) || ('A' <= c <= 'F') || ('a' <= c <= 'f')
  }

  /** Space, tab, newline and carriage return: the only whitespace the tokenizer skips. */
  predicate IsWhite(c: char) {
    c == ' ' || c == '\t' || c == '\n' || c == '\r'
  }

  predicate AllDigits(t: string)
    decreases |t|
  {
    t == [] || (AllDigits(t[..|t| - 1]) && IsDigit(t[|t| - 1]))
  }

  /** `AllDigits` character by character. */
  lemma {:induction false} AllDigitsEach(t: string)
    ensures AllDigits(t) <==> forall i :: 0 <= i < |t| ==> IsDigit(t[i])
    decreases |t|
  {
    if t != [] {
      AllDigitsEach(t[..|t| - 1]);
      assert forall i :: 0 <= i < |t| - 1 ==> t[i] == t[..|t| - 1][i];
    }
  }

  predicate AllHexDigits(t: string) {
    forall i :: 0 <= i < |t| ==> IsHexDigit(t[i])
  }

  function DigitValue(c: char): (d: nat)
    requires IsDigit(c)
    ensures d < 10
  {
    (c as int) - ('0' as int)
  }

  function HexDigitValue(c: char): (d: nat)
    requires IsHexDigit(c)
    ensures d < 16
  {
    if IsDigit(c) then DigitValue(c)
    else if 'A' <= c <= 'F' then (c as int) - ('A' as int) + 10
    else (c as int) - ('a' as int) + 10
  }

  function DigitChar(d: nat): (c: char)
    requires d < 10
    ensures IsDigit(c) && DigitValue(c) == d
  {
    ((d + '0' as int) as char)
  }

  /** `Integer.parseInt(t, 16)` on a string of hex digits. */
  function HexValue(t: string): nat
    requires AllHexDigits(t)
  {
    if t == [] then 0 else 16 * HexValue(t[..|t| - 1]) + HexDigitValue(t[|t| - 1])
  }

  /** Value of a string of decimal digits, most significant first. */
  function DecimalValue(t: string): nat
    requires AllDigits(t)
  {
    if t == [] then 0 else 10 * DecimalValue(t[..|t| - 1]) + DigitValue(t[|t| - 1])
  }

  /** `String.valueOf(n)` for a non-negative `n`: the shortest decimal spelling. */
  function DecimalText(n: nat): (r: string)
    ensures |r| >= 1 && AllDigits(r)
    ensures r[0] == '0' ==> n == 0 && |r| == 1
    ensures DecimalValue(r) == n
  {
    if n < 10 then [DigitChar(n)]
    else
      var r := DecimalText(n / 10) + [DigitChar(n % 10)];
      assert r[..|r| - 1] == DecimalText(n / 10);
      r
  }

  /** `Integer.toString(i)` / `Long.toString(i)`: a minus sign for negative values. */
  function IntText(i: int): (r: string)
    ensures |r| >= 1
    ensures i < 0 <==> r[0] == '-'
    ensures i < 0 ==> AllDigits(r[1..]) && |r| >= 2
    ensures i >= 0 ==> AllDigits(r) && DecimalValue(r) == i
    ensures i < 0 ==> DecimalValue(r[1..]) == -i
  {
    if i < 0 then
      var r := "-" + DecimalText(-i);
      assert r[1..] == DecimalText(-i);
      r
    else
      AllDigitsEach(DecimalText(i));
      DecimalText(i)
  }

  /** Lower-case hex digit, as `Integer.toString(n, 16)` spells it. */
  function LowerHexDigit(d: nat): (c: char)
    requires d < 16
    ensures IsHexDigit(c) && HexDigitValue(c) == d
  {
    if d < 10 then DigitChar(d) else ((d - 10 + 'a' as int) as char)
  }

  /** `Integer.toString(n, 16)`: lower-case hex digits without leading zeros. */
  function HexText(n: nat): (r: string)
    ensures |r| >= 1 && AllHexDigits(r)
    ensures HexValue(r) == n
    ensures r[0] == '0' ==> n == 0 && |r| == 1
  {
    if n < 16 then [LowerHexDigit(n)]
    else
      var r := HexText(n / 16) + [LowerHexDigit(n % 16)];
      assert r[..|r| - 1] == HexText(n / 16);
      r
  }

  /** `Integer.valueOf` (32-bit) and `Long.valueOf` (64-bit): an optional `+` or
      `-` followed by at least one decimal digit, whose value lies in
      `[lo, hi]`; anything else raises `NumberFormatException`. */
  function ParseInteger(t: string, lo: int, hi: int): (r: Result<int>)
    ensures r.Success? <==> IsIntegerText(t) && lo <= IntegerTextValue(t) <= hi
    ensures r.Success? ==> r.value == IntegerTextValue(t)
    ensures r.Failure? ==> r.error == NumberFormat(t)
  {
    if |t| == 0 then Failure(NumberFormat(t))
    else
      var digits := if t[0] == '-' || t[0] == '+' then t[1..] else t;
      if |digits| == 0 || !AllDigits(digits) then Failure(NumberFormat(t))
      else
        var v: int := if t[0] == '-' then -(DecimalValue(digits) as int) else DecimalValue(digits);
        if lo <= v <= hi then Success(v) else Failure(NumberFormat(t))
  }

  /** A plain decimal integer: optional sign, then one or more digits, nothing else. */
  predicate IsIntegerText(t: string) {
    if |t| > 0 && (t[0] == '-' || t[0] == '+') then |t| > 1 && AllDigits(t[1..])
    else |t| > 0 && AllDigits(t)
  }

  function IntegerTextValue(t: string): int
    requires IsIntegerText(t)
  {
    if t[0] == '-' then -(DecimalValue(t[1..]) as int)
    else if t[0] == '+' then DecimalValue(t[1..])
    else DecimalValue(t)
  }

  const IntMin: int := -0x8000_0000
  const IntMax: int := 0x7fff_ffff
  const LongMin: int := -0x8000_0000_0000_0000
  const LongMax: int := 0x7fff_ffff_ffff_ffff

  /** `Integer.toString` and `Integer.valueOf` are inverse on the 32-bit range
      (and likewise `Long`'s on the 64-bit range). */
  lemma IntTextParses(i: int, lo: int, hi: int)
    requires lo <= i <= hi
    ensures ParseInteger(IntText(i), lo, hi) == Success(i)
  {
    var t := IntText(i);
    if i < 0 {
      assert t[1..] == DecimalText(-i);
      AllDigitsEach(t[1..]);
    } else {
      AllDigitsEach(t);
    }
  }

  /** ASCII upper-casing, the part of `String.toUpperCase` the model covers. */
  function Upper(c: char): char {
    if 'a' <= c <= 'z' then (c as int - 32) as char else c
  }

  function UpperString(t: string): (r: string)
    ensures |r| == |t|
    ensures forall i {:trigger r[i]} :: 0 <= i < |t| ==> r[i] == Upper(t[i])
  {
    if t == [] then [] else [Upper(t[0])] + UpperString(t[1..])
  }

  /** `String.indexOf(c, from)`: the first occurrence of `c` at or after `from`. */
  function IndexOf(s: string, c: char, from: nat): (r: Option<nat>)
    ensures r.Some? ==> from <= r.value < |s| && s[r.value] == c
    ensures r.Some? ==> forall k :: from <= k < r.value ==> s[k] != c
    ensures r.None? ==> forall k :: from <= k < |s| ==> s[k] != c
    decreases |s| - from
  {
    if from >= |s| then None
    else if s[from] == c then Some(from)
    else IndexOf(s, c, from + 1)
  }
}
