/** `JsonToken`: a lexical unit and the coercion of its payload to a
    requested target class (`readValue`, `convertObject`, `toEnum`, `toBean`).

    A token's payload (`token.value` in the source) is determined by its
    kind: the character itself for structural tokens, the `String` text for
    STRING and NUMBER, `Boolean` for TRUE/FALSE and `null` for NULL. The
    kinds `UNKNOWN` and `NAN` are declared but never created, so they are
    not modelled. */
module JsonToken {
  import opened Results
  import opened Chars
  import opened Types

  datatype Token =
    | Comma
    | LeftBrace
    | RightBrace
    | LeftBracket
    | RightBracket
    | Colon
    | True
    | False
    | Null
    | Str(text: string)
    | Number(text: string)
  {
    /** The kinds `parseValue` hands to `readValue`. */
    predicate IsScalar() {
      Str? || Number? || True? || False? || Null?
    }
  }

  /** `"" + token.value`: how an error message prints a token. */
  function ValueText(tok: Token): string {
    match tok
    case Comma => ","
    case LeftBrace => "{"
    case RightBrace => "}"
    case LeftBracket => "["
    case RightBracket => "]"
    case Colon => ":"
    case True => "true"
    case False => "false"
    case Null => "null"
    case Str(s) => s
    case Number(t) => t
  }

  /** `token.value.toString()`, which throws for the `null` payload. */
  function PayloadText(tok: Token): (r: Result<string>)
    requires tok.IsScalar()
    ensures r.Failure? <==> tok.Null?
    ensures r.Failure? ==> r.error == NullPointer
    ensures r.Success? ==> r.value == ValueText(tok)
  {
    if tok.Null? then Failure(NullPointer) else Success(ValueText(tok))
  }

  /** `token.value.getClass()`, which throws for the `null` payload. */
  function PayloadClass(tok: Token): Result<TypeDesc>
    requires tok.IsScalar()
  {
    match tok
    case Str(_) => Success(StringType)
    case Number(_) => Success(StringType)
    case True => Success(BooleanType)
    case False => Success(BooleanType)
    case Null => Failure(NullPointer)
  }

  /** The payload itself, as a Java object. */
  function Payload(tok: Token): Value
    requires tok.IsScalar()
  {
    match tok
    case Str(s) => VStr(s)
    case Number(t) => VStr(t)
    case True => VBool(true)
    case False => VBool(false)
    case Null => VNull
  }

  function PayloadRaw(tok: Token): Raw
    requires tok.IsScalar() && !tok.Null?
  {
    match tok
    case Str(s) => RawText(s)
    case Number(t) => RawText(t)
    case True => RawBool(true)
    case False => RawBool(false)
  }

  /** The decimal floating-point spellings `Double.valueOf` accepts, in the part
      the model covers: an optional sign, digits with an optional fraction
      (at least one digit in all), and an optional exponent. */
  predicate IsDecimalFloat(t: string) {
    var a := if |t| > 0 && (t[0] == '+' || t[0] == '-') then 1 else 0;
    var b := DigitsFrom(t, a);
    var c := if b < |t| && t[b] == '.' then DigitsFrom(t, b + 1) else b;
    var mantissaDigits := (b - a) + (if c > b then c - b - 1 else 0);
    mantissaDigits >= 1 &&
      (c == |t| ||
       (t[c] in "eE" &&
        var d := if c + 1 < |t| && (t[c + 1] == '+' || t[c + 1] == '-') then c + 2 else c + 1;
        d < |t| && DigitsFrom(t, d) == |t|))
  }

  /** The end of the run of decimal digits starting at `i`. */
  function DigitsFrom(t: string, i: nat): (r: nat)
    ensures i <= |t| ==> i <= r <= |t|
    ensures i > |t| ==> r == i
    ensures forall k :: i <= k < r ==> IsDigit(t[k])
    ensures r < |t| ==> !IsDigit(t[r])
    decreases |t| - i
  {
    if i < |t| && IsDigit(t[i]) then DigitsFrom(t, i + 1) else i
  }

  /** `Double.valueOf(text)`: the double, kept as its text, or `NumberFormatException`. */
  function DoubleValueOf(text: string): (r: Result<Value>)
    ensures r.Success? <==> IsDecimalFloat(text)
    ensures r.Success? ==> r.value == VDouble(text)
    ensures r.Failure? ==> r.error == NumberFormat(text)
  {
    if IsDecimalFloat(text) then Success(VDouble(text)) else Failure(NumberFormat(text))
  }

  /** `convertObject(value, cls)`: an enum constant matched by name, a bean
      seeded from the payload, or, for any other class, the descriptor. */
  function ConvertObject(tok: Token, t: TypeDesc): Value
    requires tok.IsScalar() && !tok.Null?
  {
    match t
    case EnumType(cls, constants) => ToEnum(cls, constants, ValueText(tok))
    case BeanType(cls, _) => VSeeded(cls, PayloadRaw(tok))
    case _ => VDescriptor(t)
  }

  /** `readValue(t)`. Without a target class, NUMBER is read as a `Double`,
      STRING as a `String`, and every other kind gives `null`. With a target,
      the first applicable branch decides: `Double`, `Integer`, `Long`, the
      payload's own class, then `convertObject`. */
  function ReadValue(tok: Token, t: TypeDesc): (r: Result<Value>)
    requires tok.IsScalar()
    ensures t == NoClass && !tok.Number? && !tok.Str? ==> r == Success(VNull)
    ensures t != NoClass && tok.Null? ==> r == Failure(NullPointer)
  {
    if t == NoClass then
      if tok.Number? then ReadTyped(tok, DoubleType)
      else if tok.Str? then ReadTyped(tok, StringType)
      else Success(VNull)
    else ReadTyped(tok, t)
  }

  function ReadTyped(tok: Token, t: TypeDesc): (r: Result<Value>)
    requires tok.IsScalar() && t != NoClass
    ensures tok.Null? ==> r == Failure(NullPointer)
  {
    if t == DoubleType then
      var text :- PayloadText(tok);
      DoubleValueOf(text)
    else if t == IntegerType then
      var text :- PayloadText(tok);
      var i :- ParseInteger(text, IntMin, IntMax);
      Success(VInt(i))
    else if t == LongType then
      var text :- PayloadText(tok);
      var i :- ParseInteger(text, LongMin, LongMax);
      Success(VLong(i))
    else
      var cls :- PayloadClass(tok);
      if t == cls then Success(Payload(tok)) else Success(ConvertObject(tok, t))
  }
}
