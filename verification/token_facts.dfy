/** Properties of `readValue`: what each kind of token becomes without a
    target class and for each kind of target, in the order the branches
    are tried. */
module TokenFacts {
  import opened Results
  import opened Chars
  import opened Types
  import opened JsonToken

  /** Without a target class a NUMBER is read as a `Double` of its text, a
      STRING is its text unchanged, and every other kind is `null`. */
  lemma UntypedRead(tok: Token)
    requires tok.IsScalar()
    ensures tok.Number? ==> ReadValue(tok, NoClass) == DoubleValueOf(tok.text)
    ensures tok.Str? ==> ReadValue(tok, NoClass) == Success(VStr(tok.text))
    ensures !tok.Number? && !tok.Str? ==> ReadValue(tok, NoClass) == Success(VNull)
  {
  }

  /** A `Double` target reads the payload's text with `Double.valueOf`,
      whatever the kind: `true` and `false` are refused as unparsable text. */
  lemma DoubleTarget(tok: Token)
    requires tok.IsScalar() && !tok.Null?
    ensures ReadValue(tok, DoubleType) == DoubleValueOf(ValueText(tok))
    ensures ReadValue(tok, DoubleType).Success? <==> IsDecimalFloat(ValueText(tok))
  {
  }

  /** The range of the integer class a target asks for. */
  function IntegerRange(t: TypeDesc): (r: (int, int))
    requires t == IntegerType || t == LongType
    ensures r.0 < 0 < r.1
  {
    if t == IntegerType then (IntMin, IntMax) else (LongMin, LongMax)
  }

  /** An `Integer` or `Long` target accepts exactly a plain decimal integer
      literal within the class's range, and yields its value. */
  lemma IntegerTarget(tok: Token, t: TypeDesc)
    requires tok.IsScalar() && (t == IntegerType || t == LongType)
    ensures ReadValue(tok, t).Success? <==>
              !tok.Null? && IsIntegerText(ValueText(tok)) &&
              IntegerRange(t).0 <= IntegerTextValue(ValueText(tok)) <= IntegerRange(t).1
    ensures ReadValue(tok, t).Success? ==>
              ReadValue(tok, t).value ==
              (if t == IntegerType then VInt(IntegerTextValue(ValueText(tok))) else VLong(IntegerTextValue(ValueText(tok))))
    ensures !tok.Null? && ReadValue(tok, t).Failure? ==> ReadValue(tok, t).error == NumberFormat(ValueText(tok))
  {
  }

  /** A plain integer literal has no fraction point and no exponent. */
  lemma IntegerTextIsPlain(text: string)
    requires IsIntegerText(text)
    ensures '.' !in text && 'e' !in text && 'E' !in text
  {
    AllDigitsEach(text);
    AllDigitsEach(text[1..]);
    forall i | 0 <= i < |text| ensures text[i] != '.' && text[i] != 'e' && text[i] != 'E' {
      if i > 0 && (text[0] == '-' || text[0] == '+') {
        assert text[i] == text[1..][i - 1];
      }
    }
  }

  /** So a literal with a fraction or an exponent is refused by an integer target. */
  lemma FractionRefusedAsInteger(tok: Token, t: TypeDesc)
    requires tok.Number? && (t == IntegerType || t == LongType)
    requires '.' in tok.text || 'e' in tok.text
    ensures ReadValue(tok, t) == Failure(NumberFormat(tok.text))
  {
    if IsIntegerText(tok.text) {
      IntegerTextIsPlain(tok.text);
    }
  }

  /** When the target is the payload's own class the payload is returned
      unchanged: the text for STRING and NUMBER, the boolean for TRUE and FALSE. */
  lemma ExactClassMatch(tok: Token)
    requires tok.IsScalar()
    ensures tok.Str? || tok.Number? ==> ReadValue(tok, StringType) == Success(VStr(ValueText(tok)))
    ensures tok.True? || tok.False? ==> ReadValue(tok, BooleanType) == Success(VBool(tok.True?))
  {
  }

  /** An enum target yields the first constant whose upper-cased name equals
      the upper-cased literal, or `null`; a bean target is seeded from the
      payload; any other class that is not the payload's yields its
      descriptor. */
  lemma ConvertedTargets(tok: Token, t: TypeDesc)
    requires tok.IsScalar() && !tok.Null?
    requires t !in {NoClass, DoubleType, IntegerType, LongType, StringType, BooleanType}
    ensures t.EnumType? ==> ReadValue(tok, t) == Success(ToEnum(t.cls, t.constants, ValueText(tok)))
    ensures t.BeanType? ==> ReadValue(tok, t) == Success(VSeeded(t.cls, PayloadRaw(tok)))
    ensures !t.EnumType? && !t.BeanType? ==> ReadValue(tok, t) == Success(VDescriptor(t))
  {
  }

  /** A literal of a class that is neither the target's nor convertible:
      `Boolean` asked of a STRING, or `String` asked of TRUE, gives the
      descriptor of the target. */
  lemma MismatchedBasicClass(tok: Token, t: TypeDesc)
    requires tok.IsScalar() && !tok.Null?
    requires (t == BooleanType && (tok.Str? || tok.Number?)) || (t == StringType && (tok.True? || tok.False?))
    ensures ReadValue(tok, t) == Success(VDescriptor(t))
  {
  }

  // ---------------------------------------------------------------------
  // Enum constants
  // ---------------------------------------------------------------------

  lemma UpperIdempotent(t: string)
    ensures UpperString(UpperString(t)) == UpperString(t)
  {
    var u := UpperString(t);
    forall i | 0 <= i < |t| ensures UpperString(u)[i] == u[i] {
      assert Upper(Upper(t[i])) == Upper(t[i]);
    }
  }

  /** The search for a constant depends on the text only through its upper-cased form. */
  lemma {:induction false} FindConstantIgnoresCase(constants: seq<string>, a: string, b: string, from: nat)
    requires UpperString(a) == UpperString(b)
    ensures FindConstant(constants, a, from) == FindConstant(constants, b, from)
    decreases |constants| - from
  {
    if from < |constants| {
      FindConstantIgnoresCase(constants, a, b, from + 1);
    }
  }

  /** Enum matching ignores case: two literals that agree after upper-casing
      select the same constant. */
  lemma EnumIgnoresCase(cls: string, constants: seq<string>, a: string, b: string)
    requires UpperString(a) == UpperString(b)
    ensures ToEnum(cls, constants, a) == ToEnum(cls, constants, b)
  {
    FindConstantIgnoresCase(constants, a, b, 0);
  }

  /** In particular a literal and its upper-cased form select the same constant. */
  lemma EnumUpperCased(cls: string, constants: seq<string>, text: string)
    ensures ToEnum(cls, constants, text) == ToEnum(cls, constants, UpperString(text))
  {
    UpperIdempotent(text);
    EnumIgnoresCase(cls, constants, text, UpperString(text));
  }

  /** The constant chosen is the first in declared order that matches. */
  lemma EnumFirstMatch(cls: string, constants: seq<string>, text: string, i: nat)
    requires i < |constants| && UpperString(constants[i]) == UpperString(text)
    requires forall j :: 0 <= j < i ==> UpperString(constants[j]) != UpperString(text)
    ensures ToEnum(cls, constants, text) == VEnum(cls, constants[i])
  {
  }

  lemma EnumNoMatch(cls: string, constants: seq<string>, text: string)
    requires forall j :: 0 <= j < |constants| ==> UpperString(constants[j]) != UpperString(text)
    ensures ToEnum(cls, constants, text) == VNull
  {
  }
}
