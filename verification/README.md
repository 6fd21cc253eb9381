# A model of the `os.json` engine

The `os.json` package turns JSON text into Java objects of a requested class
and turns Java objects back into JSON text. The engine has four parts:

- `JsonTokenizer`, a lexer with a one-character lookahead. It skips
  whitespace, `//` comments and block comments. It reads the literals
  `true`, `false` and `null`, strings with their escapes, and numbers. It
  can also copy the raw text of a bracketed span.
- `JsonToken`, a lexical unit. Its `readValue` coerces the payload to a
  target class: `Double`, `Integer`, `Long`, the payload's own class, an
  enum matched by name ignoring case, or a bean seeded from the payload.
- `JsonDecoder`, a recursive-descent parser. It builds the list, set, map,
  bean or `JsonDecodable` instance the target class asks for, and it
  rejects input left over after the value.
- `JsonEncoder`, which classifies a value by its runtime class. It escapes
  strings and prints arrays and objects. It has two options: indentation
  and type-name comments.

This project models each part as pure functions over immutable data, in one
Dafny module per source file:

- `JsonTokenizer`, `JsonToken`, `JsonDecoder` and `JsonEncoder`.
- `Types`: the reflection layer the engine consults.
- `Chars` and `Results`: character classes and the exception results.

Separate modules hold the properties:

- `TokenizerFacts`, `NumberGrammar`, `TokenFacts`, `DecoderFacts`,
  `EscapeFacts` and `EncoderFacts`.
- `RoundTrip`: decoding the encoder's output gives the value back.

Decisions that shape the model:

- **Cursor and locations.** The tokenizer's state is the index `p` of its
  lookahead character, read as `Ch(s, p)`. Past the end of the text,
  `Ch(s, p)` is the 0 sentinel. A parse error reports `p + 1`, which is the
  Java field `loc`.
- **Tokens the decoder reads.** The decoder holds one table with, for every
  position, what `getNextToken` reads there. It looks the current position
  up in that table. Entries the parse never reaches have no effect, as in
  the source.
- **Exceptions.** Every exception the code throws becomes a `Failure`:
  - a `JsonParseError` with its message and location;
  - `NumberFormatException`, a `NullPointerException` on a `null` token or
    map key, and an `IndexOutOfBoundsException` from `charAt`.
- **Literals `true`, `false` and `null`.** `GetNextToken`, and through it
  `Decode` and the round trip, read these by content. The source compares
  them by identity, and the model keeps that reading as a separate member.
  See "## Findings".
- **Kept as written.** Other behaviour that looks odd is modelled exactly
  as the code does it:
  - `\uXXXX` unescapes to the DECIMAL digits of the code point.
  - An unknown escape `\c` unescapes to the decimal digits of 92 + code(c).
  - `getObjectString` switches on the lookahead character itself.
  - An object with no printed member encodes as the empty text.
  - An undeclared bean property skips exactly one token.
  - After a comma, the member loop pulls a token that may be `null`, and
    that `null` then throws.

## Model

| member | source | states |
|---|---|---|
| JsonTokenizer.SkipWhite | src/os/json/JsonTokenizer.java:500-511 | the result is the first non-whitespace position at or after `p`; every character skipped is space, tab, newline or carriage return |
| JsonTokenizer.LineEnd | src/os/json/JsonTokenizer.java:443-455 | a line comment runs to the first newline or the end of input, and contains neither |
| JsonTokenizer.BlockEnd | src/os/json/JsonTokenizer.java:457-490 | a block comment ends just past its first star-slash; without one it fails with "Multi-line comment not closed" where the scan reaches the end of input |
| JsonTokenizer.SkipComments | src/os/json/JsonTokenizer.java:437-498 | it changes nothing unless the lookahead is `/`; there it advances or raises one of the two skip errors |
| JsonTokenizer.SkipIgnored | src/os/json/JsonTokenizer.java:428-435 | on success the lookahead is neither whitespace nor `/`; a position already there is returned unchanged; the only failures are the skip errors |
| TokenizerFacts.SkipUnits | src/os/json/JsonTokenizer.java:428-435 | the reference reading: skip whitespace or one comment at a time, until neither applies |
| TokenizerFacts.SkipIgnoredIsUnitwise | src/os/json/JsonTokenizer.java:428-498 | the source's loop of rounds is the same function as skipping one unit at a time |
| JsonTokenizer.Lookahead | src/os/json/JsonTokenizer.java:101-101 | the characters successive `nextChar` calls return, the sentinel 0 past the end |
| JsonTokenizer.LookaheadInSource | src/os/json/JsonTokenizer.java:100-130 | the lookahead characters equal a word without the sentinel exactly when the word is in the text at that position |
| JsonTokenizer.ReadLiteralAsWritten | src/os/json/JsonTokenizer.java:100-130 | the identity comparison makes every literal fail, with the location just past the word's length |
| JsonTokenizer.ReadLiteral | src/os/json/JsonTokenizer.java:100-130 | the evidently intended reading: it succeeds iff the word is in the text, with the literal's token and the cursor just past the word; otherwise it fails at that position |
| TokenizerFacts.LiteralIdentityFinding | src/os/json/JsonTokenizer.java:100-108 | on the text `true` the as-written reader fails, and the intended one returns the TRUE token |
| TokenizerFacts.LiteralToken | src/os/json/JsonTokenizer.java:100-130 | after skipping, `t`, `f` or `n` yields the literal's token iff the whole word follows, and fails otherwise |
| TokenizerFacts.Punctuation | src/os/json/JsonTokenizer.java:76-99 | exactly the six characters `{}[],:` are structural tokens, each printed as itself |
| TokenizerFacts.StructuralToken | src/os/json/JsonTokenizer.java:74-99 | a structural character after the skipped text yields its token and advances by one |
| TokenizerFacts.NoTokenAtEnd | src/os/json/JsonTokenizer.java:139-141 | `getNextToken` returns no token exactly when skipping ends on the end-of-input sentinel |
| TokenizerFacts.NumberOrStringToken | src/os/json/JsonTokenizer.java:131-138 | a digit or `-` hands over to `readNumber`, a quote to `readString` |
| TokenizerFacts.UnexpectedCharacter | src/os/json/JsonTokenizer.java:142-146 | any other character fails with "Unexpected c encountered" just past it |
| JsonTokenizer.ClosingQuote | src/os/json/JsonTokenizer.java:158-192 | the result is the first quote at or after the start that has an even run of backslashes before it; with none, "Unterminated string literal" |
| TokenizerFacts.ClosingQuoteIsFirst | src/os/json/JsonTokenizer.java:158-192 | conversely, the first such quote is the one the search finds |
| TokenizerFacts.Unterminated | src/os/json/JsonTokenizer.java:188-191 | a string with no closing quote fails with "Unterminated string literal" at the position after the opening quote |
| JsonTokenizer.FirstNonHex | src/os/json/JsonTokenizer.java:271-284 | there is none exactly when all four characters are hex digits; otherwise it names an offending character |
| JsonTokenizer.EscapePiece | src/os/json/JsonTokenizer.java:236-306 | a non-`u` escape appends its fixed replacement; `\u` with four hex digits appends the code point's decimal digits and consumes four more; a short or non-hex `\u` is a parse error |
| JsonTokenizer.Unescape | src/os/json/JsonTokenizer.java:209-318 | text without a backslash is returned unchanged |
| TokenizerFacts.UnescapeSimple | src/os/json/JsonTokenizer.java:240-306 | text up to the first backslash is copied, the escape is replaced and the rest is unescaped after it |
| TokenizerFacts.UnescapeUnicode | src/os/json/JsonTokenizer.java:258-293 | `\u` with four hex digits is replaced by the decimal text of their value, and unescaping continues after the four digits |
| TokenizerFacts.UnescapeBadUnicode | src/os/json/JsonTokenizer.java:263-280 | `\u` followed by fewer than four hex digits is a parse error |
| TokenizerFacts.UnescapeTrailingBackslash | src/os/json/JsonTokenizer.java:225-236 | a backslash as the last character makes `charAt` throw |
| JsonTokenizer.ReadString | src/os/json/JsonTokenizer.java:151-207 | a success is a STRING token, and the cursor lands just past a closing quote |
| TokenizerFacts.ReadStringAt | src/os/json/JsonTokenizer.java:194-206 | the token's text is the unescaped body between the quotes, and an unescape error is the string's error |
| TokenizerFacts.StringToken | src/os/json/JsonTokenizer.java:131-207 | a quoted body that unescapes to `text` pulls the STRING token `text` and moves past the closing quote |
| JsonTokenizer.DigitsEnd | src/os/json/JsonTokenizer.java:364-368 | the end of the maximal run of digits |
| JsonTokenizer.IntegerPart | src/os/json/JsonTokenizer.java:348-369 | it copies the integer digits verbatim from the source, and a lone `0` may not be followed by a digit |
| JsonTokenizer.FractionPart | src/os/json/JsonTokenizer.java:371-389 | the fraction is empty or a verbatim `.` and digits |
| JsonTokenizer.ExponentPart | src/os/json/JsonTokenizer.java:391-416 | with no `e`/`E` nothing is read; otherwise it succeeds iff a digit follows the optional sign, and reads the whole exponent with `E` written as `e` |
| JsonTokenizer.LowerE | src/os/json/JsonTokenizer.java:394-394 | the text with every `E` written as `e`, nothing else changed |
| JsonTokenizer.NumberText | src/os/json/JsonTokenizer.java:333-417 | the accumulated number text is the consumed source with `E` lowered |
| JsonTokenizer.ReadNumber | src/os/json/JsonTokenizer.java:329-418 | a success is the NUMBER token of exactly the consumed source text, `E` lowered |
| NumberGrammar.ReadNumberSound | src/os/json/JsonTokenizer.java:329-418 | what `readNumber` consumes is a JSON number (sign, integer part, fraction, exponent) and is not followed by a digit |
| NumberGrammar.ReadNumberComplete | src/os/json/JsonTokenizer.java:329-418 | conversely, a JSON number followed by a character that cannot continue it is read whole |
| NumberGrammar.SplitAtComplete | src/os/json/JsonTokenizer.java:329-418 | the same, from any split of the unsigned text into integer, fraction and exponent |
| NumberGrammar.IntegerPartSound | src/os/json/JsonTokenizer.java:348-369 | the integer part read is `0` or digits not starting with `0`, and no digit follows |
| NumberGrammar.IntegerPartComplete | src/os/json/JsonTokenizer.java:348-369 | any such integer part followed by a non-digit is read whole |
| NumberGrammar.FractionPartSound | src/os/json/JsonTokenizer.java:371-389 | the fraction read is empty exactly when no `.` follows, and otherwise is `.` and one or more digits, with no digit after them |
| NumberGrammar.FractionPartComplete | src/os/json/JsonTokenizer.java:371-389 | any such fraction is read whole |
| NumberGrammar.ExponentPartSound | src/os/json/JsonTokenizer.java:391-416 | the exponent read is empty exactly when no `e`/`E` follows, and otherwise is a marker, an optional sign and digits |
| NumberGrammar.ExponentPartComplete | src/os/json/JsonTokenizer.java:391-416 | any such exponent is read whole, `E` lowered |
| NumberGrammar.ReadNumberNoIntegerDigit | src/os/json/JsonTokenizer.java:335-346 | a `-` without a digit after it fails with "Expecting a digit" |
| NumberGrammar.ReadNumberDigitAfterZero | src/os/json/JsonTokenizer.java:348-360 | a leading `0` followed by a digit fails with "A digit cannot immediately follow 0" |
| NumberGrammar.ReadNumberNoFractionDigit | src/os/json/JsonTokenizer.java:371-381 | a `.` without a digit after it fails with "Expecting a digit" |
| NumberGrammar.ReadNumberNoExponentDigit | src/os/json/JsonTokenizer.java:391-408 | an exponent marker and sign without a digit fail with "Scientific notation number needs exponent value" |
| NumberGrammar.ReadNumberFails | src/os/json/JsonTokenizer.java:329-418 | `readNumber` fails iff one of those four cases holds |
| NumberGrammar.IntegerAndFraction | src/os/json/JsonTokenizer.java:342-416 | past the integer part and the fraction, the outcome is decided by the exponent alone |
| JsonTokenizer.GetNextToken | src/os/json/JsonTokenizer.java:64-149 | the cursor never moves back, and it moves forward whenever a token is read |
| JsonTokenizer.Span | src/os/json/JsonTokenizer.java:530-558 | what is copied is exactly the source text the cursor passes over |
| TokenizerFacts.SpanStopsAtDepthZero | src/os/json/JsonTokenizer.java:530-558 | the copy stops at the first character that brings the bracket depth to zero, or at the end of input |
| TokenizerFacts.BracketedDepth | src/os/json/JsonTokenizer.java:530-558 | inside a bracketed word without brackets the depth from 1 is 2, and the whole bracketed word brings it back to 1 |
| JsonTokenizer.GetObjectString | src/os/json/JsonTokenizer.java:525-563 | it fails with an index error iff the cursor is past the text; on a lookahead that is not `{` or `[` it copies nothing; otherwise the copy is the source text from the cursor |
| DecoderFacts.LookaheadBracketCounted | src/os/json/JsonTokenizer.java:525-563 | because the switch reads the lookahead, the opening bracket is counted twice, so a bracketed span `[w]` is never closed by its own `]` |
| JsonToken.PayloadText | src/os/json/JsonToken.java:80-88 | `toString` of the payload throws exactly for NULL and otherwise is the token's text |
| JsonToken.DoubleValueOf | src/os/json/JsonToken.java:79-80 | a decimal float is accepted and kept as its text; anything else is `NumberFormatException` on that text |
| JsonToken.ReadValue | src/os/json/JsonToken.java:65-94 | with no target class only NUMBER and STRING give values and the rest give `null`; with a target class a NULL token throws |
| TokenFacts.UntypedRead | src/os/json/JsonToken.java:68-77 | with no target class, NUMBER is read as a `Double` and STRING as a `String` |
| TokenFacts.DoubleTarget | src/os/json/JsonToken.java:79-80 | a `Double` target succeeds iff the token's text is a decimal float |
| TokenFacts.IntegerTarget | src/os/json/JsonToken.java:82-87 | an `Integer` or `Long` target succeeds iff the text is an integer in that type's range, and the value is that integer |
| TokenFacts.FractionRefusedAsInteger | src/os/json/JsonToken.java:82-87 | a number with a fraction or exponent read as `Integer` or `Long` throws `NumberFormatException` |
| TokenFacts.ExactClassMatch | src/os/json/JsonToken.java:88-89 | a target equal to the payload's class returns the payload itself |
| TokenFacts.ConvertedTargets | src/os/json/JsonToken.java:90-105 | any other class goes to `convertObject`: the enum constant, a bean seeded from the payload, or the type descriptor |
| TokenFacts.MismatchedBasicClass | src/os/json/JsonToken.java:88-104 | asking a string for `Boolean`, or a boolean for `String`, returns the type descriptor, not a value |
| Types.FindConstant | src/os/json/JsonToken.java:113-122 | the result is the first constant equal to the text after upper-casing; there is none iff no constant matches |
| Types.ToEnum | src/os/json/JsonDecoder.java:137-147 | a constant of that enum, or `null` |
| TokenFacts.EnumIgnoresCase | src/os/json/JsonToken.java:113-122 | texts that upper-case alike select the same constant |
| TokenFacts.FindConstantIgnoresCase | src/os/json/JsonToken.java:113-122 | the search itself cannot tell texts that upper-case alike apart |
| TokenFacts.EnumFirstMatch | src/os/json/JsonToken.java:113-122 | the first matching constant in declared order wins |
| TokenFacts.EnumNoMatch | src/os/json/JsonToken.java:113-122 | with no match the result is `null` |
| Chars.ParseInteger | src/os/json/JsonToken.java:82-87 | `Integer.valueOf` and `Long.valueOf` succeed iff the text is an optionally signed integer in range; the failure is `NumberFormatException` |
| Chars.DecimalText | src/os/json/JsonTokenizer.java:289 | `String.valueOf` of a non-negative `int`: decimal digits with no leading zero whose value is the number |
| Chars.IntText | src/os/json/JsonEncoder.java:79 | `Integer.toString` and `Long.toString`: a minus sign exactly for a negative number, then the decimal digits of its magnitude |
| Chars.HexText | src/os/json/JsonEncoder.java:157 | `Integer.toString(n, 16)`: lower-case hex digits with no leading zero whose value is the number |
| Chars.UpperString | src/os/json/JsonToken.java:117 | `toUpperCase`: the same length, every character upper-cased in place |
| Chars.IndexOf | src/os/json/JsonTokenizer.java:225 | `indexOf(c, from)`: the first position at or after `from` holding `c`, or none iff no such position exists |
| Chars.IntTextParses | src/os/json/JsonToken.java:82-87 | the decimal text of an in-range integer parses back to it |
| Types.Shape | src/os/json/JsonDecoder.java:79-79 | the class itself, or the type layer's answer for the `null` class |
| Types.NewInstance | src/os/json/JsonDecoder.java:195-198 | an empty list, set or map of the class, or a bean with every declared property unset |
| JsonDecoder.NewInstanceFits | src/os/json/JsonDecoder.java:195-198 | a fresh instance satisfies the invariant the parse keeps |
| Types.Put | src/os/json/JsonDecoder.java:165-167 | after `put` the key maps to the new value, and every other key keeps its value |
| Types.PutKeys | src/os/json/JsonDecoder.java:165-167 | a put of a present key keeps the key order; a put of a new key appends it |
| Types.PutKeepsDistinct | src/os/json/JsonDecoder.java:165-167 | a put never creates a duplicate key |
| Types.Add | src/os/json/JsonDecoder.java:156-158 | `add` makes the element a member and changes nothing else: nothing if it was already present, append otherwise |
| JsonDecoder.AddKeepsDistinct | src/os/json/JsonDecoder.java:156-158 | an add never creates a duplicate element |
| Types.SetField | src/os/json/JsonDecoder.java:168-172 | the setter changes the named field only, and keeps the declared order |
| Types.FindProperty | src/os/json/JsonDecoder.java:169-170 | the declared property of that name, or none iff no property has it |
| JsonDecoder.Document | src/os/json/JsonDecoder.java:49-53 | the decoder's state for a document holds the tokenizer's reading at every position |
| JsonDecoder.NextToken | src/os/json/JsonDecoder.java:62-64 | the position never moves back, and moves forward when a token is read |
| DecoderFacts.PullToken | src/os/json/JsonDecoder.java:62-64 | `nextToken` is the tokenizer's `getNextToken` at the current position |
| JsonDecoder.NextValid | src/os/json/JsonDecoder.java:66-76 | a success always carries a token; the end of input is "Unexpected end of input" |
| DecoderFacts.NextValidOf | src/os/json/JsonDecoder.java:66-76 | when a token is present, `nextValidToken` returns the same token as `nextToken` |
| JsonDecoder.ConvertKey | src/os/json/JsonDecoder.java:121-130 | a member name becomes an enum constant or `null` for an enum key class, a seeded bean for a bean key class, and otherwise stays the string |
| JsonDecoder.ParseValue | src/os/json/JsonDecoder.java:283-301 | with no token it is "Unexpected end of input"; a scalar leaves the token in place; a success on `[` ends on `]`; a success on `{` ends on `}` unless the class is decodable |
| DecoderFacts.ValueDispatch | src/os/json/JsonDecoder.java:286-290 | `{` goes to `parseObject`, `[` to `parseArray` |
| DecoderFacts.ScalarValue | src/os/json/JsonDecoder.java:291-296 | a scalar token is read with `readValue` for the target class |
| JsonDecoder.ParseObject | src/os/json/JsonDecoder.java:183-277 | a decodable class always succeeds and is fed the copied span when there is one; any other class ends on `}` with an instance of the class that keeps the invariant |
| DecoderFacts.EmptyObject | src/os/json/JsonDecoder.java:204-212 | `{}` gives a fresh instance and ends on `}` |
| DecoderFacts.EmptyObjectComma | src/os/json/JsonDecoder.java:213-224 | `{,}` also gives a fresh instance |
| DecoderFacts.LeadingComma | src/os/json/JsonDecoder.java:213-229 | after `{,` anything but `}` fails with "Leading commas are not supported" |
| DecoderFacts.ObjectOpens | src/os/json/JsonDecoder.java:195-235 | an object that starts with a string is read by the member loop into a fresh instance |
| DecoderFacts.DecodableSpan | src/os/json/JsonDecoder.java:184-192 | a decodable class receives the raw span `getObjectString` copies, and the cursor lands after it; past the end the instance is returned unfed |
| JsonDecoder.Members | src/os/json/JsonDecoder.java:233-276 | a success ends on `}` with the invariant kept; a missing token after a comma throws |
| DecoderFacts.MemberCloses | src/os/json/JsonDecoder.java:235-257 | `"key" : value }` ends the object with that member added |
| DecoderFacts.MemberContinues | src/os/json/JsonDecoder.java:258-261 | `"key" : value ,` adds the member and continues with the next one |
| DecoderFacts.MemberExpected | src/os/json/JsonDecoder.java:272-275 | a `}` where a member name is expected fails with "Expecting string but found }" |
| DecoderFacts.MembersKeepKeys | src/os/json/JsonDecoder.java:233-276 | the member loop never loses a map key |
| JsonDecoder.AddMember | src/os/json/JsonDecoder.java:162-174 | a map stores the value parsed for the value class under the converted key; a bean changes no field other than the named one; for anything else nothing is parsed |
| DecoderFacts.DuplicateKeyOverwrites | src/os/json/JsonDecoder.java:165-167 | a repeated key overwrites the earlier value in place, and no other key changes |
| DecoderFacts.UndeclaredKeySkipsOneToken | src/os/json/JsonDecoder.java:168-173 | for an undeclared bean property nothing is parsed: the one token after the colon is skipped and the token after it is taken for the `}` or `,`, so a scalar value is ignored and the first token inside an object or array value is taken for the separator |
| JsonDecoder.ParseArray | src/os/json/JsonDecoder.java:78-119 | a success ends on `]` with an instance of the class that keeps the invariant |
| DecoderFacts.EmptyArray | src/os/json/JsonDecoder.java:84-91 | `[]` gives a fresh instance, an empty list for a list class |
| DecoderFacts.ArrayOpens | src/os/json/JsonDecoder.java:78-98 | a non-empty array is read by the element loop into a fresh instance |
| DecoderFacts.ArrayCloses | src/os/json/JsonDecoder.java:84-91 | `[` directly followed by `]` returns the fresh instance |
| JsonDecoder.Elements | src/os/json/JsonDecoder.java:95-116 | a list keeps its earlier elements as a prefix and grows; a set keeps every earlier element; a success ends on `]` |
| DecoderFacts.ElementsClose | src/os/json/JsonDecoder.java:99-106 | an element followed by `]` ends the array with that element added |
| DecoderFacts.ElementsComma | src/os/json/JsonDecoder.java:107-111 | an element followed by `,` continues with the next element |
| DecoderFacts.ElementExpected | src/os/json/JsonDecoder.java:297-298 | a `]` where an element is expected fails with "Unexpected ]" |
| DecoderFacts.TrailingCommaArray | src/os/json/JsonDecoder.java:107-111 | so a trailing comma, as in `[1,]`, fails with "Unexpected ]" |
| JsonDecoder.AddElement | src/os/json/JsonDecoder.java:149-160 | a list appends the parsed element, a set adds it and keeps every earlier element, any other object parses nothing |
| DecoderFacts.CollectionElement | src/os/json/JsonDecoder.java:95-111 | one element step: the element is added, then `]` ends the loop and `,` continues it |
| DecoderFacts.DecodeEmptyDocument | src/os/json/JsonDecoder.java:49-54 | a document with nothing but whitespace and comments fails with "Unexpected end of input" |
| DecoderFacts.DecodeAfterValue | src/os/json/JsonDecoder.java:49-60 | a value followed by the end of input is the result |
| DecoderFacts.TrailingInputFails | src/os/json/JsonDecoder.java:56-58 | a value followed by another token fails with "Unexpected characters left in input stream" |
| DecoderFacts.DecodeValueFails | src/os/json/JsonDecoder.java:53-54 | an error while parsing the value is the decoder's error |
| JsonEncoder.Comment | src/os/json/JsonEncoder.java:66-68 | empty unless comments are on; then the name wrapped in a block comment |
| JsonEncoder.Indent | src/os/json/JsonEncoder.java:229-230 | two spaces per level |
| JsonEncoder.EscapeChar | src/os/json/JsonEncoder.java:125-171 | a quote, a backslash or a control character is written as an escape; any other character is copied |
| JsonEncoder.HexOfControl | src/os/json/JsonEncoder.java:155-164 | a control character's code has one or two hex digits, so the padded `\u` escape has exactly four |
| EscapeFacts.UnicodeEscape | src/os/json/JsonEncoder.java:155-164 | a control character without a short escape is written as `\u` and four hex digits of its code |
| JsonEncoder.EscapeBody | src/os/json/JsonEncoder.java:121-176 | escaping never shortens the text |
| JsonEncoder.Escape | src/os/json/JsonEncoder.java:121-176 | the result is wrapped in quotes |
| JsonEncoder.EscapeClean | src/os/json/JsonEncoder.java:121-176 | the escaped string contains no raw control character |
| JsonEncoder.EscapeString | src/os/json/JsonEncoder.java:121-176 | the character loop with its accumulator computes the escaped, quoted string |
| EscapeFacts.PlainEscape | src/os/json/JsonEncoder.java:153-170 | text with no quote, backslash or control character is written unchanged |
| EscapeFacts.ShortEscapeUndone | src/os/json/JsonEncoder.java:129-151 | each two-character escape the encoder writes is undone by the tokenizer's unescape |
| EscapeFacts.UnescapeOfEscape | src/os/json/JsonTokenizer.java:209-318 | unescaping the escaped text gives the text back, when its control characters all have short escapes |
| EscapeFacts.UnicodeEscapeLost | src/os/json/JsonTokenizer.java:286-289 | any other control character does not come back: its `\u` escape unescapes to decimal digits |
| EscapeFacts.QuotedEscape | src/os/json/JsonTokenizer.java:169-182 | no quote inside an escaped string has an even run of backslashes before it |
| EscapeFacts.ClosesAfter | src/os/json/JsonTokenizer.java:158-192 | so the quote the encoder closes with is the first closing quote the tokenizer finds |
| EscapeFacts.ReadEscaped | src/os/json/JsonTokenizer.java:151-207 | an escaped string in the text is read back as the original string token, and the cursor lands past it |
| JsonEncoder.KeyText | src/os/json/JsonEncoder.java:244-244 | the key's `toString`: a `null` key throws; a string is itself; an enum constant is its name |
| EncoderFacts.EncodeSucceeds | src/os/json/JsonEncoder.java:70-110 | encoding succeeds iff no map in the value has a `null` key under a non-null value, and fails only with a `NullPointerException` |
| EncoderFacts.CommentSuffix | src/os/json/JsonEncoder.java:70-110 | `null` prints as `null`; every other value ends with its type-name comment |
| JsonEncoder.Items | src/os/json/JsonEncoder.java:179-199 | one text per element, in order, each the element's own encoding |
| EncoderFacts.ArrayTextJoin | src/os/json/JsonEncoder.java:179-199 | cutting the last comma off is joining the elements with commas, inside brackets |
| JsonEncoder.MapMembers | src/os/json/JsonEncoder.java:240-246 | one member per entry whose value is not `null` |
| EncoderFacts.MapMembersAre | src/os/json/JsonEncoder.java:240-246 | each member is the escaped key text, a colon and the value's encoding, in iteration order |
| EncoderFacts.NonNullEntriesAre | src/os/json/JsonEncoder.java:243-243 | the entries printed are exactly those whose value is not `null` |
| JsonEncoder.BeanMembers | src/os/json/JsonEncoder.java:248-256 | one member per property whose value is not `null` |
| EncoderFacts.BeanMembersAre | src/os/json/JsonEncoder.java:248-256 | each member is the escaped property name, a colon and the value's encoding, in declared order |
| EncoderFacts.NonNullFieldsAre | src/os/json/JsonEncoder.java:253-253 | the properties printed are exactly those whose value is not `null` |
| EncoderFacts.ObjectTextJoin | src/os/json/JsonEncoder.java:258-263 | no member prints as the empty text; otherwise the members, indented, are joined by commas inside braces, with the closing brace at the object's indent |
| JsonEncoder.Prefixed | src/os/json/JsonEncoder.java:244-254 | every member gets the indentation prefix |
| RoundTrip.DecodeEncode | src/os/json/JsonDecoder.java:49-60 | a value in the round-trip domain encodes without error, and decoding its plain encoding with its own class gives it back |
| RoundTrip.ValueAt | src/os/json/JsonDecoder.java:283-301 | such a value's encoding, wherever it stands in a document and followed by `,` `]` `}` or the end, is parsed back as that value and ends where its text ends |
| RoundTrip.DecodeWhole | src/os/json/JsonDecoder.java:49-60 | a document that is exactly one value's text decodes to that value |
| RoundTrip.RoundTripsKeysPresent | src/os/json/JsonEncoder.java:244-244 | no value in the domain has a `null` map key |
| RoundTrip.StringSpan | src/os/json/JsonEncoder.java:75-76 | an encoded string is read back as the same string |
| RoundTrip.BoolSpan | src/os/json/JsonEncoder.java:87-88 | an encoded boolean is read back as that boolean |
| RoundTrip.IntSpan | src/os/json/JsonEncoder.java:78-79 | an encoded `Integer` or `Long` in range is read back as that number |
| RoundTrip.EnumSpan | src/os/json/JsonEncoder.java:84-85 | an encoded enum constant that is the first to match its own name is read back as that constant |
| RoundTrip.CollectionAt | src/os/json/JsonDecoder.java:78-119 | an encoded list or set is read back element by element as the same collection |
| RoundTrip.MapAt | src/os/json/JsonDecoder.java:183-277 | an encoded non-empty map with string keys is read back with the same entries in the same order |
| RoundTrip.BeanAt | src/os/json/JsonDecoder.java:168-172 | an encoded bean with a non-null property is read back with the same fields |

## Left out

- I/O and environment:
  - the `JSON` facade class, `JsonParseError`'s formatting and the
    `e.printStackTrace()` calls;
  - reflection itself: `Types.getType`, getters and setters. The model
    replaces them with the datatypes of `Types`.
- What `decodeJson` and `encodeJson` do with the text. A decodable instance
  records the span it was fed. An encodable object carries the text its
  `encodeJson` returns.
- `annotationToString` (JsonEncoder.java:200-225): annotation values and the
  reflective calls on their methods are not modelled.
- `JsonToken`'s `UNKNOWN` and `NAN` kinds: they are never created.
- Constructors and the mutable fields of the Java objects. Their state is
  carried in the arguments and results instead.
- DoubleValueOf: accepts only decimal floats (sign, digits, fraction,
  exponent). `Double.valueOf` also accepts `NaN`, `Infinity`, the suffixes
  `d`/`f`, hexadecimal floats and surrounding whitespace. So a STRING token
  such as `"NaN"` read as `Double` fails here but not in Java.
- IsDecimalFloat: the same narrowing as `DoubleValueOf`, whose domain it
  defines.
- ConvertToString: prints a `Double` as its source text, not as
  `Double.toString` would (`1` and `1e2` print as `1.0` and `100.0` in
  Java). The round trip therefore leaves doubles out.
- KeyText: prints a `Double` key as its source text, for the same reason.
- Add: compares doubles by their text. `1` and `1.0` are two elements here
  and one `Double` in Java. It also compares beans, seeded beans and
  decodable instances by their contents, where `HashSet.add` uses `equals`.
  That is identity unless the class overrides it. So `[{"a":1},{"a":1}]`
  read as a set of beans has two elements in Java and one here.
- Put: keeps keys in insertion order, like a `LinkedHashMap`. A `HashMap`
  iterates in hash order. Keys are compared by contents, as in `Add`. A
  seeded bean key built by `convertKey` from the same text therefore
  replaces the earlier entry here, but is a second key in Java unless the
  class overrides `equals`.
- ParseObject: an instance of a decodable class is always created. Java
  returns `null` when `cls.newInstance()` throws (JsonDecoder.java:185-192),
  for example for an abstract class or one without a public no-argument
  constructor. The model has no way to describe such a class.
- NewInstance: a fresh bean has every property `null`. Java runs the
  no-argument constructor, which may set defaults, and a primitive property
  is never `null`. `RoundTrip.BeanAt` and `RoundTrip.DecodeEncode` therefore
  give a bean back only for classes whose constructor leaves the properties
  `null`.
- ParseInteger: accepts ASCII digits only. `Integer.valueOf` and
  `Long.valueOf` go through `Character.digit`, which accepts any Unicode
  decimal digit. So a STRING token `"١٢"` read as `Integer` is 12 in Java
  and a `NumberFormatException` here. `TokenFacts.IntegerTarget` inherits
  this narrowing.
- MapMembersAre: its member order is the map's order. That is the JSON
  order only for linked maps and sets.
- Upper: upper-cases ASCII letters only. `toUpperCase` is full Unicode and
  depends on the locale (`ß` becomes `SS`).
- UpperString: the same, so `ToEnum` and `FindConstant` match names as
  ASCII.
- SimpleEscape: a `char` here is a Unicode scalar value, not a UTF-16 unit.
  For a character outside the Basic Multilingual Plane, Java adds 92 to the
  high surrogate and copies the low one.
- Described: keeps these out of the encoder's domain, because their
  `toString`, `getName` or getters are code the model does not have:
  - seeded beans, decodable instances, type descriptors and instances of
    other classes;
  - map keys of those classes.
- KeyDescribed: for the same reason, map keys are limited to strings,
  enum constants, numbers, booleans, UUIDs and `null`.
- JsonDecoder.Ctx: `untyped` stands for whatever `Types.getType(null)`
  returns. The type layer is not part of this model.
- AddMember: assumes an instance's class is the descriptor it was created
  from, so `getType(o.getClass())` is that descriptor.
- AddElement: the same assumption.
- RoundTrip.RoundTrips: the domain where decoding gives the value back. It
  excludes, as the source behaves:
  - strings with a control character that has no two-character escape;
  - empty maps, and beans with every property `null`, which encode as the
    empty text;
  - maps with keys that are not strings, enum constants that another
    constant matches first ignoring case, and doubles.

## Findings

| source | as written | input that shows it | evidently intended | confidence | as-written member | corrected member |
|---|---|---|---|---|---|---|
| src/os/json/JsonTokenizer.java:100-130 | `possibleTrue == "true"` (and the same for `false` and `null`) compares a string built at run time with a literal by reference, which is never equal | the document `true` fails with "Expecting 'true' but found true" | compare by content with `equals`, so `true`, `false` and `null` read as their tokens | not executed | `JsonTokenizer.ReadLiteralAsWritten`, `TokenizerFacts.LiteralIdentityFinding` | `JsonTokenizer.ReadLiteral` |
