/** `JsonEncoder`: the classifier that turns a value into JSON text, the
    string escaper, and the array and object printers.

    Class names in `Value` are the simple names `getSimpleName` reports, so
    the type-name comment of a value of class `c` is `/*c*/`. */
module JsonEncoder {
  import opened Results
  import opened Chars
  import opened Types

  /** The two constructor flags: indentation and type-name comments. */
  datatype Options = Options(formatted: bool, commented: bool)

  /** `comment(text)`. */
  function Comment(opts: Options, name: string): (r: string)
    ensures !opts.commented ==> r == ""
    ensures opts.commented ==> |r| == |name| + 4 && r[..2] == "/*" && r[|r| - 2..] == "*/"
  {
    if opts.commented then "/*" + name + "*/" else ""
  }

  /** `StringUtils.repeat("  ", n)`: two spaces per level. */
  function Indent(n: nat): (r: string)
    ensures |r| == 2 * n
    ensures forall i :: 0 <= i < |r| ==> r[i] == ' '
  {
    if n == 0 then "" else "  " + Indent(n - 1)
  }

  // ---------------------------------------------------------------------
  // escapeString
  // ---------------------------------------------------------------------

  /** A character below the space is a control character. */
  predicate IsControl(c: char) {
    c < ' '
  }

  /** The five control characters with a two-character escape. */
  predicate HasShortEscape(c: char) {
    c == Backspace || c == FormFeed || c == '\n' || c == '\r' || c == '\t'
  }

  /** What `escapeString` writes for one character. */
  function EscapeChar(c: char): (r: string)
    ensures |r| >= 1
    ensures (c == '"' || c == '\\' || IsControl(c)) <==> r[0] == '\\'
    ensures !(c == '"' || c == '\\' || IsControl(c)) ==> r == [c]
  {
    if c == '"' then "\\\""
    else if c == '\\' then "\\\\"
    else if c == Backspace then "\\b"
    else if c == FormFeed then "\\f"
    else if c == '\n' then "\\n"
    else if c == '\r' then "\\r"
    else if c == '\t' then "\\t"
    else if IsControl(c) then
      var hex := HexText(c as int);
      HexOfControl(c);
      "\\u" + (if |hex| == 2 then "00" else "000") + hex
    else [c]
  }

  /** The code of a control character has one or two hex digits. */
  lemma HexOfControl(c: char)
    requires IsControl(c)
    ensures 1 <= |HexText(c as int)| <= 2
  {
    var n := c as int;
    if n >= 16 {
      assert HexText(n) == HexText(n / 16) + [LowerHexDigit(n % 16)];
    }
  }

  /** The escaped characters of `t`, without the surrounding quotes. */
  function EscapeBody(t: string): (r: string)
    ensures |r| >= |t|
  {
    if t == [] then "" else EscapeChar(t[0]) + EscapeBody(t[1..])
  }

  /** `escapeString(str)`. */
  function Escape(t: string): (r: string)
    ensures |r| >= 2 && r[0] == '"' && r[|r| - 1] == '"'
  {
    "\"" + EscapeBody(t) + "\""
  }

  /** No character `escapeString` writes for one character is a raw control
      character. */
  lemma EscapeCharClean(c: char)
    ensures forall i :: 0 <= i < |EscapeChar(c)| ==> !IsControl(EscapeChar(c)[i])
  {
  }

  /** Nor is any character of the escaped text. */
  lemma {:induction false} EscapeBodyClean(t: string)
    ensures forall i :: 0 <= i < |EscapeBody(t)| ==> !IsControl(EscapeBody(t)[i])
    decreases |t|
  {
    if t != [] {
      EscapeCharClean(t[0]);
      EscapeBodyClean(t[1..]);
    }
  }

  /** So the quoted string holds no raw control character. */
  lemma EscapeClean(t: string)
    ensures forall i :: 0 <= i < |Escape(t)| ==> !IsControl(Escape(t)[i])
  {
    EscapeBodyClean(t);
  }

  lemma EscapeBodyAppend(a: string, b: string)
    ensures EscapeBody(a + b) == EscapeBody(a) + EscapeBody(b)
    decreases |a|
  {
    if a != [] {
      assert (a + b)[0] == a[0];
      assert (a + b)[1..] == a[1..] + b;
      EscapeBodyAppend(a[1..], b);
    } else {
      assert a + b == b;
    }
  }

  /** The escape loop of `escapeString`, one character at a time into an
      accumulator, then the quotes. */
  method EscapeString(str: string) returns (s: string)
    ensures s == Escape(str)
  {
    var acc := "";
    var i := 0;
    while i < |str|
      invariant 0 <= i <= |str|
      invariant acc == EscapeBody(str[..i])
    {
      EscapeBodyAppend(str[..i], [str[i]]);
      assert str[..i + 1] == str[..i] + [str[i]];
      acc := acc + EscapeChar(str[i]);
      i := i + 1;
    }
    assert str[..i] == str;
    s := "\"" + acc + "\"";
  }

  // ---------------------------------------------------------------------
  // The values the encoder can print
  // ---------------------------------------------------------------------

  /** The map keys whose `toString` the model knows (`null` throws). */
  predicate KeyDescribed(k: Value) {
    k.VNull? || k.VStr? || k.VEnum? || k.VInt? || k.VLong? || k.VBool? || k.VUuid? || k.VDouble?
  }

  /** Values whose printing does not depend on code outside the engine: no
      object seeded from a literal, fed to `decodeJson`, type descriptor or
      instance of an undescribed class, and no map key of such a class under
      a non-null value. */
  predicate Described(v: Value)
    decreases v
  {
    match v
    case VSeeded(_, _) => false
    case VDecoded(_, _) => false
    case VDescriptor(_) => false
    case VInstance(_) => false
    case VList(_, es) => forall i :: 0 <= i < |es| ==> Described(es[i])
    case VSet(_, es) => forall i :: 0 <= i < |es| ==> Described(es[i])
    case VMap(_, entries) =>
      forall i :: 0 <= i < |entries| ==>
        Described(entries[i].val) && (entries[i].val != VNull ==> KeyDescribed(entries[i].key))
    case VBean(_, fields) => forall i :: 0 <= i < |fields| ==> Described(fields[i].val)
    case _ => true
  }

  /** `key.toString()`: throws for a `null` key. */
  function KeyText(k: Value): (r: Result<string>)
    requires KeyDescribed(k)
    ensures r.Failure? <==> k == VNull
    ensures r.Failure? ==> r.error == NullPointer
    ensures k.VStr? ==> r == Success(k.s)
    ensures k.VEnum? ==> r == Success(k.name)
  {
    match k
    case VNull => Failure(NullPointer)
    case VStr(s) => Success(s)
    case VEnum(_, n) => Success(n)
    case VInt(i) => Success(IntText(i))
    case VLong(i) => Success(IntText(i))
    case VBool(b) => Success(if b then "true" else "false")
    case VUuid(t) => Success(t)
    case VDouble(t) => Success(t)
  }

  // ---------------------------------------------------------------------
  // convertToString
  // ---------------------------------------------------------------------

  /** `convertToString(value, depth)`: null, then string, number, class,
      enum, boolean, date, UUID, list or set, and any other object; every
      result except `null` is followed by the type-name comment. */
  function ConvertToString(opts: Options, v: Value, depth: nat): (r: Result<string>)
    requires Described(v)
    decreases v
  {
    match v
    case VNull => Success("null")
    case VStr(s) => Success(Escape(s) + Comment(opts, "String"))
    case VDouble(t) => Success(t + Comment(opts, "Double"))
    case VInt(i) => Success(IntText(i) + Comment(opts, "Integer"))
    case VLong(i) => Success(IntText(i) + Comment(opts, "Long"))
    case VClass(n) => Success(Escape(n) + Comment(opts, "Class"))
    case VEnum(cls, n) => Success(Escape(n) + Comment(opts, cls))
    case VBool(b) => Success((if b then "true" else "false") + Comment(opts, "Boolean"))
    case VDate(m) => Success(IntText(m) + Comment(opts, "Date"))
    case VUuid(t) => Success(Escape(t) + Comment(opts, "UUID"))
    case VList(cls, es) =>
      var items :- Items(opts, es, depth);
      Success(ArrayText(items) + Comment(opts, cls))
    case VSet(cls, es) =>
      var items :- Items(opts, es, depth);
      Success(ArrayText(items) + Comment(opts, cls))
    case VEncodable(cls, json) => Success(json + Comment(opts, cls))
    case VSimple(cls, t) => Success("\"" + t + "\"" + Comment(opts, cls))
    case VMap(cls, entries) =>
      var ms :- MapMembers(opts, entries, depth + 1);
      Success(ObjectText(opts, ms, depth) + Comment(opts, cls))
    case VBean(cls, fields) =>
      var ms :- BeanMembers(opts, fields, depth + 1);
      Success(ObjectText(opts, ms, depth) + Comment(opts, cls))
  }

  /** The elements of a list or set, each encoded at the same depth, in order. */
  function Items(opts: Options, es: seq<Value>, depth: nat): (r: Result<seq<string>>)
    requires forall i :: 0 <= i < |es| ==> Described(es[i])
    ensures r.Success? ==> |r.value| == |es|
    ensures r.Success? ==> forall i :: 0 <= i < |es| ==> ConvertToString(opts, es[i], depth) == Success(r.value[i])
    decreases es
  {
    if es == [] then Success([])
    else
      var first :- ConvertToString(opts, es[0], depth);
      var rest :- Items(opts, es[1..], depth);
      Success([first] + rest)
  }

  /** The members of a map, one `"key":value` per entry whose value is not
      null, in iteration order, values encoded one level deeper. */
  function MapMembers(opts: Options, entries: seq<Entry>, depth: nat): (r: Result<seq<string>>)
    requires forall i :: 0 <= i < |entries| ==>
      Described(entries[i].val) && (entries[i].val != VNull ==> KeyDescribed(entries[i].key))
    ensures r.Success? ==> |r.value| == |NonNullEntries(entries)|
    decreases entries
  {
    if entries == [] then Success([])
    else if entries[0].val == VNull then MapMembers(opts, entries[1..], depth)
    else
      var member :- EntryMember(opts, entries[0], depth);
      var rest :- MapMembers(opts, entries[1..], depth);
      Success([member] + rest)
  }

  /** One map entry with a non-null value, as `"key":value`. */
  function EntryMember(opts: Options, e: Entry, depth: nat): (r: Result<string>)
    requires e.val != VNull && Described(e.val) && KeyDescribed(e.key)
    decreases e
  {
    var key :- KeyText(e.key);
    var val :- ConvertToString(opts, e.val, depth);
    Success(Escape(key) + ":" + val)
  }

  /** The members of a bean, one `"name":value` per property whose getter
      returns non-null, in declared order. */
  function BeanMembers(opts: Options, fields: seq<Field>, depth: nat): (r: Result<seq<string>>)
    requires forall i :: 0 <= i < |fields| ==> Described(fields[i].val)
    ensures r.Success? ==> |r.value| == |NonNullFields(fields)|
    decreases fields
  {
    if fields == [] then Success([])
    else if fields[0].val == VNull then BeanMembers(opts, fields[1..], depth)
    else
      assert fields[0] in fields;
      var val :- ConvertToString(opts, fields[0].val, depth);
      var rest :- BeanMembers(opts, fields[1..], depth);
      Success([Escape(fields[0].name) + ":" + val] + rest)
  }

  /** The entries of a map that are printed: those whose value is not null. */
  function NonNullEntries(entries: seq<Entry>): seq<Entry>
  {
    if entries == [] then []
    else (if entries[0].val == VNull then [] else [entries[0]]) + NonNullEntries(entries[1..])
  }

  /** The properties of a bean that are printed: those whose value is not null. */
  function NonNullFields(fields: seq<Field>): seq<Field>
  {
    if fields == [] then []
    else (if fields[0].val == VNull then [] else [fields[0]]) + NonNullFields(fields[1..])
  }

  // ---------------------------------------------------------------------
  // arrayToString and the object printer, as written
  // ---------------------------------------------------------------------

  /** Every part followed by `sep`, concatenated (the `s += part + sep` loops). */
  function Terminated(parts: seq<string>, sep: string): (r: string)
    ensures |parts| > 0 ==> |r| >= |sep|
  {
    if parts == [] then "" else parts[0] + sep + Terminated(parts[1..], sep)
  }

  /** `arrayToString`: each element followed by a comma; when there was at
      least one element, the last character is cut off; then brackets. */
  function ArrayText(items: seq<string>): string {
    var s := Terminated(items, ",");
    "[" + (if |items| > 0 then s[..|s| - 1] else s) + "]"
  }

  /** The body of `objectToString` after the members: when the member text is
      longer than one character, the last separator (`,` or `,` and newline)
      is cut off and the text is wrapped in braces with the closing brace at
      the object's indent; otherwise the object prints as nothing. */
  function ObjectText(opts: Options, members: seq<string>, depth: nat): string {
    var el := if opts.formatted then "\n" else "";
    var d0 := if opts.formatted then Indent(depth) else "";
    var d1 := if opts.formatted then Indent(depth + 1) else "";
    var s := Terminated(Prefixed(d1, members), "," + el);
    if |s| > 1 then "{" + el + s[..|s| - (if opts.formatted then 2 else 1)] + el + d0 + "}" else ""
  }

  function Prefixed(prefix: string, parts: seq<string>): (r: seq<string>)
    ensures |r| == |parts|
    ensures forall i {:trigger r[i]} :: 0 <= i < |r| ==> r[i] == prefix + parts[i]
  {
    if parts == [] then [] else [prefix + parts[0]] + Prefixed(prefix, parts[1..])
  }

  /** `encode(value)`: the value at depth 0. */
  function Encode(opts: Options, v: Value): (r: Result<string>)
    requires Described(v)
  {
    ConvertToString(opts, v, 0)
  }
}
