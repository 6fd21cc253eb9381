/** The reflection layer the engine consults (`os.utils.Types`), replaced by
    two immutable datatypes: `TypeDesc`, what the layer reports about a Java
    class, and `Value`, the Java objects the decoder builds and the encoder
    reads. The layer's operations the engine calls (`newInstance`,
    `getProperties`, `invokeGetter`/`invokeSetter`, `Map.put`, `Set.add`) are
    pure functions here. */
module Types {
  import opened Results
  import opened Chars

  /** A Java class as the type layer describes it. `NoClass` is the `null`
      class reference a caller passes when it has no target type. */
  datatype TypeDesc =
    | NoClass
    | DoubleType
    | IntegerType
    | LongType
    | StringType
    | BooleanType
    | ListType(cls: string, elem: TypeDesc)
    | SetType(cls: string, elem: TypeDesc)
    | MapType(cls: string, key: TypeDesc, val: TypeDesc)
    | BeanType(cls: string, props: seq<Property>)
    | EnumType(cls: string, constants: seq<string>)
    | DecodableType(cls: string)
    | OtherType(cls: string)

  /** A declared bean property: its name and the type of its setter argument. */
  datatype Property = Property(name: string, typ: TypeDesc)

  /** The raw object a bean is seeded from by `newInstance(data)`: the
      token's `String` or `Boolean` payload, or a map key. */
  datatype Raw = RawText(text: string) | RawBool(b: bool)

  /** Java objects, by runtime class. Containers keep their elements in
      iteration order; a bean keeps one field per declared property, in
      declared order. */
  datatype Value =
    | VNull
    | VStr(s: string)
    | VBool(b: bool)
    | VDouble(text: string)            // java.lang.Double, kept as its decimal text
    | VInt(i: int)                     // java.lang.Integer
    | VLong(i: int)                    // java.lang.Long
    | VEnum(cls: string, name: string) // an enum constant
    | VList(cls: string, elems: seq<Value>)
    | VSet(cls: string, elems: seq<Value>)
    | VMap(cls: string, entries: seq<Entry>)
    | VBean(cls: string, fields: seq<Field>)
    | VSeeded(cls: string, seed: Raw)            // bean built by newInstance(data)
    | VDecoded(cls: string, raw: Option<string>) // JsonDecodable instance, fed raw text if Some
    | VDescriptor(desc: TypeDesc)                // the Types.Type object itself
    | VInstance(desc: TypeDesc)                  // fresh instance of a class that is no container nor bean
    | VClass(name: string)                       // a java.lang.Class
    | VDate(millis: int)                         // a java.util.Date
    | VUuid(text: string)                        // a java.util.UUID, by its toString
    | VSimple(cls: string, text: string)         // an object the type layer calls simple, by its toString
    | VEncodable(cls: string, json: string)      // a JsonEncodable object and what encodeJson returns

  datatype Entry = Entry(key: Value, val: Value)

  datatype Field = Field(name: string, val: Value)

  /** `Types.getType(cls)`: the class itself, or, for the `null` class, the
      descriptor `untyped` the type layer answers with. */
  function Shape(untyped: TypeDesc, t: TypeDesc): (r: TypeDesc)
    ensures t != NoClass ==> r == t
    ensures t == NoClass ==> r == untyped
  {
    if t == NoClass then untyped else t
  }

  function FreshFields(props: seq<Property>): (r: seq<Field>)
    ensures |r| == |props|
    ensures forall i {:trigger r[i]} :: 0 <= i < |r| ==> r[i] == Field(props[i].name, VNull)
  {
    if props == [] then [] else [Field(props[0].name, VNull)] + FreshFields(props[1..])
  }

  /** `type.newInstance()`: an empty container, a bean whose properties are
      all unset, or an instance of some other class. */
  function NewInstance(t: TypeDesc): (r: Value)
    ensures t.ListType? ==> r == VList(t.cls, [])
    ensures t.SetType? ==> r == VSet(t.cls, [])
    ensures t.MapType? ==> r == VMap(t.cls, [])
    ensures t.BeanType? ==> r.VBean? && r.cls == t.cls && |r.fields| == |t.props|
    ensures t.BeanType? ==> forall i {:trigger r.fields[i]} :: 0 <= i < |r.fields| ==> r.fields[i] == Field(t.props[i].name, VNull)
  {
    match t
    case ListType(c, _) => VList(c, [])
    case SetType(c, _) => VSet(c, [])
    case MapType(c, _, _) => VMap(c, [])
    case BeanType(c, props) => VBean(c, FreshFields(props))
    case DecodableType(c) => VDecoded(c, None)
    case _ => VInstance(t)
  }

  /** Index of the first enum constant, in declared order from `from`, whose
      upper-cased name equals the upper-cased text. */
  function FindConstant(constants: seq<string>, text: string, from: nat): (r: Option<nat>)
    ensures r.Some? ==> from <= r.value < |constants| && UpperString(constants[r.value]) == UpperString(text)
    ensures r.Some? ==> forall j :: from <= j < r.value ==> UpperString(constants[j]) != UpperString(text)
    ensures r.None? <==> forall j :: from <= j < |constants| ==> UpperString(constants[j]) != UpperString(text)
    decreases |constants| - from
  {
    if from >= |constants| then None
    else if UpperString(constants[from]) == UpperString(text) then Some(from)
    else FindConstant(constants, text, from + 1)
  }

  /** `toEnum(data, type)` (both copies, in the token and in the decoder):
      the matching constant, or `null` when none matches. */
  function ToEnum(cls: string, constants: seq<string>, text: string): (r: Value)
    ensures r.VEnum? || r == VNull
    ensures r.VEnum? ==> r.cls == cls && r.name in constants
  {
    match FindConstant(constants, text, 0)
    case Some(i) => VEnum(cls, constants[i])
    case None => VNull
  }

  /** `Map.get`: the value stored under key `k`. */
  function Lookup(entries: seq<Entry>, k: Value): Option<Value> {
    if entries == [] then None
    else if entries[0].key == k then Some(entries[0].val)
    else Lookup(entries[1..], k)
  }

  function Keys(entries: seq<Entry>): (r: seq<Value>)
    ensures |r| == |entries|
    ensures forall i {:trigger r[i]} :: 0 <= i < |r| ==> r[i] == entries[i].key
  {
    if entries == [] then [] else [entries[0].key] + Keys(entries[1..])
  }

  /** The key of the `i`-th entry. */
  function KeyAt(entries: seq<Entry>, i: nat): Value
    requires i < |entries|
  {
    entries[i].key
  }

  /** No key occurs twice. */
  predicate DistinctKeys(entries: seq<Entry>) {
    forall i, j :: 0 <= i < j < |entries| ==> KeyAt(entries, i) != KeyAt(entries, j)
  }

  /** `Map.put(k, v)`: a later put of an existing key overwrites its value in
      place; a new key is added after the existing ones. */
  function Put(entries: seq<Entry>, k: Value, v: Value): (r: seq<Entry>)
    ensures Lookup(r, k) == Some(v)
    ensures forall k' {:trigger Lookup(r, k')} :: k' != k ==> Lookup(r, k') == Lookup(entries, k')
  {
    if entries == [] then [Entry(k, v)]
    else if entries[0].key == k then [Entry(k, v)] + entries[1..]
    else [entries[0]] + Put(entries[1..], k, v)
  }

  /** A put of a key already present keeps the keys as they are; a put of a
      new key appends it to them. */
  lemma {:induction false} PutKeys(entries: seq<Entry>, k: Value, v: Value)
    ensures k in Keys(entries) ==> Keys(Put(entries, k, v)) == Keys(entries)
    ensures k !in Keys(entries) ==> Keys(Put(entries, k, v)) == Keys(entries) + [k]
    decreases |entries|
  {
    if entries != [] && entries[0].key != k {
      PutKeys(entries[1..], k, v);
      assert Keys(entries) == [entries[0].key] + Keys(entries[1..]);
      assert Keys(Put(entries, k, v)) == [entries[0].key] + Keys(Put(entries[1..], k, v));
    }
  }

  /** A put keeps the keys distinct. */
  lemma PutKeepsDistinct(entries: seq<Entry>, k: Value, v: Value)
    requires DistinctKeys(entries)
    ensures DistinctKeys(Put(entries, k, v))
  {
    var r := Put(entries, k, v);
    var ks := Keys(entries);
    PutKeys(entries, k, v);
    forall i, j | 0 <= i < j < |r|
      ensures KeyAt(r, i) != KeyAt(r, j)
    {
      assert KeyAt(r, i) == Keys(r)[i] && KeyAt(r, j) == Keys(r)[j];
      if j < |entries| {
        assert KeyAt(entries, i) != KeyAt(entries, j);
      } else {
        assert ks[i] in ks;
      }
    }
  }

  /** `Set.add(v)`: adds `v` unless an equal element is already present. */
  function Add(elems: seq<Value>, v: Value): (r: seq<Value>)
    ensures v in r
    ensures forall x :: x in r <==> x in elems || x == v
    ensures v in elems ==> r == elems
    ensures v !in elems ==> r == elems + [v]
  {
    if v in elems then elems else elems + [v]
  }

  function FieldNames(fields: seq<Field>): (r: seq<string>)
    ensures |r| == |fields|
    ensures forall i {:trigger r[i]} :: 0 <= i < |r| ==> r[i] == fields[i].name
  {
    if fields == [] then [] else [fields[0].name] + FieldNames(fields[1..])
  }

  /** `property.invokeSetter(o, v)`: the field named `name` takes value `v`;
      every other field and the declared order are unchanged. */
  function SetField(fields: seq<Field>, name: string, v: Value): (r: seq<Field>)
    ensures |r| == |fields|
    ensures FieldNames(r) == FieldNames(fields)
    ensures forall i {:trigger r[i]} :: 0 <= i < |r| ==>
      r[i] == (if fields[i].name == name then Field(name, v) else fields[i])
  {
    if fields == [] then []
    else [if fields[0].name == name then Field(name, v) else fields[0]] + SetField(fields[1..], name, v)
  }

  /** The declared property named `name`, if any (`getProperties().get(k)`). */
  function FindProperty(props: seq<Property>, name: string): (r: Option<Property>)
    ensures r.Some? ==> r.value in props && r.value.name == name
    ensures r.None? <==> forall i :: 0 <= i < |props| ==> props[i].name != name
  {
    if props == [] then None
    else if props[0].name == name then Some(props[0])
    else FindProperty(props[1..], name)
  }
}
