/** Properties of the encoder: the printers against a plain join of their
    parts, which values encode at all, the type-name comment every non-null
    value ends with, and the members a map or bean contributes. */
module EncoderFacts {
  import opened Results
  import opened Chars
  import opened Types
  import opened JsonEncoder

  // ---------------------------------------------------------------------
  // Joining
  // ---------------------------------------------------------------------

  /** The parts with `sep` between consecutive ones. */
  function Join(parts: seq<string>, sep: string): string {
    if parts == [] then ""
    else if |parts| == 1 then parts[0]
    else parts[0] + sep + Join(parts[1..], sep)
  }

  /** Terminating every part is joining them and terminating the last. */
  lemma {:induction false} TerminatedJoin(parts: seq<string>, sep: string)
    requires parts != []
    ensures Terminated(parts, sep) == Join(parts, sep) + sep
    decreases |parts|
  {
    if |parts| > 1 {
      TerminatedJoin(parts[1..], sep);
    } else {
      assert parts[1..] == [];
    }
  }

  lemma {:induction false} JoinLength(parts: seq<string>, sep: string)
    requires parts != []
    ensures |Join(parts, sep)| >= |parts[0]|
    decreases |parts|
  {
  }

  /** `arrayToString` writes the elements separated by commas, in brackets;
      cutting the last comma off the terminated list is exactly that. */
  lemma ArrayTextJoin(items: seq<string>)
    ensures ArrayText(items) == "[" + Join(items, ",") + "]"
  {
    if items != [] {
      TerminatedJoin(items, ",");
      var s := Terminated(items, ",");
      assert s[..|s| - 1] == Join(items, ",");
    }
  }

  /** The object printer writes the members separated by commas (and a
      newline when formatted), each after the inner indent, in braces with
      the closing brace at the object's indent; without members an object
      prints as nothing. */
  lemma ObjectTextJoin(opts: Options, members: seq<string>, depth: nat)
    requires forall i :: 0 <= i < |members| ==> |members[i]| >= 1
    ensures members == [] ==> ObjectText(opts, members, depth) == ""
    ensures members != [] ==>
              var el := if opts.formatted then "\n" else "";
              var d0 := if opts.formatted then Indent(depth) else "";
              var d1 := if opts.formatted then Indent(depth + 1) else "";
              ObjectText(opts, members, depth) == "{" + el + Join(Prefixed(d1, members), "," + el) + el + d0 + "}"
  {
    if members != [] {
      var el := if opts.formatted then "\n" else "";
      var d1 := if opts.formatted then Indent(depth + 1) else "";
      var ps := Prefixed(d1, members);
      var sep := "," + el;
      TerminatedJoin(ps, sep);
      JoinLength(ps, sep);
      var s := Terminated(ps, sep);
      assert |s| > 1;
      assert s[..|s| - |sep|] == Join(ps, sep);
    }
  }

  // ---------------------------------------------------------------------
  // Which values encode
  // ---------------------------------------------------------------------

  /** No map inside `v` has a `null` key under a non-null value. */
  predicate KeysPresent(v: Value)
    decreases v
  {
    match v
    case VList(_, es) => forall i :: 0 <= i < |es| ==> KeysPresent(es[i])
    case VSet(_, es) => forall i :: 0 <= i < |es| ==> KeysPresent(es[i])
    case VMap(_, entries) =>
      forall i :: 0 <= i < |entries| ==>
        entries[i].val != VNull ==> entries[i].key != VNull && KeysPresent(entries[i].val)
    case VBean(_, fields) => forall i :: 0 <= i < |fields| ==> KeysPresent(fields[i].val)
    case _ => true
  }

  /** Encoding fails, with `NullPointerException`, exactly when some map in
      the value has a `null` key under a non-null value. */
  lemma {:induction false} EncodeSucceeds(opts: Options, v: Value, depth: nat)
    requires Described(v)
    ensures ConvertToString(opts, v, depth).Success? <==> KeysPresent(v)
    ensures ConvertToString(opts, v, depth).Failure? ==> ConvertToString(opts, v, depth).error == NullPointer
    decreases v, 1
  {
    match v
    case VList(_, es) => ItemsSucceed(opts, v, es, depth);
    case VSet(_, es) => ItemsSucceed(opts, v, es, depth);
    case VMap(_, entries) => MapMembersSucceed(opts, v, entries, depth + 1);
    case VBean(_, fields) => BeanMembersSucceed(opts, v, fields, depth + 1);
    case _ =>
  }

  lemma {:induction false} ItemsSucceed(opts: Options, v: Value, es: seq<Value>, depth: nat)
    requires (v.VList? || v.VSet?) && forall i :: 0 <= i < |es| ==> es[i] in v.elems
    requires forall i :: 0 <= i < |es| ==> Described(es[i])
    ensures Items(opts, es, depth).Success? <==> forall i :: 0 <= i < |es| ==> KeysPresent(es[i])
    ensures Items(opts, es, depth).Failure? ==> Items(opts, es, depth).error == NullPointer
    decreases v, 0, |es|
  {
    if es != [] {
      assert es[0] in v.elems;
      EncodeSucceeds(opts, es[0], depth);
      ItemsSucceed(opts, v, es[1..], depth);
      assert forall i :: 1 <= i < |es| ==> es[i] == es[1..][i - 1];
    }
  }

  lemma {:induction false} MapMembersSucceed(opts: Options, v: Value, entries: seq<Entry>, depth: nat)
    requires v.VMap? && forall i :: 0 <= i < |entries| ==> entries[i] in v.entries
    requires forall i :: 0 <= i < |entries| ==>
      Described(entries[i].val) && (entries[i].val != VNull ==> KeyDescribed(entries[i].key))
    ensures MapMembers(opts, entries, depth).Success? <==>
              forall i :: 0 <= i < |entries| ==>
                entries[i].val != VNull ==> entries[i].key != VNull && KeysPresent(entries[i].val)
    ensures MapMembers(opts, entries, depth).Failure? ==> MapMembers(opts, entries, depth).error == NullPointer
    decreases v, 0, |entries|
  {
    if entries != [] {
      MapMembersSucceed(opts, v, entries[1..], depth);
      assert forall i :: 1 <= i < |entries| ==> entries[i] == entries[1..][i - 1];
      var e := entries[0];
      if e.val != VNull {
        assert e in v.entries;
        EncodeSucceeds(opts, e.val, depth);
      }
    }
  }

  lemma {:induction false} BeanMembersSucceed(opts: Options, v: Value, fields: seq<Field>, depth: nat)
    requires v.VBean? && forall i :: 0 <= i < |fields| ==> fields[i] in v.fields
    requires forall i :: 0 <= i < |fields| ==> Described(fields[i].val)
    ensures BeanMembers(opts, fields, depth).Success? <==> forall i :: 0 <= i < |fields| ==> KeysPresent(fields[i].val)
    ensures BeanMembers(opts, fields, depth).Failure? ==> BeanMembers(opts, fields, depth).error == NullPointer
    decreases v, 0, |fields|
  {
    if fields != [] {
      BeanMembersSucceed(opts, v, fields[1..], depth);
      assert forall i :: 1 <= i < |fields| ==> fields[i] == fields[1..][i - 1];
      if fields[0].val != VNull {
        assert fields[0] in v.fields;
        EncodeSucceeds(opts, fields[0].val, depth);
      }
    }
  }

  // ---------------------------------------------------------------------
  // The type-name comment
  // ---------------------------------------------------------------------

  /** `value.getClass().getSimpleName()`. */
  function SimpleName(v: Value): string {
    match v
    case VStr(_) => "String"
    case VDouble(_) => "Double"
    case VInt(_) => "Integer"
    case VLong(_) => "Long"
    case VClass(_) => "Class"
    case VBool(_) => "Boolean"
    case VDate(_) => "Date"
    case VUuid(_) => "UUID"
    case VEnum(c, _) => c
    case VList(c, _) => c
    case VSet(c, _) => c
    case VMap(c, _) => c
    case VBean(c, _) => c
    case VSimple(c, _) => c
    case VEncodable(c, _) => c
    case _ => ""
  }

  /** Every non-null value's text ends with the comment naming its class,
      and `null` prints as `null` without one. */
  lemma CommentSuffix(opts: Options, v: Value, depth: nat)
    requires Described(v)
    ensures v == VNull ==> ConvertToString(opts, v, depth) == Success("null")
    ensures v != VNull && ConvertToString(opts, v, depth).Success? ==>
              var r := ConvertToString(opts, v, depth).value;
              var c := Comment(opts, SimpleName(v));
              |c| <= |r| && r[|r| - |c|..] == c
  {
  }

  // ---------------------------------------------------------------------
  // Members
  // ---------------------------------------------------------------------

  /** `m` is what the map printer writes for entry `e`. */
  predicate IsEntryMember(opts: Options, e: Entry, depth: nat, m: string) {
    e.val != VNull && Described(e.val) && KeyDescribed(e.key) && EntryMember(opts, e, depth) == Success(m)
  }

  /** The member of an entry is its key text escaped, a colon, and the value. */
  lemma EntryMemberText(opts: Options, e: Entry, depth: nat, m: string)
    requires IsEntryMember(opts, e, depth, m)
    ensures KeyText(e.key).Success? && ConvertToString(opts, e.val, depth).Success?
    ensures m == Escape(KeyText(e.key).value) + ":" + ConvertToString(opts, e.val, depth).value
  {
  }

  /** A map contributes one member per entry with a non-null value, in
      iteration order. */
  lemma {:induction false} MapMembersAre(opts: Options, entries: seq<Entry>, depth: nat)
    requires forall i :: 0 <= i < |entries| ==>
      Described(entries[i].val) && (entries[i].val != VNull ==> KeyDescribed(entries[i].key))
    requires MapMembers(opts, entries, depth).Success?
    ensures var ms := MapMembers(opts, entries, depth).value;
      var nn := NonNullEntries(entries);
      |ms| == |nn| && forall i :: 0 <= i < |nn| ==> IsEntryMember(opts, nn[i], depth, ms[i])
    decreases |entries|
  {
    if entries != [] {
      var rest := entries[1..];
      assert forall i :: 0 <= i < |rest| ==> rest[i] == entries[i + 1];
      MapMembersAre(opts, rest, depth);
      var e := entries[0];
      var nn := NonNullEntries(entries);
      if e.val == VNull {
        assert nn == NonNullEntries(rest);
        assert MapMembers(opts, entries, depth) == MapMembers(opts, rest, depth);
      } else {
        var nr := NonNullEntries(rest);
        assert nn == [e] + nr;
        var m := EntryMember(opts, e, depth).value;
        var mr := MapMembers(opts, rest, depth).value;
        var ms := MapMembers(opts, entries, depth).value;
        assert ms == [m] + mr;
        forall i | 0 <= i < |nn|
          ensures IsEntryMember(opts, nn[i], depth, ms[i])
        {
          if i > 0 {
            assert nn[i] == nr[i - 1] && ms[i] == mr[i - 1];
          }
        }
      }
    }
  }

  /** A bean contributes one member per property whose value is not null,
      in declared order: the property name escaped, a colon, the value. */
  lemma {:induction false} BeanMembersAre(opts: Options, fields: seq<Field>, depth: nat)
    requires forall i :: 0 <= i < |fields| ==> Described(fields[i].val)
    requires BeanMembers(opts, fields, depth).Success?
    ensures var ms := BeanMembers(opts, fields, depth).value;
      var nn := NonNullFields(fields);
      |ms| == |nn| &&
      forall i :: 0 <= i < |nn| ==>
        nn[i].val != VNull && Described(nn[i].val) && ConvertToString(opts, nn[i].val, depth).Success? &&
        ms[i] == Escape(nn[i].name) + ":" + ConvertToString(opts, nn[i].val, depth).value
    decreases |fields|
  {
    if fields != [] {
      BeanMembersAre(opts, fields[1..], depth);
    }
  }

  /** The printed properties are exactly those whose value is not null. */
  lemma {:induction false} NonNullFieldsAre(fields: seq<Field>)
    ensures forall f :: f in NonNullFields(fields) <==> f in fields && f.val != VNull
    decreases |fields|
  {
    if fields != [] {
      NonNullFieldsAre(fields[1..]);
      assert fields == [fields[0]] + fields[1..];
    }
  }

  /** The printed entries are exactly those whose value is not null. */
  lemma {:induction false} NonNullEntriesAre(entries: seq<Entry>)
    ensures forall e :: e in NonNullEntries(entries) <==> e in entries && e.val != VNull
    decreases |entries|
  {
    if entries != [] {
      NonNullEntriesAre(entries[1..]);
      assert entries == [entries[0]] + entries[1..];
    }
  }
}
