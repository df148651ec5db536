/** Writing a value and reading it back. */
module JsonRoundTrip {
  import opened Bytes
  import opened Utf8
  import opened JsonString
  import opened JsonNumber
  import opened JsonTree
  import opened JsonTypes
  import opened JsonReader
  import opened JsonAgreement
  import opened JsonText
  import opened JsonLimits

  // --- What the compiler and the schema check guarantee of types --------------------------

  predicate EnumNamesUnique(es: seq<Enumerator>) {
    forall i, j | 0 <= i < j < |es| :: es[i].name != es[j].name
  }

  predicate TypeOk(ty: Ty) {
    match ty
    case EnumTy(es) => EnumNamesUnique(es)
    case OptionalTy(of) => TypeOk(of)
    case VectorTy(of) => TypeOk(of)
    case ArrayTy(of, _) => TypeOk(of)
    case _ => true
  }

  predicate FieldsOk(fields: seq<Field>) {
    NamesUnique(fields) && forall k | 0 <= k < |fields| :: TypeOk(fields[k].ty)
  }

  predicate SchemaOk(schema: Schema) {
    forall name | name in schema :: FieldsOk(schema[name])
  }

  lemma SchemaFields(schema: Schema, name: string)
    requires SchemaOk(schema)
    ensures FieldsOk(FieldsOf(schema, name))
  {
  }

  // --- Values that survive ----------------------------------------------------------------

  /** Printed as null. */
  predicate NullLike(v: Val) {
    v.NoneVal? || (v.SomeVal? && NullLike(v.inner))
  }

  /**
   No engaged optional wraps something printed as null, no borrowed string needs an escape, and every field obeys
   its constraints.
   A caller can check this of a value before writing it.
   */
  predicate Stable(schema: Schema, ty: Ty, v: Val)
    requires HasType(schema, ty, v)
    decreases v, ty
  {
    match ty
    case ViewTy => PrintsRaw(v.bytes)
    case OptionalTy(of) => v.NoneVal? || (!NullLike(v.inner) && Stable(schema, of, v.inner))
    case VectorTy(of) => AllStable(schema, of, v.items)
    case ArrayTy(of, _) => AllStable(schema, of, v.items)
    case ObjectTy(name) => FieldsStable(schema, FieldsOf(schema, name), v.fields)
    case _ => true
  }

  predicate AllStable(schema: Schema, of: Ty, vs: seq<Val>)
    requires HaveType(schema, of, vs)
    decreases vs
  {
    vs == [] || (Stable(schema, of, vs[0]) && AllStable(schema, of, vs[1..]))
  }

  predicate FieldsStable(schema: Schema, fields: seq<Field>, vs: seq<Val>)
    requires FieldsHaveTypes(schema, fields, vs)
    decreases vs
  {
    vs == [] ||
    (&& Stable(schema, fields[0].ty, vs[0]) && SatisfiesAll(vs[0], fields[0].constraints)
     && FieldsStable(schema, fields[1..], vs[1..]))
  }

  // --- The meaning of a printed value -----------------------------------------------------

  lemma {:induction false} EnumNamed(es: seq<Enumerator>, value: int) returns (k: nat)
    requires EnumName(es, value).Some?
    ensures k < |es| && es[k].name == EnumName(es, value).value && es[k].value == value
  {
    if es[0].value == value {
      k := 0;
    } else {
      var j := EnumNamed(es[1..], value);
      k := j + 1;
    }
  }

  lemma {:induction false} EnumFound(es: seq<Enumerator>, k: nat)
    requires EnumNamesUnique(es) && k < |es|
    ensures EnumValue(es, es[k].name) == Some(es[k].value)
  {
    if k > 0 {
      assert es[0].name != es[k].name;
      EnumFound(es[1..], k - 1);
    }
  }

  lemma EnumRoundTrip(es: seq<Enumerator>, value: int)
    requires EnumNamesUnique(es) && EnumName(es, value).Some?
    ensures EnumValue(es, EnumName(es, value).value) == Some(value)
  {
    var k := EnumNamed(es, value);
    EnumFound(es, k);
  }

  lemma {:induction false} NullTreeIffNullLike(schema: Schema, ty: Ty, v: Val)
    requires HasType(schema, ty, v) && Writable(schema, ty, v)
    ensures TreeOf(schema, ty, v).NullTree? <==> NullLike(v)
    decreases v, ty
  {
    if ty.OptionalTy? && v.SomeVal? {
      NullTreeIffNullLike(schema, ty.of, v.inner);
    }
  }

  lemma DecodedPrinted(b: seq<Byte>)
    ensures Decoded(PiecesOf(b)) == b
  {
    PrintedUnits(b);
  }

  /** The tree of a printed value means that value exactly when the value is stable. */
  lemma {:induction false} MeaningOfPrinted(schema: Schema, reject: bool, ty: Ty, v: Val)
    requires SchemaOk(schema) && TypeOk(ty) && HasType(schema, ty, v) && Writable(schema, ty, v)
    ensures Interp(schema, reject, ty, TreeOf(schema, ty, v)) == Some(v) <==> Stable(schema, ty, v)
    decreases v, ty
  {
    match ty
    case StringTy => DecodedPrinted(v.bytes);
    case ViewTy =>
      DecodedPrinted(v.bytes);
      PrintedRaw(v.bytes);
    case BoolTy =>
    case IntTy(lo, hi) => PrintedInteger(v.number, lo, hi);
    case EnumTy(es) =>
      EnumRoundTrip(es, v.constant);
      DecodedPrinted(EnumName(es, v.constant).value);
    case OptionalTy(of) =>
      NullTreeIffNullLike(schema, ty, v);
      if v.SomeVal? {
        MeaningOfPrinted(schema, reject, of, v.inner);
      }
    case VectorTy(of) => MeaningOfPrintedItems(schema, reject, of, v.items);
    case ArrayTy(of, _) => MeaningOfPrintedItems(schema, reject, of, v.items);
    case ObjectTy(name) => MeaningOfPrintedObject(schema, reject, name, v.fields);
  }

  lemma {:induction false} MeaningOfPrintedItems(schema: Schema, reject: bool, of: Ty, vs: seq<Val>)
    requires SchemaOk(schema) && TypeOk(of) && HaveType(schema, of, vs) && AllWritable(schema, of, vs)
    ensures InterpElements(schema, reject, of, TreesOf(schema, of, vs)) == Some(vs) <==> AllStable(schema, of, vs)
    decreases vs
  {
    hide Interp, TreeOf, Stable, SchemaOk, TypeOk;
    if vs != [] {
      var e, rest := Element([], TreeOf(schema, of, vs[0]), []), TreesOf(schema, of, vs[1..]);
      MeaningOfPrinted(schema, reject, of, vs[0]);
      MeaningOfPrintedItems(schema, reject, of, vs[1..]);
      InterpElementsCons(schema, reject, of, e, rest);
      var v, w := Interp(schema, reject, of, e.value), InterpElements(schema, reject, of, rest);
      if v.Some? && w.Some? {
        Cons(v.value, w.value);
        assert vs == [vs[0]] + vs[1..];
      }
    }
  }

  // --- Objects ----------------------------------------------------------------------------

  /** Slots holding the first `k` values. */
  function Filled(vs: seq<Val>, k: nat): (slots: Slots)
    requires k <= |vs|
    ensures |slots| == |vs|
    ensures forall i | 0 <= i < |vs| :: slots[i] == if i < k then Some(vs[i]) else None
  {
    seq(|vs|, i requires 0 <= i < |vs| => if i < k then Some(vs[i]) else None)
  }

  lemma {:induction false} FieldsFrom(schema: Schema, fields: seq<Field>, vs: seq<Val>, k: nat)
    requires FieldsHaveTypes(schema, fields, vs) && k <= |vs|
    ensures FieldsHaveTypes(schema, fields[k..], vs[k..])
    ensures FieldsWritable(schema, fields, vs) ==> FieldsWritable(schema, fields[k..], vs[k..])
    decreases k
  {
    if k == 0 {
      assert fields[0..] == fields && vs[0..] == vs;
    } else {
      FieldsFrom(schema, fields[1..], vs[1..], k - 1);
      assert fields[1..][k - 1..] == fields[k..] && vs[1..][k - 1..] == vs[k..];
    }
  }

  lemma {:induction false} KeepSlot(
    schema: Schema, reject: bool, fields: seq<Field>, ms: seq<Member>, slots: Slots, k: nat)
    requires |slots| == |fields| && k < |slots| && slots[k].Some?
    ensures var r := InterpMembers(schema, reject, fields, ms, slots); r.Some? ==> r.value[k] == slots[k]
    decreases ms
  {
    hide Interp, SatisfiesAll;
    if ms != [] {
      var next := InterpMember(schema, reject, fields, ms[0], slots);
      if next.Some? {
        KeepSlot(schema, reject, fields, ms[1..], next.value, k);
      }
    }
  }

  /** The members printed for the fields from `k` on. */
  function PrintedFrom(schema: Schema, fields: seq<Field>, vs: seq<Val>, k: nat): seq<Member>
    requires FieldsHaveTypes(schema, fields, vs) && k <= |vs|
  {
    FieldsFrom(schema, fields, vs, k);
    MembersOf(schema, fields[k..], vs[k..])
  }

  lemma PrintedFromStep(schema: Schema, fields: seq<Field>, vs: seq<Val>, k: nat)
    requires FieldsHaveTypes(schema, fields, vs) && k < |vs|
    ensures HasType(schema, fields[k].ty, vs[k])
    ensures PrintedFrom(schema, fields, vs, k)
            == [Member([], PiecesOf(fields[k].wire), [], [], TreeOf(schema, fields[k].ty, vs[k]), [])]
               + PrintedFrom(schema, fields, vs, k + 1)
  {
    hide TreeOf;
    FieldsFrom(schema, fields, vs, k);
    FieldsFrom(schema, fields, vs, k + 1);
    assert fields[k..][1..] == fields[k + 1..] && vs[k..][1..] == vs[k + 1..];
  }

  /** What the member of field `k` does to the slots. */
  lemma PrintedMember(schema: Schema, reject: bool, fields: seq<Field>, vs: seq<Val>, k: nat, slots: Slots)
    requires FieldsOk(fields) && FieldsHaveTypes(schema, fields, vs) && k < |vs| && |slots| == |fields|
    ensures HasType(schema, fields[k].ty, vs[k])
    ensures var m := Member([], PiecesOf(fields[k].wire), [], [], TreeOf(schema, fields[k].ty, vs[k]), []);
            var v := Interp(schema, reject, fields[k].ty, m.value);
            InterpMember(schema, reject, fields, m, slots)
            == if slots[k].Some? || v.None? || !SatisfiesAll(v.value, fields[k].constraints) then None
               else Some(slots[k := Some(v.value)])
  {
    hide Interp, TreeOf, SatisfiesAll;
    PrintedFromStep(schema, fields, vs, k);
    DecodedPrinted(fields[k].wire);
    FieldIndexOf(fields, k);
  }

  lemma {:induction false} PrintedMembersFill(
    schema: Schema, reject: bool, fields: seq<Field>, vs: seq<Val>, k: nat, slots: Slots)
    requires FieldsOk(fields) && FieldsHaveTypes(schema, fields, vs) && k <= |vs| && |slots| == |fields|
    requires forall j | 0 <= j < k :: slots[j].Some?
    ensures var r := InterpMembers(schema, reject, fields, PrintedFrom(schema, fields, vs, k), slots);
            r.Some? ==> forall j | 0 <= j < |r.value| :: r.value[j].Some?
    decreases |vs| - k
  {
    hide Interp, TreeOf, SatisfiesAll, InterpMember, FieldsOk;
    if k < |vs| {
      PrintedFromStep(schema, fields, vs, k);
      PrintedMember(schema, reject, fields, vs, k, slots);
      var m := Member([], PiecesOf(fields[k].wire), [], [], TreeOf(schema, fields[k].ty, vs[k]), []);
      InterpMembersCons(schema, reject, fields, m, PrintedFrom(schema, fields, vs, k + 1), slots);
      var next := InterpMember(schema, reject, fields, m, slots);
      if next.Some? {
        PrintedMembersFill(schema, reject, fields, vs, k + 1, next.value);
      }
    }
  }

  /** Stability of the fields from `k` on. */
  predicate StableFrom(schema: Schema, fields: seq<Field>, vs: seq<Val>, k: nat)
    requires FieldsHaveTypes(schema, fields, vs) && k <= |vs|
  {
    FieldsFrom(schema, fields, vs, k);
    FieldsStable(schema, fields[k..], vs[k..])
  }

  lemma StableFromStep(schema: Schema, fields: seq<Field>, vs: seq<Val>, k: nat)
    requires FieldsHaveTypes(schema, fields, vs) && k < |vs|
    ensures HasType(schema, fields[k].ty, vs[k])
    ensures StableFrom(schema, fields, vs, k) <==>
            && Stable(schema, fields[k].ty, vs[k]) && SatisfiesAll(vs[k], fields[k].constraints)
            && StableFrom(schema, fields, vs, k + 1)
  {
    hide Stable, SatisfiesAll;
    FieldsFrom(schema, fields, vs, k);
    FieldsFrom(schema, fields, vs, k + 1);
    assert fields[k..][1..] == fields[k + 1..] && vs[k..][1..] == vs[k + 1..];
  }

  lemma WritableAt(schema: Schema, fields: seq<Field>, vs: seq<Val>, k: nat)
    requires FieldsHaveTypes(schema, fields, vs) && FieldsWritable(schema, fields, vs) && k < |vs|
    ensures HasType(schema, fields[k].ty, vs[k]) && Writable(schema, fields[k].ty, vs[k])
  {
    FieldsFrom(schema, fields, vs, k);
  }

  lemma {:induction false} PrintedMembersMeaning(
    schema: Schema, reject: bool, fields: seq<Field>, vs: seq<Val>, k: nat)
    requires SchemaOk(schema) && FieldsOk(fields)
    requires FieldsHaveTypes(schema, fields, vs) && FieldsWritable(schema, fields, vs) && k <= |vs|
    ensures InterpMembers(schema, reject, fields, PrintedFrom(schema, fields, vs, k), Filled(vs, k))
            == Some(Filled(vs, |vs|))
            <==> StableFrom(schema, fields, vs, k)
    decreases vs, |vs| - k
  {
    if k == |vs| {
      assert fields[k..] == [] && vs[k..] == [];
    } else {
      PrintedMembersStep(schema, reject, fields, vs, k);
    }
  }

  lemma {:induction false} PrintedMembersStep(
    schema: Schema, reject: bool, fields: seq<Field>, vs: seq<Val>, k: nat)
    requires SchemaOk(schema) && FieldsOk(fields)
    requires FieldsHaveTypes(schema, fields, vs) && FieldsWritable(schema, fields, vs) && k < |vs|
    ensures InterpMembers(schema, reject, fields, PrintedFrom(schema, fields, vs, k), Filled(vs, k))
            == Some(Filled(vs, |vs|))
            <==> StableFrom(schema, fields, vs, k)
    decreases vs, |vs| - k, 0
  {
    hide Interp, TreeOf, SatisfiesAll, InterpMember, SchemaOk, Stable, StableFrom, PrintedFrom;
    var slots := Filled(vs, k);
    PrintedFromStep(schema, fields, vs, k);
    PrintedMember(schema, reject, fields, vs, k, slots);
    StableFromStep(schema, fields, vs, k);
    WritableAt(schema, fields, vs, k);
    MeaningOfPrinted(schema, reject, fields[k].ty, vs[k]);
    var m := Member([], PiecesOf(fields[k].wire), [], [], TreeOf(schema, fields[k].ty, vs[k]), []);
    var rest := PrintedFrom(schema, fields, vs, k + 1);
    InterpMembersCons(schema, reject, fields, m, rest, slots);
    var next := InterpMember(schema, reject, fields, m, slots);
    if next.Some? {
      KeepSlot(schema, reject, fields, rest, next.value, k);
      if next.value[k] == Some(vs[k]) {
        assert next.value == Filled(vs, k + 1);
        PrintedMembersMeaning(schema, reject, fields, vs, k + 1);
      }
    }
  }

  lemma FinishFilled(fields: seq<Field>, slots: Slots, vs: seq<Val>)
    requires |slots| == |fields| == |vs| && forall j | 0 <= j < |slots| :: slots[j].Some?
    ensures Finish(fields, slots) == Some(vs) <==> slots == Filled(vs, |vs|)
  {
    FinishedFields(fields, slots);
    var r := Finish(fields, slots);
    assert r.Some?;
    if r.value == vs {
      assert slots == Filled(vs, |vs|);
    }
    if slots == Filled(vs, |vs|) {
      assert r.value == vs;
    }
  }

  lemma {:induction false} MeaningOfPrintedObject(schema: Schema, reject: bool, name: string, vs: seq<Val>)
    requires SchemaOk(schema)
    requires FieldsHaveTypes(schema, FieldsOf(schema, name), vs) && FieldsWritable(schema, FieldsOf(schema, name), vs)
    ensures Interp(schema, reject, ObjectTy(name), ObjectTree([], MembersOf(schema, FieldsOf(schema, name), vs)))
            == Some(ObjectVal(vs))
            <==> FieldsStable(schema, FieldsOf(schema, name), vs)
    decreases vs, |vs| + 1
  {
    hide InterpMember, Finish, Stable, SatisfiesAll, TreeOf, Writable, FieldsOk;
    var fields := FieldsOf(schema, name);
    SchemaFields(schema, name);
    assert fields[0..] == fields && vs[0..] == vs;
    assert NoSlots(fields) == Filled(vs, 0);
    PrintedMembersMeaning(schema, reject, fields, vs, 0);
    PrintedMembersFill(schema, reject, fields, vs, 0, NoSlots(fields));
    var r := InterpMembers(schema, reject, fields, MembersOf(schema, fields, vs), NoSlots(fields));
    if r.Some? {
      FinishFilled(fields, r.value, vs);
    }
  }

  // --- The theorem ------------------------------------------------------------------------

  /**
   For every value that can be written: reading what was written gives back the value exactly when the value
   is stable, fits the limits, and its text is within the input limit.
   */
  lemma RoundTrip(limits: Limits, schema: Schema, ty: Ty, v: Val)
    requires SchemaOk(schema) && TypeOk(ty)
    requires HasType(schema, ty, v) && Writable(schema, ty, v)
    ensures Read(WriteText(schema, ty, v), limits, schema, ty) == Ok(v, |WriteText(schema, ty, v)|)
            <==> && Stable(schema, ty, v) && Fits(limits, schema, ty, v, 0)
                 && |WriteText(schema, ty, v)| <= limits.inputBytes
  {
    hide WriteText, TreeOf, Interp, Stable, Fits, Writable, HasType, ReadValue, TypeOk, SchemaOk, TreeOk, Text;
    var s := WriteText(schema, ty, v);
    var e := Element([], TreeOf(schema, ty, v), []);
    PrintedText(schema, ty, v);
    FittingTree(limits, schema, ty, v, 0);
    BareElement(e.value);
    MeaningOfPrinted(schema, limits.rejectUnknown, ty, v);
    if Read(s, limits, schema, ty) == Ok(v, |s|) {
      ReadHasTree(s, limits, schema, ty, v);
      AcceptedAsPrinted(limits, schema, ty, v, ParseElement(s, limits, 0, 0).value);
    } else if Stable(schema, ty, v) && Fits(limits, schema, ty, v, 0) && |s| <= limits.inputBytes {
      TreeIsRead(s, limits, schema, ty, e);
    }
  }

  /** A concrete value that is refused: a borrowed string that is printed with an escape. */
  lemma EscapedViewIsRefused(limits: Limits)
    requires limits.inputBytes >= 4 && limits.stringBytes >= 1
    ensures var v := StringVal([QUOTE]);
            && HasType(map[], ViewTy, v)
            && Read(WriteText(map[], ViewTy, v), limits, map[], ViewTy) == Err(EscapedBorrowedString, 4)
  {
    hide JsonString.ParseString, ValidUtf8;
    var s := WriteText(map[], ViewTy, StringVal([QUOTE]));
    var ps := PiecesOf([QUOTE]);
    assert [QUOTE][1..] == [];
    assert EscapedBody([QUOTE]) == [BACKSLASH, QUOTE] + [];
    assert |s| == 4 && s[0] == QUOTE;
    PrintedStringText([QUOTE]);
    PrintedUnits([QUOTE]);
    PrintedRaw([QUOTE]);
    AsciiIsValid([QUOTE]);
    assert s[0..|s|] == s;
    ParseStringComplete(s, limits, 0, ps);
    assert SkipBlank(s, 0) == 0 && !HasAt(s, 0, NULL_TEXT);
  }

  /** A concrete value that does not come back: an engaged optional around a disengaged one. */
  lemma NestedOptionalCollapses()
    ensures var ty := OptionalTy(OptionalTy(BoolTy));
            var v := SomeVal(NoneVal);
            var limits := Limits(4, 0, 0, 0, 0, true);
            && HasType(map[], ty, v)
            && Read(WriteText(map[], ty, v), limits, map[], ty) == Ok(NoneVal, 4)
  {
    var ty := OptionalTy(OptionalTy(BoolTy));
    var s := WriteText(map[], ty, SomeVal(NoneVal));
    assert s == NULL_TEXT;
    assert HasAt(s, 0, NULL_TEXT);
    assert SkipBlank(s, 0) == 0 && SkipBlank(s, 4) == 4;
  }
}
