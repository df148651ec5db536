/** Types whose members are all distinct, and texts that leave out no field. */
module JsonComplete {
  import opened Bytes
  import opened JsonTree
  import opened JsonTypes
  import opened JsonRoundTrip
  import opened JsonObjects

  // --- Types whose texts determine every member -------------------------------------------

  predicate EnumValuesUnique(es: seq<Enumerator>) {
    forall i, j | 0 <= i < j < |es| :: es[i].value != es[j].value
  }

  /** No two enumerators share a value. */
  predicate PlainType(ty: Ty) {
    match ty
    case EnumTy(es) => EnumNamesUnique(es) && EnumValuesUnique(es)
    case OptionalTy(of) => PlainType(of)
    case VectorTy(of) => PlainType(of)
    case ArrayTy(of, _) => PlainType(of)
    case _ => true
  }

  /** Every member must be present: no field is optional or has a default. */
  predicate PlainField(field: Field) {
    !field.ty.OptionalTy? && field.fallback.None? && PlainType(field.ty)
  }

  predicate PlainFields(fields: seq<Field>) {
    NamesUnique(fields) && forall k | 0 <= k < |fields| :: PlainField(fields[k])
  }

  predicate PlainSchema(schema: Schema) {
    forall name | name in schema :: PlainFields(schema[name])
  }

  /** Field names differ, and so do the names and the values of the enumerators of every enum. */
  predicate DistinctFields(fields: seq<Field>) {
    NamesUnique(fields) && forall k | 0 <= k < |fields| :: PlainType(fields[k].ty)
  }

  predicate DistinctSchema(schema: Schema) {
    forall name | name in schema :: DistinctFields(schema[name])
  }

  lemma PlainIsDistinct(schema: Schema)
    requires PlainSchema(schema)
    ensures DistinctSchema(schema)
  {
    forall name | name in schema ensures DistinctFields(schema[name]) {
      assert PlainFields(schema[name]);
      forall k | 0 <= k < |schema[name]| ensures PlainType(schema[name][k].ty) {
        assert PlainField(schema[name][k]);
      }
    }
  }

  // --- Texts that name every field --------------------------------------------------------

  /** Every field is named by some member. */
  predicate AllNamed(fields: seq<Field>, ms: seq<Member>) {
    forall k | 0 <= k < |fields| :: NamedBySome(fields, ms, k)
  }

  predicate NamedBySome(fields: seq<Field>, ms: seq<Member>, k: nat) {
    exists j | 0 <= j < |ms| :: Names(fields, ms, j, k)
  }

  /** No object of the tree, read at the type, leaves out a field. */
  predicate Complete(schema: Schema, ty: Ty, t: Tree)
    decreases t, ty
  {
    match ty
    case OptionalTy(of) => t.NullTree? || Complete(schema, of, t)
    case VectorTy(of) => t.ArrayTree? ==> ElementsComplete(schema, of, t.elements)
    case ArrayTy(of, _) => t.ArrayTree? ==> ElementsComplete(schema, of, t.elements)
    case ObjectTy(name) =>
      t.ObjectTree? ==>
        AllNamed(FieldsOf(schema, name), t.members) && MembersComplete(schema, FieldsOf(schema, name), t.members)
    case _ => true
  }

  predicate ElementsComplete(schema: Schema, of: Ty, es: seq<Element>)
    decreases es
  {
    es == [] || (Complete(schema, of, es[0].value) && ElementsComplete(schema, of, es[1..]))
  }

  predicate MembersComplete(schema: Schema, fields: seq<Field>, ms: seq<Member>)
    decreases ms
  {
    ms == [] || (MemberComplete(schema, fields, ms[0]) && MembersComplete(schema, fields, ms[1..]))
  }

  predicate MemberComplete(schema: Schema, fields: seq<Field>, m: Member)
    decreases m
  {
    var i := FieldIndex(fields, Decoded(m.key));
    i.Some? ==> Complete(schema, fields[i.value].ty, m.value)
  }

  /** A slot that was filled was named. */
  lemma FilledIsNamed(schema: Schema, reject: bool, fields: seq<Field>, ms: seq<Member>, k: nat)
    requires k < |fields| && InterpMembers(schema, reject, fields, ms, NoSlots(fields)).Some?
    ensures InterpMembers(schema, reject, fields, ms, NoSlots(fields)).value[k].Some? <==> NamedBySome(fields, ms, k)
  {
    hide Names;
    SlotOrigin(schema, reject, fields, ms, NoSlots(fields), k);
    if j :| 0 <= j < |ms| && Names(fields, ms, j, k) {
      assert InterpMembers(schema, reject, fields, ms, NoSlots(fields)).value[k].Some?;
    }
  }

  /** With no optional or default, every slot of a finished object was filled by a member. */
  lemma PlainFinish(fields: seq<Field>, slots: Slots)
    requires PlainFields(fields) && |slots| == |fields| && Finish(fields, slots).Some?
    ensures forall k | 0 <= k < |fields| :: slots[k] == Some(Finish(fields, slots).value[k])
  {
    hide PlainType;
    FinishedFields(fields, slots);
    forall k | 0 <= k < |fields|
      ensures slots[k] == Some(Finish(fields, slots).value[k])
    {
      assert PlainField(fields[k]);
      assert FieldValue(fields[k], slots[k]).Some?;
    }
  }

  /** Where every member must be present, every accepted text is complete. */
  lemma {:induction false} PlainIsComplete(schema: Schema, reject: bool, ty: Ty, t: Tree)
    requires PlainSchema(schema) && Interp(schema, reject, ty, t).Some?
    ensures Complete(schema, ty, t)
    decreases t, 1, ty
  {
    hide PlainSchema, InterpMembers, InterpElements, ElementsComplete, MembersComplete, AllNamed, Finish;
    match ty
    case OptionalTy(of) => if !t.NullTree? { PlainIsComplete(schema, reject, of, t); }
    case VectorTy(of) => PlainElementsComplete(schema, reject, of, t.elements);
    case ArrayTy(of, _) => PlainElementsComplete(schema, reject, of, t.elements);
    case ObjectTy(name) => PlainObjectComplete(schema, reject, name, t);
    case _ =>
  }

  lemma {:induction false} PlainElementsComplete(schema: Schema, reject: bool, of: Ty, es: seq<Element>)
    requires PlainSchema(schema) && InterpElements(schema, reject, of, es).Some?
    ensures ElementsComplete(schema, of, es)
    decreases es
  {
    hide PlainSchema, Interp, Complete;
    if es != [] {
      PlainIsComplete(schema, reject, of, es[0].value);
      PlainElementsComplete(schema, reject, of, es[1..]);
    }
  }

  lemma {:induction false} PlainObjectComplete(schema: Schema, reject: bool, name: string, t: Tree)
    requires PlainSchema(schema) && Interp(schema, reject, ObjectTy(name), t).Some?
    ensures Complete(schema, ObjectTy(name), t)
    decreases t, 0
  {
    hide PlainFields, InterpMembers, MembersComplete, NamedBySome, Finish;
    var fields := FieldsOf(schema, name);
    PlainSchemaFields(schema, name);
    var slots := InterpMembers(schema, reject, fields, t.members, NoSlots(fields)).value;
    PlainFinish(fields, slots);
    forall k | 0 <= k < |fields| ensures NamedBySome(fields, t.members, k) {
      FilledIsNamed(schema, reject, fields, t.members, k);
    }
    PlainMembersComplete(schema, reject, fields, t.members, NoSlots(fields));
  }

  lemma {:induction false} PlainMembersComplete(
    schema: Schema, reject: bool, fields: seq<Field>, ms: seq<Member>, slots: Slots)
    requires PlainSchema(schema) && |slots| == |fields|
    requires InterpMembers(schema, reject, fields, ms, slots).Some?
    ensures MembersComplete(schema, fields, ms)
    decreases ms
  {
    hide PlainSchema, Interp, Complete, SatisfiesAll, FieldIndex, Decoded;
    if ms != [] {
      var i := FieldIndex(fields, Decoded(ms[0].key));
      if i.Some? {
        PlainIsComplete(schema, reject, fields[i.value].ty, ms[0].value);
      }
      var next := InterpMember(schema, reject, fields, ms[0], slots).value;
      PlainMembersComplete(schema, reject, fields, ms[1..], next);
    }
  }

  lemma {:induction false} PlainTypeOk(ty: Ty)
    requires PlainType(ty)
    ensures TypeOk(ty)
  {
    match ty
    case OptionalTy(of) => PlainTypeOk(of);
    case VectorTy(of) => PlainTypeOk(of);
    case ArrayTy(of, _) => PlainTypeOk(of);
    case _ =>
  }

  lemma DistinctSchemaOk(schema: Schema)
    requires DistinctSchema(schema)
    ensures SchemaOk(schema)
  {
    forall name, k | name in schema && 0 <= k < |schema[name]|
      ensures TypeOk(schema[name][k].ty)
    {
      assert DistinctFields(schema[name]);
      PlainTypeOk(schema[name][k].ty);
    }
  }

  lemma DistinctSchemaFields(schema: Schema, name: string)
    requires DistinctSchema(schema)
    ensures DistinctFields(FieldsOf(schema, name))
  {
  }

  lemma PlainSchemaFields(schema: Schema, name: string)
    requires PlainSchema(schema)
    ensures PlainFields(FieldsOf(schema, name))
  {
  }

  lemma {:induction false} EnumValueAt(es: seq<Enumerator>, name: seq<Byte>) returns (k: nat)
    requires EnumValue(es, name).Some?
    ensures k < |es| && es[k].name == name && es[k].value == EnumValue(es, name).value
  {
    if es[0].name == name {
      k := 0;
    } else {
      var j := EnumValueAt(es[1..], name);
      k := j + 1;
    }
  }

  lemma {:induction false} EnumHasName(es: seq<Enumerator>, k: nat)
    requires k < |es|
    ensures EnumName(es, es[k].value).Some?
  {
    if k > 0 {
      EnumHasName(es[1..], k - 1);
    }
  }

  /** What was read as an enumerator can be printed. */
  lemma EnumIsNamed(es: seq<Enumerator>, name: seq<Byte>)
    requires EnumValue(es, name).Some?
    ensures EnumName(es, EnumValue(es, name).value).Some?
  {
    var k := EnumValueAt(es, name);
    EnumHasName(es, k);
  }

  lemma {:induction false} EnumNameAt(es: seq<Enumerator>, k: nat)
    requires EnumValuesUnique(es) && k < |es|
    ensures EnumName(es, es[k].value) == Some(es[k].name)
  {
    if k > 0 {
      assert es[0].value != es[k].value;
      EnumNameAt(es[1..], k - 1);
    }
  }

  /** With distinct values, an enumerator is printed under the name it was read from. */
  lemma EnumPrintsBack(es: seq<Enumerator>, name: seq<Byte>)
    requires EnumValuesUnique(es) && EnumValue(es, name).Some?
    ensures EnumName(es, EnumValue(es, name).value) == Some(name)
  {
    var k := EnumValueAt(es, name);
    EnumNameAt(es, k);
  }
}
