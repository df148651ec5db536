/** Writing back what was read: when it takes no more bytes, and when it reads back as the same value. */
module JsonReserialize {
  import opened Bytes
  import opened JsonString
  import opened JsonNumber
  import opened JsonTree
  import opened JsonTypes
  import opened JsonReader
  import opened JsonAgreement
  import opened JsonText
  import opened JsonRoundTrip
  import opened JsonComplete
  import opened JsonGrowth

  // --- Values as they come out of the reader ----------------------------------------------

  /** Everything the round trip asks of a value; obeying the limits only where that is asked for. */
  predicate Good(limits: Limits, schema: Schema, fit: bool, ty: Ty, v: Val, depth: nat) {
    && HasType(schema, ty, v)
    && Writable(schema, ty, v)
    && Stable(schema, ty, v)
    && (fit ==> Fits(limits, schema, ty, v, depth))
  }

  predicate GoodField(limits: Limits, schema: Schema, fit: bool, field: Field, v: Val, depth: nat) {
    && Good(limits, schema, fit, field.ty, v, depth)
    && SatisfiesAll(v, field.constraints)
    && (fit ==> StringFits(limits, field.wire))
  }

  predicate GoodItems(limits: Limits, schema: Schema, fit: bool, of: Ty, vs: seq<Val>, depth: nat) {
    && HaveType(schema, of, vs)
    && AllWritable(schema, of, vs)
    && AllStable(schema, of, vs)
    && (fit ==> ItemsFit(limits, schema, of, vs, depth))
  }

  lemma GoodItemsCons(limits: Limits, schema: Schema, fit: bool, of: Ty, v: Val, rest: seq<Val>, depth: nat)
    requires Good(limits, schema, fit, of, v, depth) && GoodItems(limits, schema, fit, of, rest, depth)
    ensures GoodItems(limits, schema, fit, of, [v] + rest, depth)
  {
    hide HasType, Writable, Fits, Stable;
    Cons(v, rest);
  }

  lemma {:induction false} GoodFields(
    limits: Limits, schema: Schema, fit: bool, fields: seq<Field>, vs: seq<Val>, depth: nat)
    requires |fields| == |vs|
    requires forall k | 0 <= k < |vs| :: GoodField(limits, schema, fit, fields[k], vs[k], depth)
    ensures FieldsHaveTypes(schema, fields, vs)
    ensures FieldsWritable(schema, fields, vs)
    ensures FieldsStable(schema, fields, vs)
    ensures fit ==> FieldsFit(limits, schema, fields, vs, depth)
  {
    hide HasType, Writable, Fits, Stable, SatisfiesAll, StringFits;
    if vs != [] {
      assert GoodField(limits, schema, fit, fields[0], vs[0], depth);
      forall k | 0 <= k < |vs[1..]|
        ensures GoodField(limits, schema, fit, fields[1..][k], vs[1..][k], depth)
      {
        assert fields[1..][k] == fields[k + 1] && vs[1..][k] == vs[k + 1];
      }
      GoodFields(limits, schema, fit, fields[1..], vs[1..], depth);
    }
  }

  /** A declared default can be written, survives, and obeys the constraints of its field. */
  predicate DefaultSound(schema: Schema, field: Field) {
    !field.ty.OptionalTy? && field.fallback.Some? ==>
      && HasType(schema, field.ty, field.fallback.value)
      && Writable(schema, field.ty, field.fallback.value)
      && Stable(schema, field.ty, field.fallback.value)
      && SatisfiesAll(field.fallback.value, field.constraints)
  }

  predicate DefaultsSound(schema: Schema) {
    forall name, k | name in schema && 0 <= k < |schema[name]| :: DefaultSound(schema, schema[name][k])
  }

  lemma SoundDefaultsOfFields(schema: Schema, name: string)
    requires DefaultsSound(schema)
    ensures forall k | 0 <= k < |FieldsOf(schema, name)| :: DefaultSound(schema, FieldsOf(schema, name)[k])
  {
  }

  /**
   What is asked of a text so that its value is good. Where the limits matter, enum values must be distinct and
   the text must leave out no field, for then every string and list that is printed stands in it.
   */
  predicate Covered(schema: Schema, fit: bool, ty: Ty, t: Tree) {
    if fit then DistinctSchema(schema) && PlainType(ty) && Complete(schema, ty, t) else DefaultsSound(schema)
  }

  // --- Counting filled slots --------------------------------------------------------------

  function Count(slots: Slots): nat {
    if slots == [] then 0 else (if slots[0].Some? then 1 else 0) + Count(slots[1..])
  }

  lemma {:induction false} CountOfEmpty(slots: Slots)
    requires forall k | 0 <= k < |slots| :: slots[k] == None
    ensures Count(slots) == 0
  {
    if slots != [] {
      CountOfEmpty(slots[1..]);
    }
  }

  lemma {:induction false} CountOfUpdate(slots: Slots, i: nat, v: Val)
    requires i < |slots| && slots[i].None?
    ensures Count(slots[i := Some(v)]) == Count(slots) + 1
  {
    var after := slots[i := Some(v)];
    if i == 0 {
      assert after[1..] == slots[1..];
    } else {
      assert after[1..] == slots[1..][i - 1 := Some(v)];
      CountOfUpdate(slots[1..], i - 1, v);
    }
  }

  lemma {:induction false} CountOfFull(slots: Slots)
    requires forall k | 0 <= k < |slots| :: slots[k].Some?
    ensures Count(slots) == |slots|
  {
    if slots != [] {
      CountOfFull(slots[1..]);
    }
  }

  // --- Reading yields good values ---------------------------------------------------------

  lemma DecodedFits(limits: Limits, ps: seq<Piece>)
    requires StringOk(limits, ps)
    ensures StringFits(limits, Decoded(ps))
  {
  }

  lemma GoodView(limits: Limits, ps: seq<Piece>)
    requires StringOk(limits, ps) && AllRaw(ps)
    ensures StringFits(limits, Decoded(ps)) && PrintsRaw(Decoded(ps))
  {
    RawPrintsRaw(ps);
  }

  lemma GoodLeaf(limits: Limits, schema: Schema, reject: bool, fit: bool, ty: Ty, t: Tree, depth: nat)
    requires (fit ==> PlainType(ty)) && TreeOk(limits, t, depth) && Interp(schema, reject, ty, t).Some?
    requires ty.StringTy? || ty.ViewTy? || ty.BoolTy? || ty.IntTy? || ty.EnumTy?
    ensures Good(limits, schema, fit, ty, Interp(schema, reject, ty, t).value, depth)
  {
    hide StringOk, StringFits, NumberOk, IntegerOf, AllRaw, PrintsRaw, Decoded;
    match ty
    case StringTy => DecodedFits(limits, t.pieces);
    case ViewTy => GoodView(limits, t.pieces);
    case BoolTy =>
    case IntTy(lo, hi) => IntegerInRange(t.number, lo, hi);
    case EnumTy(es) =>
      DecodedFits(limits, t.pieces);
      EnumIsNamed(es, Decoded(t.pieces));
      if fit {
        EnumPrintsBack(es, Decoded(t.pieces));
      }
  }

  lemma IntegerInRange(n: Number, lo: int, hi: int)
    requires NumberOk(n) && IntegerOf(n, lo, hi).Some?
    ensures lo <= IntegerOf(n, lo, hi).value <= hi
  {
  }

  lemma NotNullLike(schema: Schema, reject: bool, ty: Ty, t: Tree)
    requires Interp(schema, reject, ty, t).Some? && !t.NullTree?
    ensures !NullLike(Interp(schema, reject, ty, t).value)
    decreases ty
  {
    hide InterpElements, InterpMembers, Finish;
    if ty.OptionalTy? {
      NotNullLike(schema, reject, ty.of, t);
    }
  }

  lemma {:induction false} GoodTree(
    limits: Limits, schema: Schema, reject: bool, fit: bool, ty: Ty, t: Tree, depth: nat)
    requires TreeOk(limits, t, depth) && Covered(schema, fit, ty, t)
    requires Interp(schema, reject, ty, t).Some?
    ensures Good(limits, schema, fit, ty, Interp(schema, reject, ty, t).value, depth)
    decreases t, 1, ty, 1
  {
    hide DistinctSchema, DefaultsSound, Good, InterpElements, InterpMembers, Finish;
    match ty
    case OptionalTy(of) => GoodOptional(limits, schema, reject, fit, of, t, depth);
    case VectorTy(of) => GoodArray(limits, schema, reject, fit, ty, of, t, depth);
    case ArrayTy(of, _) => GoodArray(limits, schema, reject, fit, ty, of, t, depth);
    case ObjectTy(name) => GoodObject(limits, schema, reject, fit, name, t, depth);
    case _ => GoodLeaf(limits, schema, reject, fit, ty, t, depth);
  }

  lemma {:induction false} GoodOptional(
    limits: Limits, schema: Schema, reject: bool, fit: bool, of: Ty, t: Tree, depth: nat)
    requires TreeOk(limits, t, depth)
    requires Covered(schema, fit, OptionalTy(of), t) && Interp(schema, reject, OptionalTy(of), t).Some?
    ensures Good(limits, schema, fit, OptionalTy(of), Interp(schema, reject, OptionalTy(of), t).value, depth)
    decreases t, 1, OptionalTy(of), 0
  {
    hide DistinctSchema, DefaultsSound, TreeOk;
    if !t.NullTree? {
      GoodTree(limits, schema, reject, fit, of, t, depth);
      NotNullLike(schema, reject, of, t);
    }
  }

  lemma {:induction false} GoodArray(
    limits: Limits, schema: Schema, reject: bool, fit: bool, ty: Ty, of: Ty, t: Tree, depth: nat)
    requires TreeOk(limits, t, depth) && Covered(schema, fit, ty, t)
    requires ty == VectorTy(of) || (ty.ArrayTy? && ty.of == of)
    requires Interp(schema, reject, ty, t).Some?
    ensures Good(limits, schema, fit, ty, Interp(schema, reject, ty, t).value, depth)
    decreases t, 0
  {
    hide DistinctSchema, DefaultsSound;
    GoodElements(limits, schema, reject, fit, of, t.elements, depth + 1);
  }

  lemma {:induction false} GoodElements(
    limits: Limits, schema: Schema, reject: bool, fit: bool, of: Ty, es: seq<Element>, depth: nat)
    requires ElementsOk(limits, es, depth)
    requires if fit then DistinctSchema(schema) && PlainType(of) && ElementsComplete(schema, of, es)
             else DefaultsSound(schema)
    requires InterpElements(schema, reject, of, es).Some?
    ensures GoodItems(limits, schema, fit, of, InterpElements(schema, reject, of, es).value, depth)
    decreases es
  {
    hide DistinctSchema, DefaultsSound, PlainType, TreeOk, HasType, Writable, Fits, Stable, Interp, Complete;
    if es != [] {
      var v := Interp(schema, reject, of, es[0].value).value;
      var rest := InterpElements(schema, reject, of, es[1..]).value;
      GoodTree(limits, schema, reject, fit, of, es[0].value, depth);
      GoodElements(limits, schema, reject, fit, of, es[1..], depth);
      GoodItemsCons(limits, schema, fit, of, v, rest, depth);
    }
  }

  // --- Objects ----------------------------------------------------------------------------

  predicate GoodSlots(limits: Limits, schema: Schema, fit: bool, fields: seq<Field>, slots: Slots, depth: nat)
    requires |slots| == |fields|
  {
    forall k | 0 <= k < |slots| ::
      slots[k].Some? ==> GoodField(limits, schema, fit, fields[k], slots[k].value, depth)
  }

  lemma {:induction false} GoodMember(
    limits: Limits, schema: Schema, reject: bool, fit: bool, fields: seq<Field>, m: Member, slots: Slots, depth: nat)
    requires |slots| == |fields|
    requires MemberOk(limits, m, depth)
    requires if fit then DistinctSchema(schema) && DistinctFields(fields) && MemberComplete(schema, fields, m)
             else DefaultsSound(schema)
    requires GoodSlots(limits, schema, fit, fields, slots, depth)
    requires InterpMember(schema, reject, fields, m, slots).Some?
    ensures var next := InterpMember(schema, reject, fields, m, slots).value;
            GoodSlots(limits, schema, fit, fields, next, depth) && Count(next) <= Count(slots) + 1
    decreases m
  {
    hide DistinctSchema, DefaultsSound, TreeOk, Count, Complete;
    hide HasType, Writable, Fits, Stable, Interp, SatisfiesAll, StringFits, StringOk, PlainType;
    var i := FieldIndex(fields, Decoded(m.key));
    if i.Some? {
      var field := fields[i.value];
      var v := Interp(schema, reject, field.ty, m.value).value;
      GoodTree(limits, schema, reject, fit, field.ty, m.value, depth);
      DecodedFits(limits, m.key);
      CountOfUpdate(slots, i.value, v);
    }
  }

  lemma {:induction false} GoodMembers(
    limits: Limits, schema: Schema, reject: bool, fit: bool, fields: seq<Field>, ms: seq<Member>, slots: Slots,
    depth: nat)
    requires |slots| == |fields|
    requires MembersOk(limits, ms, depth)
    requires if fit then DistinctSchema(schema) && DistinctFields(fields) && MembersComplete(schema, fields, ms)
             else DefaultsSound(schema)
    requires GoodSlots(limits, schema, fit, fields, slots, depth)
    requires InterpMembers(schema, reject, fields, ms, slots).Some?
    ensures var all := InterpMembers(schema, reject, fields, ms, slots).value;
            GoodSlots(limits, schema, fit, fields, all, depth) && Count(all) <= Count(slots) + |ms|
    decreases ms
  {
    hide DistinctSchema, DefaultsSound, DistinctFields, MemberComplete, MemberOk, GoodSlots, Count, InterpMember;
    if ms != [] {
      var next := InterpMember(schema, reject, fields, ms[0], slots).value;
      GoodMember(limits, schema, reject, fit, fields, ms[0], slots, depth);
      GoodMembers(limits, schema, reject, fit, fields, ms[1..], next, depth);
    }
  }

  lemma {:induction false} NoneSatisfies(cs: seq<Constraint>)
    ensures SatisfiesAll(NoneVal, cs)
  {
    if cs != [] {
      NoneSatisfies(cs[1..]);
    }
  }

  /** What stands in for a field that is left out. */
  lemma GoodStandIn(limits: Limits, schema: Schema, field: Field, depth: nat)
    requires DefaultSound(schema, field) && FieldValue(field, None).Some?
    ensures GoodField(limits, schema, false, field, FieldValue(field, None).value, depth)
  {
    hide SatisfiesAll;
    NoneSatisfies(field.constraints);
  }

  /** Every field of a finished object is good, from its member or as a stand-in. */
  lemma GoodFinish(
    limits: Limits, schema: Schema, reject: bool, fit: bool, name: string, t: Tree, slots: Slots, depth: nat)
    requires t.ObjectTree? && Covered(schema, fit, ObjectTy(name), t)
    requires |slots| == |FieldsOf(schema, name)| && Finish(FieldsOf(schema, name), slots).Some?
    requires InterpMembers(schema, reject, FieldsOf(schema, name), t.members, NoSlots(FieldsOf(schema, name)))
             == Some(slots)
    requires GoodSlots(limits, schema, fit, FieldsOf(schema, name), slots, depth)
    ensures var fields := FieldsOf(schema, name);
            var vs := Finish(fields, slots).value;
            forall k | 0 <= k < |vs| :: GoodField(limits, schema, fit, fields[k], vs[k], depth)
    ensures fit ==> forall k | 0 <= k < |slots| :: slots[k].Some?
  {
    hide GoodField, InterpMembers, Finish, NamedBySome, MembersComplete, DefaultsSound, DefaultSound;
    var fields := FieldsOf(schema, name);
    FinishedFields(fields, slots);
    forall k | 0 <= k < |slots|
      ensures fit ==> slots[k].Some?
      ensures GoodField(limits, schema, fit, fields[k], Finish(fields, slots).value[k], depth)
    {
      if fit {
        assert NamedBySome(fields, t.members, k);
        FilledIsNamed(schema, reject, fields, t.members, k);
      } else if slots[k].None? {
        SoundDefaultsOfFields(schema, name);
        GoodStandIn(limits, schema, fields[k], depth);
      }
    }
  }

  lemma {:induction false} GoodObject(
    limits: Limits, schema: Schema, reject: bool, fit: bool, name: string, t: Tree, depth: nat)
    requires TreeOk(limits, t, depth)
    requires Covered(schema, fit, ObjectTy(name), t) && Interp(schema, reject, ObjectTy(name), t).Some?
    ensures Good(limits, schema, fit, ObjectTy(name), Interp(schema, reject, ObjectTy(name), t).value, depth)
    decreases t, 0
  {
    hide DistinctSchema, DistinctFields, MembersComplete, AllNamed, GoodField, Count, DefaultsSound;
    hide InterpMember, Finish, NoSlots, MembersOk;
    hide FieldsHaveTypes, FieldsWritable, FieldsFit, FieldsStable, InterpMembers;
    var fields := FieldsOf(schema, name);
    if fit {
      DistinctSchemaFields(schema, name);
    }
    var slots := InterpMembers(schema, reject, fields, t.members, NoSlots(fields)).value;
    var vs := Finish(fields, slots).value;
    CountOfEmpty(NoSlots(fields));
    GoodMembers(limits, schema, reject, fit, fields, t.members, NoSlots(fields), depth + 1);
    GoodFinish(limits, schema, reject, fit, name, t, slots, depth + 1);
    GoodFields(limits, schema, fit, fields, vs, depth + 1);
    if fit {
      CountOfFull(slots);
    }
  }

  // --- The theorems -----------------------------------------------------------------------

  /**
   With sound defaults: the value read from any accepted text can be written, and reads back
   as itself exactly when it fits the limits and its text is within the input limit. What a text leaves out is
   written, so its own limits do not answer for that.
   */
  lemma ReadsBackIff(s: seq<Byte>, limits: Limits, schema: Schema, ty: Ty)
    requires SchemaOk(schema) && TypeOk(ty) && DefaultsSound(schema)
    requires Read(s, limits, schema, ty).Ok?
    ensures var v := Read(s, limits, schema, ty).value;
            && HasType(schema, ty, v) && Writable(schema, ty, v)
            && (Read(WriteText(schema, ty, v), limits, schema, ty) == Ok(v, |WriteText(schema, ty, v)|)
                <==> Fits(limits, schema, ty, v, 0) && |WriteText(schema, ty, v)| <= limits.inputBytes)
  {
    hide DefaultsSound, ElementText, WriteText, TreeOk, Interp, ParseElement;
    hide HasType, Writable, Fits, Stable, SchemaOk, TypeOk, ReadValue;
    var v := Read(s, limits, schema, ty).value;
    ReadHasTree(s, limits, schema, ty, v);
    GoodTree(limits, schema, limits.rejectUnknown, false, ty, ParseElement(s, limits, 0, 0).value.value, 0);
    RoundTrip(limits, schema, ty, v);
  }

  /** Sound defaults are typed. */
  lemma SoundIsTyped(schema: Schema)
    requires DefaultsSound(schema)
    ensures DefaultsTyped(schema)
  {
    forall name, k | name in schema && 0 <= k < |schema[name]|
      ensures DefaultTyped(schema, schema[name][k])
    {
      assert DefaultSound(schema, schema[name][k]);
    }
  }

  /**
   With sound defaults: an accepted text is written back in no more bytes and reads back as the same value exactly
   when it owes at most what it has to spare and its value fits the limits.
   */
  lemma ReserializesIff(s: seq<Byte>, limits: Limits, schema: Schema, ty: Ty, e: Element)
    requires SchemaOk(schema) && TypeOk(ty) && DefaultsSound(schema)
    requires Read(s, limits, schema, ty).Ok? && ElementOk(limits, e, 0) && ElementText(e) == s
    ensures var v := Read(s, limits, schema, ty).value;
            && HasType(schema, ty, v) && Writable(schema, ty, v)
            && (&& |WriteText(schema, ty, v)| <= |s|
                && Read(WriteText(schema, ty, v), limits, schema, ty) == Ok(v, |WriteText(schema, ty, v)|)
                <==> Owed(schema, ty, e.value) <= TextSpare(schema, ty, e) && Fits(limits, schema, ty, v, 0))
  {
    hide SchemaOk, TypeOk, DefaultsSound, DefaultsTyped, ElementText, ElementOk, WriteText, HasType, Writable, Fits;
    hide ReadValue, Owed, TextSpare;
    SoundIsTyped(schema);
    ReadsBackIff(s, limits, schema, ty);
    NeverGrowsIff(s, limits, schema, ty, e);
  }

  /**
   With distinct enum values: what was read from an accepted text that leaves out no field is written in no more
   bytes, and reads back under the same limits as the same value. Optional fields and defaults are no obstacle.
   */
  lemma CompleteTextNeverGrows(s: seq<Byte>, limits: Limits, schema: Schema, ty: Ty, e: Element)
    requires DistinctSchema(schema) && PlainType(ty)
    requires Read(s, limits, schema, ty).Ok?
    requires ElementOk(limits, e, 0) && ElementText(e) == s && Complete(schema, ty, e.value)
    ensures var v := Read(s, limits, schema, ty).value;
            && HasType(schema, ty, v) && Writable(schema, ty, v)
            && |WriteText(schema, ty, v)| <= |s|
            && Read(WriteText(schema, ty, v), limits, schema, ty) == Ok(v, |WriteText(schema, ty, v)|)
  {
    hide DistinctSchema, PlainType, Text, ElementText, WriteText, TreeOk, Interp, ParseElement, Complete;
    hide HasType, Writable, Fits, Stable, SchemaOk, TypeOk, ReadValue, Owed, Spare, DefaultsTyped;
    var v := Read(s, limits, schema, ty).value;
    ReadHasTree(s, limits, schema, ty, v);
    TextIsUnambiguous(limits, e, ParseElement(s, limits, 0, 0).value);
    GoodTree(limits, schema, limits.rejectUnknown, true, ty, e.value, 0);
    WrittenLength(s, limits, schema, ty, e);
    CompleteOwesNothing(schema, ty, e.value);
    DistinctSchemaOk(schema);
    PlainTypeOk(ty);
    RoundTrip(limits, schema, ty, v);
  }

  /**
   For types without optional or defaulted fields and with distinct enum values: what was read from
   any accepted text is written in no more bytes, and reads back under the same limits as the same value.
   */
  lemma ReserializeNeverGrowsOrFails(s: seq<Byte>, limits: Limits, schema: Schema, ty: Ty)
    requires PlainSchema(schema) && PlainType(ty)
    requires Read(s, limits, schema, ty).Ok?
    ensures var v := Read(s, limits, schema, ty).value;
            && HasType(schema, ty, v) && Writable(schema, ty, v)
            && |WriteText(schema, ty, v)| <= |s|
            && Read(WriteText(schema, ty, v), limits, schema, ty) == Ok(v, |WriteText(schema, ty, v)|)
  {
    hide PlainSchema, DistinctSchema, PlainType, Text, ElementText, WriteText, TreeOk, Interp, ParseElement, Complete;
    hide HasType, Writable, ReadValue;
    var v := Read(s, limits, schema, ty).value;
    ReadHasTree(s, limits, schema, ty, v);
    var e := ParseElement(s, limits, 0, 0).value;
    PlainIsDistinct(schema);
    PlainIsComplete(schema, limits.rejectUnknown, ty, e.value);
    CompleteTextNeverGrows(s, limits, schema, ty, e);
  }

  // --- Texts that grow --------------------------------------------------------------------

  const OPTIONAL_FIELD := Field(['a' as int], OptionalTy(BoolTy), None, [])
  const DEFAULTED_FIELD := Field(['a' as int], BoolTy, Some(BoolVal(true)), [])
  const EMPTY_OBJECT: seq<Byte> := [OPEN_BRACE, CLOSE_BRACE]

  /** One object type with this field only. */
  function Lone(field: Field): Schema {
    map["Lone" := [field]]
  }

  /** The empty object, of two bytes, is read as an object of the field's stand-in, and written in more bytes. */
  predicate EmptyObjectGrows(limits: Limits, field: Field) {
    var r := Read(EMPTY_OBJECT, limits, Lone(field), ObjectTy("Lone"));
    && r.Ok? && HasType(Lone(field), ObjectTy("Lone"), r.value)
    && |WriteText(Lone(field), ObjectTy("Lone"), r.value)| > |EMPTY_OBJECT|
  }

  lemma NothingNamed(field: Field)
    requires FieldValue(field, None).Some?
    ensures Finish([field], NoSlots([field])) == Some([FieldValue(field, None).value])
  {
    var fields, slots := [field], NoSlots([field]);
    FinishedFields(fields, slots);
    assert Finish(fields, slots).value == [FieldValue(fields[0], slots[0]).value];
  }

  lemma EmptyObjectIsRead(limits: Limits, field: Field)
    requires limits.inputBytes >= 2 && limits.depth > 0 && FieldValue(field, None).Some?
    ensures Read(EMPTY_OBJECT, limits, Lone(field), ObjectTy("Lone"))
         == Ok(ObjectVal([FieldValue(field, None).value]), 2)
  {
    hide Finish;
    var s := EMPTY_OBJECT;
    var fields := FieldsOf(Lone(field), "Lone");
    assert fields == [field];
    assert SkipBlank(s, 0) == 0 && SkipBlank(s, 1) == 1 && SkipBlank(s, 2) == 2;
    assert !HasAt(s, 0, NULL_TEXT);
    NothingNamed(field);
    assert ReadObject(s, limits, Lone(field), fields, 0, 0) == Ok(ObjectVal([FieldValue(field, None).value]), 2);
  }

  lemma LoneFieldGrows(limits: Limits, field: Field)
    requires limits.inputBytes >= 2 && limits.depth > 0
    requires FieldValue(field, None).Some? && HasType(Lone(field), field.ty, FieldValue(field, None).value)
    ensures EmptyObjectGrows(limits, field)
  {
    hide Read, WriteField;
    EmptyObjectIsRead(limits, field);
    var schema := Lone(field);
    var fields, vs := FieldsOf(schema, "Lone"), [FieldValue(field, None).value];
    assert fields == [field] && fields[1..] == [] && vs[1..] == [];
    assert FieldsHaveTypes(schema, fields, vs);
    assert WriteFields(schema, fields, vs) == WriteField(schema, fields[0], vs[0]);
    FieldIsPrinted(schema, field, vs[0]);
  }

  lemma FieldIsPrinted(schema: Schema, field: Field, v: Val)
    requires HasType(schema, field.ty, v)
    ensures |WriteField(schema, field, v)| > 0
  {
  }

  /** A text that leaves out an optional field may grow, and so may one that leaves out a defaulted field. */
  lemma AbsentFieldGrows(limits: Limits)
    requires limits.inputBytes >= 2 && limits.depth > 0
    ensures EmptyObjectGrows(limits, OPTIONAL_FIELD) && EmptyObjectGrows(limits, DEFAULTED_FIELD)
  {
    hide EmptyObjectGrows;
    LoneFieldGrows(limits, OPTIONAL_FIELD);
    LoneFieldGrows(limits, DEFAULTED_FIELD);
  }
}
