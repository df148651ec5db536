/** What field constraints mean, and that they only filter what is read. */
module JsonConstraints {
  import opened Bytes
  import opened JsonTree
  import opened JsonTypes
  import opened JsonReader
  import opened JsonAgreement
  import opened JsonObjects

  // --- Meaning ----------------------------------------------------------------------------

  /** The value inside engaged optionals; NoneVal when one of them is disengaged. */
  function Innermost(v: Val): Val {
    if v.SomeVal? then Innermost(v.inner) else v
  }

  /** The bound that a constraint declares holds of the number, the length or the count inside the value. */
  predicate Obeys(v: Val, c: Constraint) {
    var w := Innermost(v);
    w.NoneVal? ||
    match c
    case AtLeast(bound) => w.IntVal? && bound <= w.number
    case AtMost(bound) => w.IntVal? && w.number <= bound
    case MinLength(size) => w.StringVal? && size <= |w.bytes|
    case MaxLength(size) => w.StringVal? && |w.bytes| <= size
    case MinItems(size) => w.ListVal? && size <= |w.items|
    case MaxItems(size) => w.ListVal? && |w.items| <= size
  }

  predicate ObeysAll(v: Val, cs: seq<Constraint>) {
    forall k | 0 <= k < |cs| :: Obeys(v, cs[k])
  }

  lemma {:induction false} SatisfiesIff(v: Val, c: Constraint)
    ensures Satisfies(v, c) <==> Obeys(v, c)
    decreases v
  {
    if v.SomeVal? {
      SatisfiesIff(v.inner, c);
    }
  }

  /** The reader's check of all constraints is that each of them is obeyed. */
  lemma {:induction false} SatisfiesAllIff(v: Val, cs: seq<Constraint>)
    ensures SatisfiesAll(v, cs) <==> ObeysAll(v, cs)
  {
    hide Satisfies, Obeys;
    if cs != [] {
      SatisfiesIff(v, cs[0]);
      SatisfiesAllIff(v, cs[1..]);
      if Obeys(v, cs[0]) && ObeysAll(v, cs[1..]) {
        forall k | 0 <= k < |cs| ensures Obeys(v, cs[k]) {
          assert k > 0 ==> Obeys(v, cs[1..][k - 1]);
        }
      }
    }
  }

  // --- Reading with and without constraints -----------------------------------------------

  function FreeField(field: Field): Field {
    field.(constraints := [])
  }

  function FreeFields(fields: seq<Field>): (r: seq<Field>)
    ensures |r| == |fields| && forall k | 0 <= k < |r| :: r[k] == FreeField(fields[k])
  {
    seq(|fields|, k requires 0 <= k < |fields| => FreeField(fields[k]))
  }

  /** The same types without any constraint. */
  function Free(schema: Schema): Schema {
    map name | name in schema :: FreeFields(schema[name])
  }

  lemma FieldsOfFree(schema: Schema, name: string)
    ensures FieldsOf(Free(schema), name) == FreeFields(FieldsOf(schema, name))
  {
  }

  lemma FreeTail(fields: seq<Field>)
    requires fields != []
    ensures FreeFields(fields)[1..] == FreeFields(fields[1..])
  {
  }

  lemma {:induction false} FreeIndex(fields: seq<Field>, name: seq<Byte>)
    ensures FieldIndex(FreeFields(fields), name) == FieldIndex(fields, name)
  {
    if fields != [] {
      FreeTail(fields);
      FreeIndex(fields[1..], name);
    }
  }

  lemma {:induction false} FreeFinish(fields: seq<Field>, slots: Slots)
    requires |slots| == |fields|
    ensures Finish(FreeFields(fields), slots) == Finish(fields, slots)
  {
    if fields != [] {
      FreeTail(fields);
      FreeFinish(fields[1..], slots[1..]);
    }
  }

  /** Every member of every object, at every depth, has a value that obeys the constraints of its field. */
  predicate Constrained(schema: Schema, reject: bool, ty: Ty, t: Tree)
    decreases t, ty
  {
    match ty
    case OptionalTy(of) => t.NullTree? || Constrained(schema, reject, of, t)
    case VectorTy(of) => t.ArrayTree? ==> ElementsConstrained(schema, reject, of, t.elements)
    case ArrayTy(of, _) => t.ArrayTree? ==> ElementsConstrained(schema, reject, of, t.elements)
    case ObjectTy(name) => t.ObjectTree? ==> MembersConstrained(schema, reject, FieldsOf(schema, name), t.members)
    case _ => true
  }

  predicate ElementsConstrained(schema: Schema, reject: bool, of: Ty, es: seq<Element>)
    decreases es
  {
    es == [] || (Constrained(schema, reject, of, es[0].value) && ElementsConstrained(schema, reject, of, es[1..]))
  }

  predicate MemberConstrained(schema: Schema, reject: bool, fields: seq<Field>, m: Member)
    decreases m
  {
    var i := FieldIndex(fields, Decoded(m.key));
    i.Some? ==>
      var v := Interp(Free(schema), reject, fields[i.value].ty, m.value);
      && Constrained(schema, reject, fields[i.value].ty, m.value)
      && (v.Some? ==> ObeysAll(v.value, fields[i.value].constraints))
  }

  predicate MembersConstrained(schema: Schema, reject: bool, fields: seq<Field>, ms: seq<Member>)
    decreases ms
  {
    ms == []
    || (MemberConstrained(schema, reject, fields, ms[0]) && MembersConstrained(schema, reject, fields, ms[1..]))
  }

  /**
   Constraints filter and do nothing else: a tree means what it means without them when all its members obey theirs,
   and nothing otherwise.
   */
  lemma {:induction false} ConstraintsFilter(schema: Schema, reject: bool, ty: Ty, t: Tree)
    ensures Interp(schema, reject, ty, t)
         == if Constrained(schema, reject, ty, t) then Interp(Free(schema), reject, ty, t) else None
    decreases t, 1, ty
  {
    hide InterpElements, InterpMembers, Finish, ElementsConstrained, MembersConstrained, Free;
    match ty
    case OptionalTy(of) => if !t.NullTree? { ConstraintsFilter(schema, reject, of, t); }
    case VectorTy(of) => if t.ArrayTree? { ElementsFilter(schema, reject, of, t.elements); }
    case ArrayTy(of, _) => if t.ArrayTree? { ElementsFilter(schema, reject, of, t.elements); }
    case ObjectTy(name) =>
      if t.ObjectTree? {
        var fields := FieldsOf(schema, name);
        FieldsOfFree(schema, name);
        MembersFilter(schema, reject, fields, t.members, NoSlots(fields));
        assert NoSlots(FreeFields(fields)) == NoSlots(fields);
        var slots := InterpMembers(schema, reject, fields, t.members, NoSlots(fields));
        if slots.Some? {
          FreeFinish(fields, slots.value);
        }
      }
    case _ =>
  }

  lemma {:induction false} ElementsFilter(schema: Schema, reject: bool, of: Ty, es: seq<Element>)
    ensures InterpElements(schema, reject, of, es)
         == if ElementsConstrained(schema, reject, of, es) then InterpElements(Free(schema), reject, of, es) else None
    decreases es
  {
    hide Interp, Constrained, Free;
    if es != [] {
      ConstraintsFilter(schema, reject, of, es[0].value);
      ElementsFilter(schema, reject, of, es[1..]);
    }
  }

  lemma {:induction false} MemberFilter(schema: Schema, reject: bool, fields: seq<Field>, m: Member, slots: Slots)
    requires |slots| == |fields|
    ensures InterpMember(schema, reject, fields, m, slots).Some? ==> MemberConstrained(schema, reject, fields, m)
    ensures MemberConstrained(schema, reject, fields, m) ==>
              InterpMember(schema, reject, fields, m, slots)
              == InterpMember(Free(schema), reject, FreeFields(fields), m, slots)
    decreases m
  {
    hide Interp, Constrained, Free, SatisfiesAll, ObeysAll, Decoded, FieldIndex;
    FreeIndex(fields, Decoded(m.key));
    var i := FieldIndex(fields, Decoded(m.key));
    if i.Some? {
      ConstraintsFilter(schema, reject, fields[i.value].ty, m.value);
      var v := Interp(Free(schema), reject, fields[i.value].ty, m.value);
      if v.Some? {
        SatisfiesAllIff(v.value, fields[i.value].constraints);
        SatisfiesAllIff(v.value, []);
        assert ObeysAll(v.value, []) by { NothingToObey(v.value); }
      }
    }
  }

  lemma NothingToObey(v: Val)
    ensures ObeysAll(v, [])
  {
  }

  lemma {:induction false} MembersFilter(
    schema: Schema, reject: bool, fields: seq<Field>, ms: seq<Member>, slots: Slots)
    requires |slots| == |fields|
    ensures InterpMembers(schema, reject, fields, ms, slots)
         == if MembersConstrained(schema, reject, fields, ms)
            then InterpMembers(Free(schema), reject, FreeFields(fields), ms, slots) else None
    decreases ms
  {
    hide InterpMember, MemberConstrained, Free;
    if ms != [] {
      MemberFilter(schema, reject, fields, ms[0], slots);
      var next := InterpMember(schema, reject, fields, ms[0], slots);
      if next.Some? {
        MembersFilter(schema, reject, fields, ms[1..], next.value);
      }
    }
  }

  /** Whole texts: read with constraints, if and only if read without them and every member obeys its own. */
  lemma ReadIffConstrained(s: seq<Byte>, limits: Limits, schema: Schema, ty: Ty, v: Val)
    ensures Read(s, limits, schema, ty) == Ok(v, |s|)
            <==> && Read(s, limits, Free(schema), ty) == Ok(v, |s|)
                 && exists e: Element ::
                      ElementOk(limits, e, 0) && ElementText(e) == s
                      && Constrained(schema, limits.rejectUnknown, ty, e.value)
  {
    hide Read, ElementOk, ElementText, Interp, Constrained, Free;
    ReadIffMeaning(s, limits, schema, ty, v);
    ReadIffMeaning(s, limits, Free(schema), ty, v);
    forall e: Element
      ensures Interp(schema, limits.rejectUnknown, ty, e.value)
           == if Constrained(schema, limits.rejectUnknown, ty, e.value)
              then Interp(Free(schema), limits.rejectUnknown, ty, e.value) else None
    {
      ConstraintsFilter(schema, limits.rejectUnknown, ty, e.value);
    }
    if Read(s, limits, Free(schema), ty) == Ok(v, |s|) {
      forall e: Element, f: Element
        | ElementOk(limits, e, 0) && ElementText(e) == s && ElementOk(limits, f, 0) && ElementText(f) == s
        ensures e == f
      {
        TextIsUnambiguous(limits, e, f);
      }
    }
  }

  /** Every member of an accepted object has a value for which each declared bound of its field holds. */
  lemma AcceptedMemberObeys(
    s: seq<Byte>, limits: Limits, schema: Schema, name: string, lead: seq<Byte>, gap: seq<Byte>, ms: seq<Member>,
    trail: seq<Byte>, j: nat, k: nat)
    requires ElementOk(limits, Element(lead, ObjectTree(gap, ms), trail), 0)
    requires s == ElementText(Element(lead, ObjectTree(gap, ms), trail))
    requires Read(s, limits, schema, ObjectTy(name)).Ok?
    requires j < |ms| && k < |FieldsOf(schema, name)| && Names(FieldsOf(schema, name), ms, j, k)
    ensures var v := Read(s, limits, schema, ObjectTy(name)).value;
            v.ObjectVal? && k < |v.fields| && ObeysAll(v.fields[k], FieldsOf(schema, name)[k].constraints)
  {
    hide ElementOk, ElementText, Interp, Names, ReadValue, ObeysAll;
    var v := Read(s, limits, schema, ObjectTy(name)).value;
    var e := Element(lead, ObjectTree(gap, ms), trail);
    ReadHasTree(s, limits, schema, ObjectTy(name), v);
    TextIsUnambiguous(limits, e, ParseElement(s, limits, 0, 0).value);
    FieldOrigin(schema, limits.rejectUnknown, name, gap, ms, k);
    FilledObeys(schema, limits.rejectUnknown, name, gap, ms, j, k);
  }

  lemma FilledObeys(schema: Schema, reject: bool, name: string, gap: seq<Byte>, ms: seq<Member>, j: nat, k: nat)
    requires Interp(schema, reject, ObjectTy(name), ObjectTree(gap, ms)).Some?
    requires j < |ms| && k < |FieldsOf(schema, name)| && Names(FieldsOf(schema, name), ms, j, k)
    ensures var w := Interp(schema, reject, FieldsOf(schema, name)[k].ty, ms[j].value);
            w.Some? && ObeysAll(w.value, FieldsOf(schema, name)[k].constraints)
  {
    hide Finish, Interp, ObeysAll, InterpMembers;
    var fields := FieldsOf(schema, name);
    ObjectHasSlots(schema, reject, name, gap, ms);
    MemberJObeys(schema, reject, fields, ms, NoSlots(fields), j, k);
  }

  lemma ObjectHasSlots(schema: Schema, reject: bool, name: string, gap: seq<Byte>, ms: seq<Member>)
    requires Interp(schema, reject, ObjectTy(name), ObjectTree(gap, ms)).Some?
    ensures InterpMembers(schema, reject, FieldsOf(schema, name), ms, NoSlots(FieldsOf(schema, name))).Some?
  {
    hide Finish, InterpMembers;
  }

  lemma {:induction false} MemberJObeys(
    schema: Schema, reject: bool, fields: seq<Field>, ms: seq<Member>, slots: Slots, j: nat, k: nat)
    requires |slots| == |fields| && InterpMembers(schema, reject, fields, ms, slots).Some?
    requires j < |ms| && k < |fields| && Names(fields, ms, j, k)
    ensures var w := Interp(schema, reject, fields[k].ty, ms[j].value);
            w.Some? && ObeysAll(w.value, fields[k].constraints)
    decreases |ms|
  {
    hide Interp, ObeysAll, SatisfiesAll, Decoded, FieldIndex;
    if j == 0 {
      var w := Interp(schema, reject, fields[k].ty, ms[0].value);
      assert w.Some?;
      SatisfiesAllIff(w.value, fields[k].constraints);
    } else {
      var next := InterpMember(schema, reject, fields, ms[0], slots).value;
      MemberJObeys(schema, reject, fields, ms[1..], next, j - 1, k);
    }
  }
}
