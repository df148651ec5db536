/** Objects printed without their disengaged optional fields, and what the reader makes of them. */
module JsonOmit {
  import opened Bytes
  import opened JsonString
  import opened JsonTree
  import opened JsonTypes
  import opened JsonText
  import opened JsonAgreement
  import opened JsonRoundTrip

  /** The members that are printed: all but the disengaged optionals. */
  function KeptMembers(schema: Schema, fields: seq<Field>, vs: seq<Val>): (ms: seq<Member>)
    requires FieldsHaveTypes(schema, fields, vs)
    ensures |ms| <= |vs|
    decreases vs
  {
    if vs == [] then []
    else if vs[0].NoneVal? then KeptMembers(schema, fields[1..], vs[1..])
    else
      [Member([], PiecesOf(fields[0].wire), [], [], TreeOf(schema, fields[0].ty, vs[0]), [])]
      + KeptMembers(schema, fields[1..], vs[1..])
  }

  /** The printed members, each behind a comma unless it is the first. */
  function KeptText(schema: Schema, fields: seq<Field>, vs: seq<Val>, first: bool): seq<Byte>
    requires FieldsHaveTypes(schema, fields, vs)
    decreases vs
  {
    if vs == [] then []
    else if vs[0].NoneVal? then KeptText(schema, fields[1..], vs[1..], first)
    else
      (if first then [] else [COMMA]) + WriteField(schema, fields[0], vs[0])
      + KeptText(schema, fields[1..], vs[1..], false)
  }

  // --- The text ---------------------------------------------------------------------------

  lemma KeptMemberText(schema: Schema, field: Field, v: Val)
    requires HasType(schema, field.ty, v) && Writable(schema, field.ty, v)
    ensures MemberText(Member([], PiecesOf(field.wire), [], [], TreeOf(schema, field.ty, v), []))
         == WriteField(schema, field, v)
  {
    hide TreeOf, Text, WriteText, EscapedString, StringText;
    PrintedText(schema, field.ty, v);
    PrintedStringText(field.wire);
    BareMember(PiecesOf(field.wire), TreeOf(schema, field.ty, v));
  }

  /** What stands behind the members that precede. */
  function Rest(ms: seq<Member>, first: bool): seq<Byte> {
    if first || ms == [] then MembersText(ms) else [COMMA] + MembersText(ms)
  }

  lemma RestCons(m: Member, ms: seq<Member>, first: bool)
    ensures Rest([m] + ms, first) == (if first then [] else [COMMA]) + MemberText(m) + Rest(ms, false)
  {
    hide MemberText;
    MembersTextCons(m, ms);
    Cons(m, ms);
  }

  lemma {:induction false} KeptTextIsMembersText(schema: Schema, fields: seq<Field>, vs: seq<Val>, first: bool)
    requires FieldsHaveTypes(schema, fields, vs) && FieldsWritable(schema, fields, vs)
    ensures KeptText(schema, fields, vs, first) + [CLOSE_BRACE] == Rest(KeptMembers(schema, fields, vs), first)
    decreases vs
  {
    hide WriteField, TreeOf, MemberText, Rest;
    if vs == [] {
      NothingLeft(first);
    } else if vs[0].NoneVal? {
      KeptTextIsMembersText(schema, fields[1..], vs[1..], first);
    } else {
      var m := Member([], PiecesOf(fields[0].wire), [], [], TreeOf(schema, fields[0].ty, vs[0]), []);
      KeptTextIsMembersText(schema, fields[1..], vs[1..], false);
      KeptMemberText(schema, fields[0], vs[0]);
      RestCons(m, KeptMembers(schema, fields[1..], vs[1..]), first);
      Assoc((if first then [] else [COMMA]) + MemberText(m), KeptText(schema, fields[1..], vs[1..], false),
            [CLOSE_BRACE]);
    }
  }

  lemma NothingLeft(first: bool)
    ensures [] + [CLOSE_BRACE] == Rest([], first)
  {
  }

  /** The printed object is the text of the tree of the kept members. */
  lemma KeptObjectText(schema: Schema, fields: seq<Field>, vs: seq<Val>)
    requires FieldsHaveTypes(schema, fields, vs) && FieldsWritable(schema, fields, vs)
    ensures [OPEN_BRACE] + (KeptText(schema, fields, vs, true) + [CLOSE_BRACE])
         == Text(ObjectTree([], KeptMembers(schema, fields, vs)))
  {
    KeptTextIsMembersText(schema, fields, vs, true);
    EmptyLeft(MembersText(KeptMembers(schema, fields, vs)));
  }

  /** What is printed obeys the reader's limits. */
  predicate KeptFit(limits: Limits, schema: Schema, fields: seq<Field>, vs: seq<Val>, depth: nat)
    requires FieldsHaveTypes(schema, fields, vs)
    decreases vs
  {
    vs == [] ||
    (&& (vs[0].NoneVal? || (StringFits(limits, fields[0].wire) && Fits(limits, schema, fields[0].ty, vs[0], depth)))
     && KeptFit(limits, schema, fields[1..], vs[1..], depth))
  }

  lemma {:induction false} KeptMembersFit(limits: Limits, schema: Schema, fields: seq<Field>, vs: seq<Val>, depth: nat)
    requires FieldsHaveTypes(schema, fields, vs) && FieldsWritable(schema, fields, vs)
    ensures MembersOk(limits, KeptMembers(schema, fields, vs), depth) <==> KeptFit(limits, schema, fields, vs, depth)
    decreases vs
  {
    hide TreeOk, TreeOf, Fits, StringOk, StringFits;
    if vs != [] {
      KeptMembersFit(limits, schema, fields[1..], vs[1..], depth);
      if !vs[0].NoneVal? {
        FittingTree(limits, schema, fields[0].ty, vs[0], depth);
        FittingString(limits, fields[0].wire);
        var m := Member([], PiecesOf(fields[0].wire), [], [], TreeOf(schema, fields[0].ty, vs[0]), []);
        MembersOkCons(limits, m, KeptMembers(schema, fields[1..], vs[1..]), depth);
      }
    }
  }

  // --- The meaning ------------------------------------------------------------------------

  /** Slots holding those of the first `k` values that are printed. */
  function KeptSlots(vs: seq<Val>, k: nat): (slots: Slots)
    requires k <= |vs|
    ensures |slots| == |vs|
    ensures forall i | 0 <= i < |vs| :: slots[i] == if i < k && !vs[i].NoneVal? then Some(vs[i]) else None
  {
    seq(|vs|, i requires 0 <= i < |vs| => if i < k && !vs[i].NoneVal? then Some(vs[i]) else None)
  }

  function KeptFrom(schema: Schema, fields: seq<Field>, vs: seq<Val>, k: nat): seq<Member>
    requires FieldsHaveTypes(schema, fields, vs) && k <= |vs|
  {
    FieldsFrom(schema, fields, vs, k);
    KeptMembers(schema, fields[k..], vs[k..])
  }

  lemma KeptFromStep(schema: Schema, fields: seq<Field>, vs: seq<Val>, k: nat)
    requires FieldsHaveTypes(schema, fields, vs) && k < |vs|
    ensures HasType(schema, fields[k].ty, vs[k])
    ensures KeptFrom(schema, fields, vs, k)
         == if vs[k].NoneVal? then KeptFrom(schema, fields, vs, k + 1)
            else
              [Member([], PiecesOf(fields[k].wire), [], [], TreeOf(schema, fields[k].ty, vs[k]), [])]
              + KeptFrom(schema, fields, vs, k + 1)
  {
    hide TreeOf;
    FieldsFrom(schema, fields, vs, k);
    FieldsFrom(schema, fields, vs, k + 1);
    assert fields[k..][1..] == fields[k + 1..] && vs[k..][1..] == vs[k + 1..];
  }

  lemma {:induction false} KeptMembersMeaning(
    schema: Schema, reject: bool, fields: seq<Field>, vs: seq<Val>, k: nat)
    requires SchemaOk(schema) && FieldsOk(fields)
    requires FieldsHaveTypes(schema, fields, vs) && FieldsWritable(schema, fields, vs) && k <= |vs|
    requires StableFrom(schema, fields, vs, k)
    ensures InterpMembers(schema, reject, fields, KeptFrom(schema, fields, vs, k), KeptSlots(vs, k))
         == Some(KeptSlots(vs, |vs|))
    decreases |vs| - k
  {
    hide Interp, TreeOf, SatisfiesAll, InterpMember, SchemaOk, Stable, StableFrom, KeptFrom, FieldsOk;
    if k == |vs| {
      KeptEnd(schema, reject, fields, vs);
    } else {
      KeptFromStep(schema, fields, vs, k);
      StableFromStep(schema, fields, vs, k);
      KeptMembersMeaning(schema, reject, fields, vs, k + 1);
      if vs[k].NoneVal? {
        assert KeptSlots(vs, k) == KeptSlots(vs, k + 1);
      } else {
        KeptMemberMeaning(schema, reject, fields, vs, k);
        var m := Member([], PiecesOf(fields[k].wire), [], [], TreeOf(schema, fields[k].ty, vs[k]), []);
        InterpMembersCons(schema, reject, fields, m, KeptFrom(schema, fields, vs, k + 1), KeptSlots(vs, k));
      }
    }
  }

  lemma KeptEnd(schema: Schema, reject: bool, fields: seq<Field>, vs: seq<Val>)
    requires FieldsHaveTypes(schema, fields, vs)
    ensures InterpMembers(schema, reject, fields, KeptFrom(schema, fields, vs, |vs|), KeptSlots(vs, |vs|))
         == Some(KeptSlots(vs, |vs|))
  {
    hide TreeOf, HasType;
    assert vs[|vs|..] == [];
    FieldsFrom(schema, fields, vs, |vs|);
  }

  lemma KeptMemberMeaning(schema: Schema, reject: bool, fields: seq<Field>, vs: seq<Val>, k: nat)
    requires SchemaOk(schema) && FieldsOk(fields)
    requires FieldsHaveTypes(schema, fields, vs) && FieldsWritable(schema, fields, vs) && k < |vs|
    requires StableFrom(schema, fields, vs, k) && !vs[k].NoneVal?
    ensures HasType(schema, fields[k].ty, vs[k])
    ensures var m := Member([], PiecesOf(fields[k].wire), [], [], TreeOf(schema, fields[k].ty, vs[k]), []);
            InterpMember(schema, reject, fields, m, KeptSlots(vs, k)) == Some(KeptSlots(vs, k + 1))
  {
    hide Interp, TreeOf, SatisfiesAll, InterpMember, SchemaOk, Stable, StableFrom, Writable;
    StableFromStep(schema, fields, vs, k);
    WritableAt(schema, fields, vs, k);
    PrintedMember(schema, reject, fields, vs, k, KeptSlots(vs, k));
    MeaningOfPrinted(schema, reject, fields[k].ty, vs[k]);
    assert KeptSlots(vs, k)[k := Some(vs[k])] == KeptSlots(vs, k + 1);
  }

  lemma KeptFinish(fields: seq<Field>, vs: seq<Val>)
    requires |fields| == |vs| && forall k | 0 <= k < |vs| && vs[k].NoneVal? :: fields[k].ty.OptionalTy?
    ensures Finish(fields, KeptSlots(vs, |vs|)) == Some(vs)
  {
    var slots := KeptSlots(vs, |vs|);
    FinishedFields(fields, slots);
    assert forall k | 0 <= k < |vs| :: FieldValue(fields[k], slots[k]) == Some(vs[k]);
    assert Finish(fields, slots).value == vs;
  }

  /** The missing members are read as the disengaged optionals they were. */
  lemma KeptObjectMeaning(schema: Schema, reject: bool, name: string, vs: seq<Val>)
    requires SchemaOk(schema)
    requires FieldsHaveTypes(schema, FieldsOf(schema, name), vs) && FieldsWritable(schema, FieldsOf(schema, name), vs)
    requires FieldsStable(schema, FieldsOf(schema, name), vs)
    requires forall k | 0 <= k < |vs| && vs[k].NoneVal? :: FieldsOf(schema, name)[k].ty.OptionalTy?
    ensures Interp(schema, reject, ObjectTy(name), ObjectTree([], KeptMembers(schema, FieldsOf(schema, name), vs)))
         == Some(ObjectVal(vs))
  {
    hide TreeOf, SatisfiesAll, InterpMember, Stable, Writable, FieldsOk;
    var fields := FieldsOf(schema, name);
    SchemaFields(schema, name);
    assert fields[0..] == fields && vs[0..] == vs;
    assert NoSlots(fields) == KeptSlots(vs, 0);
    KeptMembersMeaning(schema, reject, fields, vs, 0);
    KeptFinish(fields, vs);
  }
}
