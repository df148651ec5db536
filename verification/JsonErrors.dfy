/** What the errors of the reader mean: which member is refused and where, and what stands at the offset. */
module JsonErrors {
  import opened Bytes
  import opened JsonString
  import opened JsonTree
  import opened JsonTypes
  import opened JsonReader
  import opened JsonAgreement
  import opened JsonConstraints

  // --- The first refused member -----------------------------------------------------------

  /** Members, each with the comma behind it. */
  function PrefixText(ms: seq<Member>): seq<Byte> {
    if ms == [] then [] else MemberText(ms[0]) + ([COMMA] + PrefixText(ms[1..]))
  }

  /** The offset of the value of a member that stands at `p`. */
  function ValueAt(p: nat, m: Member): nat {
    p + |m.lead| + |StringText(m.key)| + |m.middle| + 1 + |m.inner|
  }

  /** A member that stands at `p`, with a comma or the closing brace behind it. */
  predicate MemberAt(s: seq<Byte>, limits: Limits, p: nat, depth: nat, m: Member) {
    && MemberOk(limits, m, depth) && HasAt(s, p, MemberText(m))
    && (At(s, p + |MemberText(m)|) == COMMA || At(s, p + |MemberText(m)|) == CLOSE_BRACE)
  }

  lemma MemberIsScanned(s: seq<Byte>, limits: Limits, p: nat, depth: nat, m: Member)
    requires MemberAt(s, limits, p, depth, m)
    ensures p <= |s| && ParseMember(s, limits, p, depth) == Ok(m, p + |MemberText(m)|)
  {
    hide HasAt, MemberOk, MemberText, ParseMember;
    ParseMemberComplete(s, limits, p, depth, m);
  }

  /** The lengths of the parts of a scanned member. */
  lemma MemberLengths(s: seq<Byte>, limits: Limits, p: nat, depth: nat, m: Member, next: nat)
    requires p <= |s| && ParseMember(s, limits, p, depth) == Ok(m, next)
    ensures var q := SkipBlank(s, p);
            var key := ParseString(s, limits, q);
            && |m.lead| == q - p && key.Ok? && key.value == m.key
            && var colon := SkipBlank(s, key.next);
            && At(s, colon) == COLON && colon < |s| && |m.middle| == colon - key.next
            && var start := SkipBlank(s, colon + 1);
            && |m.inner| == start - (colon + 1)
            && ParseTree(s, limits, start, depth).Ok? && ParseTree(s, limits, start, depth).value == m.value
  {
    hide ParseString, ParseTree, SkipBlank;
  }

  /** Where the parts of a scanned member stand. */
  lemma MemberOffsets(s: seq<Byte>, limits: Limits, p: nat, depth: nat, m: Member, next: nat)
    requires p <= |s| && ParseMember(s, limits, p, depth) == Ok(m, next)
    ensures var key := ParseString(s, limits, SkipBlank(s, p));
            && key.Ok? && key.value == m.key
            && var colon := SkipBlank(s, key.next);
            && At(s, colon) == COLON && colon < |s|
            && SkipBlank(s, colon + 1) == ValueAt(p, m) <= |s|
    ensures var t := ParseTree(s, limits, ValueAt(p, m), depth); t.Ok? && t.value == m.value
  {
    hide ParseString, ParseTree, ParseMember, StringText, StringOk, SkipBlank, HasAt;
    MemberLengths(s, limits, p, depth, m, next);
    ParseStringSound(s, limits, SkipBlank(s, p));
  }

  /** Reading a member that is scanned comes to its value at the offset of the value. */
  lemma MemberIsRead(
    s: seq<Byte>, limits: Limits, schema: Schema, fields: seq<Field>, p: nat, depth: nat, slots: Slots, m: Member,
    next: nat)
    requires p <= |s| && |slots| == |fields| && ParseMember(s, limits, p, depth) == Ok(m, next)
    ensures ValueAt(p, m) <= |s| && SkipBlank(s, ValueAt(p, m)) == ValueAt(p, m)
    ensures var r := ReadMember(s, limits, schema, fields, SkipBlank(s, p), depth, slots);
            var known := ReadNamedField(s, limits, schema, fields, Decoded(m.key), ValueAt(p, m), depth, slots);
            && (known.Err? ==> r == known.Fail())
            && (known.Ok? && known.value.None? && limits.rejectUnknown ==> r == Err(UnknownField, ValueAt(p, m)))
    ensures var t := ParseTree(s, limits, ValueAt(p, m), depth); t.Ok? && t.value == m.value
  {
    hide ParseString, ParseTree, ParseMember, ReadNamedField, StringText, SkipBlank, ValueAt, PiecesValue, AllOk;
    MemberOffsets(s, limits, p, depth, m, next);
    var key := ParseString(s, limits, SkipBlank(s, p));
    SkipBlankTwice(s, SkipBlank(s, key.next) + 1);
  }

  /** Why a member is refused, given the slots that are filled; None when it is not. */
  ghost function Fault(
    s: seq<Byte>, limits: Limits, schema: Schema, fields: seq<Field>, p: nat, depth: nat, slots: Slots, m: Member)
    : (fault: Option<(Code, nat)>)
    requires ValueAt(p, m) <= |s| && |slots| == |fields|
  {
    var i := FieldIndex(fields, Decoded(m.key));
    if i.None? then (if limits.rejectUnknown then Some((UnknownField, ValueAt(p, m))) else None)
    else if slots[i.value].Some? then Some((DuplicateField, ValueAt(p, m)))
    else
      var v := Interp(schema, limits.rejectUnknown, fields[i.value].ty, m.value);
      var r := ReadValue(s, limits, schema, fields[i.value].ty, ValueAt(p, m), depth);
      if v.None? then (if r.Err? then Some((r.code, r.offset)) else None)
      else if !ObeysAll(v.value, fields[i.value].constraints) then Some((ConstraintFailed, ValueAt(p, m)))
      else None
  }

  /**
   A member is refused because its name is unknown, or was there before, at the offset of its value; with the error of
   its value, when that has no meaning at the type of the field; or because its value violates a constraint.
   */
  lemma MemberRefusedIff(
    s: seq<Byte>, limits: Limits, schema: Schema, fields: seq<Field>, p: nat, depth: nat, slots: Slots, m: Member)
    requires MemberAt(s, limits, p, depth, m) && |slots| == |fields|
    ensures p <= |s| && ValueAt(p, m) <= |s|
    ensures var r := ReadMember(s, limits, schema, fields, SkipBlank(s, p), depth, slots);
            match Fault(s, limits, schema, fields, p, depth, slots, m)
            case Some(fault) => r == Err(fault.0, fault.1)
            case None => r.Ok? && r.next == p + |MemberText(m)|
                         && Some(r.value) == InterpMember(schema, limits.rejectUnknown, fields, m, slots)
  {
    hide MemberAt, ParseMember, ReadMember, ParseTree, Interp, ReadValue, SatisfiesAll, ObeysAll, MemberText;
    MemberIsScanned(s, limits, p, depth, m);
    MemberIsRead(s, limits, schema, fields, p, depth, slots, m, p + |MemberText(m)|);
    ReadMemberMeaning(s, limits, schema, fields, p, depth, slots);
    var i := FieldIndex(fields, Decoded(m.key));
    if i.Some? {
      var v := Interp(schema, limits.rejectUnknown, fields[i.value].ty, m.value);
      ReadValueMeaning(s, limits, schema, fields[i.value].ty, ValueAt(p, m), depth);
      if v.Some? {
        SatisfiesAllIff(v.value, fields[i.value].constraints);
      }
    }
  }

  lemma PrefixFront(s: seq<Byte>, limits: Limits, p: nat, depth: nat, ms: seq<Member>)
    requires ms != [] && MembersOk(limits, ms, depth) && HasAt(s, p, PrefixText(ms))
    ensures var next := p + |MemberText(ms[0])|;
            && MemberAt(s, limits, p, depth, ms[0])
            && next < |s| && At(s, next) == COMMA && HasAt(s, next + 1, PrefixText(ms[1..]))
  {
    hide HasAt, MemberOk, MemberText;
    var next := p + |MemberText(ms[0])|;
    HasAtConcat(s, p, MemberText(ms[0]), [COMMA] + PrefixText(ms[1..]));
    HasAtConcat(s, next, [COMMA], PrefixText(ms[1..]));
    HasAtByte(s, next, COMMA);
  }

  /** One accepted member with a comma behind it is passed over. */
  lemma MemberIsPassed(
    s: seq<Byte>, limits: Limits, schema: Schema, fields: seq<Field>, p: nat, depth: nat, n: nat, slots: Slots,
    m: Member, after: Slots)
    requires p <= |s| && |slots| == |fields| && n < limits.objectMembers
    requires MemberAt(s, limits, p, depth + 1, m) && At(s, p + |MemberText(m)|) == COMMA
    requires InterpMember(schema, limits.rejectUnknown, fields, m, slots) == Some(after)
    requires |after| == |fields| && p + |MemberText(m)| < |s|
    ensures ReadMembers(s, limits, schema, fields, SkipBlank(s, p), depth, n, slots)
         == ReadMembers(s, limits, schema, fields, SkipBlank(s, p + |MemberText(m)| + 1), depth, n + 1, after)
  {
    hide MemberAt, MemberText, ReadMember, ParseMember, InterpMember, SkipBlank;
    MemberIsScanned(s, limits, p, depth + 1, m);
    ReadMemberMeaning(s, limits, schema, fields, p, depth + 1, slots);
  }

  /** Members that are accepted are passed over one by one. */
  lemma {:induction false} PrefixIsRead(
    s: seq<Byte>, limits: Limits, schema: Schema, fields: seq<Field>, p: nat, depth: nat, n: nat, slots: Slots,
    ms: seq<Member>)
    requires p <= |s| && |slots| == |fields| && n + |ms| <= limits.objectMembers
    requires MembersOk(limits, ms, depth + 1) && HasAt(s, p, PrefixText(ms))
    requires InterpMembers(schema, limits.rejectUnknown, fields, ms, slots).Some?
    ensures p + |PrefixText(ms)| <= |s|
    ensures var all := InterpMembers(schema, limits.rejectUnknown, fields, ms, slots).value;
            ReadMembers(s, limits, schema, fields, SkipBlank(s, p), depth, n, slots)
            == ReadMembers(
                 s, limits, schema, fields, SkipBlank(s, p + |PrefixText(ms)|), depth, n + |ms|, all)
    decreases |ms|
  {
    hide HasAt, MemberAt, MemberOk, MemberText, ReadMembers, InterpMember, SkipBlank;
    if ms != [] {
      PrefixFront(s, limits, p, depth + 1, ms);
      var next := p + |MemberText(ms[0])|;
      var after := InterpMember(schema, limits.rejectUnknown, fields, ms[0], slots).value;
      MemberIsPassed(s, limits, schema, fields, p, depth, n, slots, ms[0], after);
      PrefixIsRead(s, limits, schema, fields, next + 1, depth, n + 1, after, ms[1..]);
    }
  }

  /** The slots that the members before a refused one have filled. */
  function Filled(schema: Schema, reject: bool, fields: seq<Field>, ms: seq<Member>): (slots: Slots)
    ensures |slots| == |fields|
  {
    var r := InterpMembers(schema, reject, fields, ms, NoSlots(fields));
    if r.Some? then r.value else NoSlots(fields)
  }

  /**
   The first refused member decides the error of an object, whatever stands behind it: members `ms` that are accepted,
   then a member `m` with a fault.
   */
  lemma FirstRefusedMember(
    s: seq<Byte>, limits: Limits, schema: Schema, fields: seq<Field>, p: nat, depth: nat, ms: seq<Member>, m: Member)
    requires p < |s| && s[p] == OPEN_BRACE && depth < limits.depth && |ms| < limits.objectMembers
    requires MembersOk(limits, ms, depth + 1) && HasAt(s, p + 1, PrefixText(ms))
    requires InterpMembers(schema, limits.rejectUnknown, fields, ms, NoSlots(fields)).Some?
    requires MemberAt(s, limits, p + 1 + |PrefixText(ms)|, depth + 1, m)
    ensures var q := p + 1 + |PrefixText(ms)|;
            && ValueAt(q, m) <= |s|
            && var fault := Fault(s, limits, schema, fields, q, depth + 1,
                                  Filled(schema, limits.rejectUnknown, fields, ms), m);
            fault.Some? ==>
              ReadObject(s, limits, schema, fields, p, depth) == Err(fault.value.0, fault.value.1)
  {
    hide HasAt, MemberAt, MembersOk, MemberText, ReadMember, ReadMembers, InterpMembers, SkipBlank, Fault, Finish;
    hide PrefixText;
    var q := p + 1 + |PrefixText(ms)|;
    var slots := Filled(schema, limits.rejectUnknown, fields, ms);
    PrefixIsRead(s, limits, schema, fields, p + 1, depth, 0, NoSlots(fields), ms);
    MemberRefusedIff(s, limits, schema, fields, q, depth + 1, slots, m);
    NotClosed(s, limits, p + 1, depth + 1, ms, m);
    MemberStops(s, limits, schema, fields, SkipBlank(s, q), depth, |ms|, slots);
  }

  lemma MemberStops(
    s: seq<Byte>, limits: Limits, schema: Schema, fields: seq<Field>, p: nat, depth: nat, n: nat, slots: Slots)
    requires p <= |s| && |slots| == |fields| && n < limits.objectMembers
    ensures var member := ReadMember(s, limits, schema, fields, p, depth + 1, slots);
            member.Err? ==> ReadMembers(s, limits, schema, fields, p, depth, n, slots) == member
  {
    hide ReadMember;
  }

  /** Behind the opening brace stands a key, not the closing brace. */
  lemma NotClosed(s: seq<Byte>, limits: Limits, p: nat, depth: nat, ms: seq<Member>, m: Member)
    requires p <= |s| && MembersOk(limits, ms, depth) && HasAt(s, p, PrefixText(ms))
    requires MemberAt(s, limits, p + |PrefixText(ms)|, depth, m)
    ensures At(s, SkipBlank(s, p)) == QUOTE
  {
    hide HasAt, MemberOk, MemberText, SkipBlank, ParseTree, MemberAt;
    if ms != [] {
      PrefixFront(s, limits, p, depth, ms);
      MemberIsScanned(s, limits, p, depth, ms[0]);
    } else {
      MemberIsScanned(s, limits, p, depth, m);
    }
  }

  /** So does a member too many, at its key. */
  lemma TooManyMembers(
    s: seq<Byte>, limits: Limits, schema: Schema, fields: seq<Field>, p: nat, depth: nat, ms: seq<Member>, m: Member)
    requires p < |s| && s[p] == OPEN_BRACE && depth < limits.depth && |ms| == limits.objectMembers
    requires MembersOk(limits, ms, depth + 1) && HasAt(s, p + 1, PrefixText(ms))
    requires InterpMembers(schema, limits.rejectUnknown, fields, ms, NoSlots(fields)).Some?
    requires MemberAt(s, limits, p + 1 + |PrefixText(ms)|, depth + 1, m)
    ensures var key := SkipBlank(s, p + 1 + |PrefixText(ms)|);
            ReadObject(s, limits, schema, fields, p, depth) == Err(ObjectTooLarge, key)
  {
    hide HasAt, MemberAt, MembersOk, MemberText, ReadMember, InterpMembers, SkipBlank, Finish, PrefixText;
    PrefixIsRead(s, limits, schema, fields, p + 1, depth, 0, NoSlots(fields), ms);
    NotClosed(s, limits, p + 1, depth + 1, ms, m);
  }

  /** The text of an outermost object that starts with accepted members and a refused one is refused for it. */
  lemma RefusedMember(
    s: seq<Byte>, limits: Limits, schema: Schema, name: string, lead: seq<Byte>, ms: seq<Member>, m: Member)
    requires |s| <= limits.inputBytes && 0 < limits.depth && |ms| < limits.objectMembers
    requires Blank(lead) && HasAt(s, 0, lead + ([OPEN_BRACE] + PrefixText(ms)))
    requires MembersOk(limits, ms, 1)
    requires var fields := FieldsOf(schema, name);
             InterpMembers(schema, limits.rejectUnknown, fields, ms, NoSlots(fields)).Some?
    requires MemberAt(s, limits, |lead| + 1 + |PrefixText(ms)|, 1, m)
    ensures var fields := FieldsOf(schema, name);
            var q := |lead| + 1 + |PrefixText(ms)|;
            && ValueAt(q, m) <= |s|
            && var fault := Fault(s, limits, schema, fields, q, 1,
                                  Filled(schema, limits.rejectUnknown, fields, ms), m);
            fault.Some? ==>
              Read(s, limits, schema, ObjectTy(name)) == Err(fault.value.0, fault.value.1)
  {
    hide HasAt, MemberAt, MembersOk, PrefixText, InterpMembers, Fault, ReadObject, SkipBlank, Blank;
    var p := |lead|;
    HasAtConcat(s, 0, lead, [OPEN_BRACE] + PrefixText(ms));
    HasAtConcat(s, p, [OPEN_BRACE], PrefixText(ms));
    HasAtByte(s, p, OPEN_BRACE);
    BlankEnds(s, lead);
    FirstRefusedMember(s, limits, schema, FieldsOf(schema, name), p, 0, ms, m);
    NoNull(s, p);
  }

  lemma BlankEnds(s: seq<Byte>, lead: seq<Byte>)
    requires HasAt(s, 0, lead) && Blank(lead) && !IsBlank(At(s, |lead|))
    ensures SkipBlank(s, 0) == |lead|
  {
    SkipBlankIs(s, 0, lead);
  }

  lemma NoNull(s: seq<Byte>, p: nat)
    requires p < |s| && s[p] == OPEN_BRACE
    ensures !HasAt(s, p, NULL_TEXT)
  {
    if HasAt(s, p, NULL_TEXT) {
      HasAtIndex(s, p, NULL_TEXT, 0);
    }
  }

  // --- Missing fields ---------------------------------------------------------------------

  /** A field that no slot fills and nothing stands in for. */
  predicate Lacks(fields: seq<Field>, slots: Slots, k: nat)
    requires |slots| == |fields| && k < |fields|
  {
    slots[k].None? && !fields[k].ty.OptionalTy? && fields[k].fallback.None?
  }

  /** An object whose members are all accepted is refused, behind its brace, exactly when some field is lacking. */
  lemma MissingFieldIff(
    s: seq<Byte>, limits: Limits, schema: Schema, name: string, p: nat, depth: nat, gap: seq<Byte>, ms: seq<Member>)
    requires TreeOk(limits, ObjectTree(gap, ms), depth) && HasAt(s, p, Text(ObjectTree(gap, ms)))
    requires var fields := FieldsOf(schema, name);
             InterpMembers(schema, limits.rejectUnknown, fields, ms, NoSlots(fields)).Some?
    ensures p <= |s|
    ensures var fields := FieldsOf(schema, name);
            var slots := Filled(schema, limits.rejectUnknown, fields, ms);
            var end := p + |Text(ObjectTree(gap, ms))|;
            var r := ReadObject(s, limits, schema, fields, p, depth);
            && (r.Ok? ==> r.next == end)
            && (r.Err? ==> r == Err(MissingField, end))
            && (r.Err? <==> exists k | 0 <= k < |fields| :: Lacks(fields, slots, k))
  {
    hide HasAt, ReadMembers, ParseMembers, InterpMembers, Finish, Text, SkipBlank;
    var fields := FieldsOf(schema, name);
    var slots := Filled(schema, limits.rejectUnknown, fields, ms);
    ParseObjectComplete(s, limits, p, depth, gap, ms);
    ScanObject(s, limits, p, depth);
    ReadMembersMeaning(s, limits, schema, fields, p + 1, depth, 0, NoSlots(fields));
    ReadObjectMeaning(s, limits, schema, name, p, depth);
    LacksIff(fields, slots);
    NoMembersNoSlots(schema, limits.rejectUnknown, fields);
  }

  lemma NoMembersNoSlots(schema: Schema, reject: bool, fields: seq<Field>)
    ensures InterpMembers(schema, reject, fields, [], NoSlots(fields)) == Some(NoSlots(fields))
  {
  }

  lemma LacksIff(fields: seq<Field>, slots: Slots)
    requires |slots| == |fields|
    ensures Finish(fields, slots).None? <==> exists k | 0 <= k < |fields| :: Lacks(fields, slots, k)
  {
    FinishedFields(fields, slots);
    if k :| 0 <= k < |fields| && FieldValue(fields[k], slots[k]).None? {
      assert Lacks(fields, slots, k);
    }
    if k :| 0 <= k < |fields| && Lacks(fields, slots, k) {
      assert FieldValue(fields[k], slots[k]).None?;
    }
  }

  /** A skipped object with one member too many is refused where that member starts, whatever it is. */
  lemma {:induction false} SkippedTooLarge(
    s: seq<Byte>, limits: Limits, p: nat, depth: nat, n: nat, ms: seq<Member>)
    requires p <= |s| && MembersOk(limits, ms, depth + 1) && HasAt(s, p, PrefixText(ms))
    requires n + |ms| == limits.objectMembers
    ensures p + |PrefixText(ms)| <= |s|
    ensures ParseMembers(s, limits, p, depth, n) == Err(ObjectTooLarge, SkipBlank(s, p + |PrefixText(ms)|))
    decreases |ms|
  {
    hide HasAt, MemberAt, MemberOk, MemberText, ParseMember, SkipBlank;
    if ms != [] {
      PrefixFront(s, limits, p, depth + 1, ms);
      MemberIsScanned(s, limits, p, depth + 1, ms[0]);
      SkippedTooLarge(s, limits, p + |MemberText(ms[0])| + 1, depth, n + 1, ms[1..]);
    }
  }
}
