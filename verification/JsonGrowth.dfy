/** How much longer or shorter a text gets when what was read from it is written back. */
module JsonGrowth {
  import opened Bytes
  import opened JsonString
  import opened JsonNumber
  import opened JsonTree
  import opened JsonTypes
  import opened JsonReader
  import opened JsonAgreement
  import opened JsonText
  import opened JsonObjects
  import opened JsonComplete
  import opened Decimal

  function Excess(a: nat, b: nat): nat {
    if a > b then a - b else 0
  }

  // --- The cost of printed fields ---------------------------------------------------------

  /** Bytes one filled slot takes when printed, with its separator. */
  function SlotCost(schema: Schema, field: Field, slot: Option<Val>): nat {
    if slot.Some? && HasType(schema, field.ty, slot.value) then |WriteField(schema, field, slot.value)| + 1 else 0
  }

  function Cost(schema: Schema, fields: seq<Field>, slots: Slots): nat
    requires |slots| == |fields|
  {
    if slots == [] then 0
    else SlotCost(schema, fields[0], slots[0]) + Cost(schema, fields[1..], slots[1..])
  }

  lemma {:induction false} CostOfEmpty(schema: Schema, fields: seq<Field>, slots: Slots)
    requires |slots| == |fields| && forall k | 0 <= k < |slots| :: slots[k] == None
    ensures Cost(schema, fields, slots) == 0
  {
    if slots != [] {
      CostOfEmpty(schema, fields[1..], slots[1..]);
    }
  }

  lemma {:induction false} CostOfUpdate(schema: Schema, fields: seq<Field>, slots: Slots, i: nat, v: Val)
    requires |slots| == |fields| && i < |slots| && slots[i].None?
    ensures Cost(schema, fields, slots[i := Some(v)])
            == Cost(schema, fields, slots) + SlotCost(schema, fields[i], Some(v))
  {
    hide SlotCost;
    var after := slots[i := Some(v)];
    if i == 0 {
      assert after[1..] == slots[1..];
      assert SlotCost(schema, fields[0], None) == 0 by { NoCost(schema, fields[0]); }
    } else {
      assert after[1..] == slots[1..][i - 1 := Some(v)];
      assert fields[1..][i - 1] == fields[i] && slots[1..][i - 1] == slots[i];
      CostOfUpdate(schema, fields[1..], slots[1..], i - 1, v);
    }
  }

  lemma NoCost(schema: Schema, field: Field)
    ensures SlotCost(schema, field, None) == 0
  {
  }

  lemma WriteFieldLength(schema: Schema, field: Field, v: Val)
    requires HasType(schema, field.ty, v)
    ensures SlotCost(schema, field, Some(v)) == |EscapedString(field.wire)| + 1 + |WriteText(schema, field.ty, v)| + 1
  {
    hide EscapedString, WriteText, HasType;
  }

  // --- What a text owes and what it has to spare ------------------------------------------

  /** Bytes printed for a field that no member names: its name, a null or its default, and separators. */
  function StandInCost(schema: Schema, field: Field): nat {
    SlotCost(schema, field, FieldValue(field, None))
  }

  /** What is printed for the fields that are not named. */
  function AbsentCost(schema: Schema, fields: seq<Field>, named: seq<bool>): nat
    requires |named| == |fields|
  {
    if fields == [] then 0
    else (if named[0] then 0 else StandInCost(schema, fields[0])) + AbsentCost(schema, fields[1..], named[1..])
  }

  /** Which fields some member names. */
  function NamedOf(fields: seq<Field>, ms: seq<Member>): (named: seq<bool>)
    ensures |named| == |fields|
    ensures forall k | 0 <= k < |fields| :: named[k] == NamedBySome(fields, ms, k)
  {
    seq(|fields|, k requires 0 <= k < |fields| => NamedBySome(fields, ms, k))
  }

  /** Bytes printed for the enumerator with this name: the first one with its value is named. */
  function EnumLength(es: seq<Enumerator>, ps: seq<Piece>): nat {
    var value := EnumValue(es, Decoded(ps));
    if value.None? then 0
    else
      var name := EnumName(es, value.value);
      if name.None? then 0 else |EscapedString(name.value)|
  }

  /**
   What is printed and does not stand in the text: every field that no member names, at every depth, and what an
   enumerator is longer by when another of its value is printed. Where an empty object is filled, its first field
   needs no separator.
   */
  function Owed(schema: Schema, ty: Ty, t: Tree): nat
    decreases t, ty
  {
    match ty
    case OptionalTy(of) => if t.NullTree? then 0 else Owed(schema, of, t)
    case VectorTy(of) => if t.ArrayTree? then ElementsOwed(schema, of, t.elements) else 0
    case ArrayTy(of, _) => if t.ArrayTree? then ElementsOwed(schema, of, t.elements) else 0
    case EnumTy(es) => if t.StringTree? then Excess(EnumLength(es, t.pieces), |StringText(t.pieces)|) else 0
    case ObjectTy(name) =>
      if !t.ObjectTree? then 0
      else
        var fields := FieldsOf(schema, name);
        Excess(
          AbsentCost(schema, fields, NamedOf(fields, t.members)) + MembersOwed(schema, fields, t.members),
          if t.members == [] && fields != [] then 1 else 0)
    case _ => 0
  }

  function ElementsOwed(schema: Schema, of: Ty, es: seq<Element>): nat
    decreases es
  {
    if es == [] then 0 else Owed(schema, of, es[0].value) + ElementsOwed(schema, of, es[1..])
  }

  function MemberOwed(schema: Schema, fields: seq<Field>, m: Member): nat
    decreases m
  {
    var i := FieldIndex(fields, Decoded(m.key));
    if i.None? then 0 else Owed(schema, fields[i.value].ty, m.value)
  }

  function MembersOwed(schema: Schema, fields: seq<Field>, ms: seq<Member>): nat
    decreases ms
  {
    if ms == [] then 0 else MemberOwed(schema, fields, ms[0]) + MembersOwed(schema, fields, ms[1..])
  }

  /** How much longer a string stands in the text than it is printed. */
  function StringSpare(ps: seq<Piece>): nat {
    Excess(|StringText(ps)|, |EscapedString(Decoded(ps))|)
  }

  function IntegerSpare(n: Number, lo: int, hi: int): nat {
    if NumberOk(n) && IntegerOf(n, lo, hi).Some?
    then Excess(|NumberText(n)|, |ToChars(IntegerOf(n, lo, hi).value)|)
    else 0
  }

  /**
   What stands in the text and is not printed: white space inside the value, members that name no field, and
   spellings of strings, numbers and enumerators that are longer than the printed ones. Where an object without
   fields loses all its members, the last of them had no separator.
   */
  function Spare(schema: Schema, ty: Ty, t: Tree): nat
    decreases t, ty
  {
    match ty
    case StringTy => if t.StringTree? then StringSpare(t.pieces) else 0
    case ViewTy => if t.StringTree? then StringSpare(t.pieces) else 0
    case BoolTy => 0
    case IntTy(lo, hi) => if t.NumberTree? then IntegerSpare(t.number, lo, hi) else 0
    case EnumTy(es) => if t.StringTree? then Excess(|StringText(t.pieces)|, EnumLength(es, t.pieces)) else 0
    case OptionalTy(of) => if t.NullTree? then 0 else Spare(schema, of, t)
    case VectorTy(of) => if t.ArrayTree? then |t.gap| + ElementsSpare(schema, of, t.elements) else 0
    case ArrayTy(of, _) => if t.ArrayTree? then |t.gap| + ElementsSpare(schema, of, t.elements) else 0
    case ObjectTy(name) =>
      if !t.ObjectTree? then 0
      else
        var fields := FieldsOf(schema, name);
        |t.gap| + Excess(MembersSpare(schema, fields, t.members), if t.members != [] && fields == [] then 1 else 0)
  }

  function ElementsSpare(schema: Schema, of: Ty, es: seq<Element>): nat
    decreases es
  {
    if es == [] then 0
    else |es[0].lead| + Spare(schema, of, es[0].value) + |es[0].trail| + ElementsSpare(schema, of, es[1..])
  }

  function MemberSpare(schema: Schema, fields: seq<Field>, m: Member): nat
    decreases m
  {
    var i := FieldIndex(fields, Decoded(m.key));
    if i.None? then |MemberText(m)| + 1
    else
      |m.lead| + StringSpare(m.key) + |m.middle| + |m.inner| + Spare(schema, fields[i.value].ty, m.value) + |m.trail|
  }

  function MembersSpare(schema: Schema, fields: seq<Field>, ms: seq<Member>): nat
    decreases ms
  {
    if ms == [] then 0 else MemberSpare(schema, fields, ms[0]) + MembersSpare(schema, fields, ms[1..])
  }

  // --- Lengths of texts -------------------------------------------------------------------

  lemma ElementTextLength(e: Element)
    ensures |ElementText(e)| == |e.lead| + |Text(e.value)| + |e.trail|
  {
    hide Text;
  }

  lemma MemberTextLength(m: Member)
    ensures |MemberText(m)|
         == |m.lead| + |StringText(m.key)| + |m.middle| + 1 + |m.inner| + |Text(m.value)| + |m.trail|
  {
    hide StringText, Text;
  }

  lemma ElementsTextLength(es: seq<Element>)
    requires es != []
    ensures |ElementsText(es)| == |ElementText(es[0])| + 1 + if |es| == 1 then 0 else |ElementsText(es[1..])|
  {
    hide ElementText;
  }

  lemma WriteItemsLength(schema: Schema, of: Ty, v: Val, rest: seq<Val>)
    requires HasType(schema, of, v) && HaveType(schema, of, rest)
    ensures HaveType(schema, of, [v] + rest)
    ensures |WriteItems(schema, of, [v] + rest)|
         == |WriteText(schema, of, v)| + if rest == [] then 0 else 1 + |WriteItems(schema, of, rest)|
  {
    hide HasType, WriteText;
    Cons(v, rest);
  }

  lemma NoItemsText(schema: Schema, of: Ty)
    ensures WriteItems(schema, of, []) == [] && ElementsText([]) == [CLOSE_BRACKET]
  {
  }

  lemma ObjectTextLength(gap: seq<Byte>, ms: seq<Member>)
    ensures |Text(ObjectTree(gap, ms))| == 1 + |gap| + |MembersText(ms)|
    ensures |MembersText(ms)| == if ms == [] then 1 else TotalLength(ms)
  {
    hide MemberText;
    TotalLengthOfText(ms);
  }

  // --- The balance ------------------------------------------------------------------------

  /** A declared default has the type of its field, which the compiler sees to. */
  predicate DefaultTyped(schema: Schema, field: Field) {
    !field.ty.OptionalTy? && field.fallback.Some? ==> HasType(schema, field.ty, field.fallback.value)
  }

  predicate DefaultsTyped(schema: Schema) {
    forall name, k | name in schema && 0 <= k < |schema[name]| :: DefaultTyped(schema, schema[name][k])
  }

  lemma DefaultsOfFields(schema: Schema, name: string)
    requires DefaultsTyped(schema)
    ensures forall k | 0 <= k < |FieldsOf(schema, name)| :: DefaultTyped(schema, FieldsOf(schema, name)[k])
  {
  }

  /** What the text has to spare is not printed, what it owes is printed, and the rest is printed as it stands. */
  predicate Balanced(schema: Schema, ty: Ty, t: Tree, v: Val) {
    HasType(schema, ty, v) && |WriteText(schema, ty, v)| + Spare(schema, ty, t) == |Text(t)| + Owed(schema, ty, t)
  }

  lemma BalanceOfString(ps: seq<Piece>)
    ensures |EscapedString(Decoded(ps))| + StringSpare(ps) == |StringText(ps)|
  {
    hide PiecesText;
    if AllOk(ps) {
      StringNeverGrows(ps);
    }
  }

  lemma BalanceOfLeaf(limits: Limits, schema: Schema, reject: bool, ty: Ty, t: Tree, depth: nat)
    requires TreeOk(limits, t, depth) && Interp(schema, reject, ty, t).Some?
    requires ty.StringTy? || ty.ViewTy? || ty.BoolTy? || ty.IntTy? || ty.EnumTy?
    ensures Balanced(schema, ty, t, Interp(schema, reject, ty, t).value)
  {
    hide EscapedString, StringText, NumberOk, NumberText, StringSpare;
    match ty
    case StringTy => BalanceOfString(t.pieces);
    case ViewTy => BalanceOfString(t.pieces);
    case BoolTy =>
    case IntTy(lo, hi) => IntegerNeverGrows(t.number, lo, hi);
    case EnumTy(es) => EnumIsNamed(es, Decoded(t.pieces));
  }

  /**
   Writing back what a tree means: the printed text and what the tree has to spare are together exactly as long as
   the text of the tree and what it owes.
   */
  lemma {:induction false} Balance(limits: Limits, schema: Schema, reject: bool, ty: Ty, t: Tree, depth: nat)
    requires TreeOk(limits, t, depth)
    requires DefaultsTyped(schema) || Complete(schema, ty, t)
    requires Interp(schema, reject, ty, t).Some?
    ensures Balanced(schema, ty, t, Interp(schema, reject, ty, t).value)
    decreases t, 1, ty, 1
  {
    hide DefaultsTyped, Balanced, InterpElements, InterpMembers, Finish;
    match ty
    case OptionalTy(of) => BalanceOfOptional(limits, schema, reject, of, t, depth);
    case VectorTy(of) => BalanceOfArray(limits, schema, reject, ty, of, t, depth);
    case ArrayTy(of, _) => BalanceOfArray(limits, schema, reject, ty, of, t, depth);
    case ObjectTy(name) => BalanceOfObject(limits, schema, reject, name, t, depth);
    case _ => BalanceOfLeaf(limits, schema, reject, ty, t, depth);
  }

  lemma {:induction false} BalanceOfOptional(
    limits: Limits, schema: Schema, reject: bool, of: Ty, t: Tree, depth: nat)
    requires TreeOk(limits, t, depth)
    requires DefaultsTyped(schema) || Complete(schema, OptionalTy(of), t)
    requires Interp(schema, reject, OptionalTy(of), t).Some?
    ensures Balanced(schema, OptionalTy(of), t, Interp(schema, reject, OptionalTy(of), t).value)
    decreases t, 1, OptionalTy(of), 0
  {
    hide DefaultsTyped, TreeOk;
    if !t.NullTree? {
      Balance(limits, schema, reject, of, t, depth);
    }
  }

  lemma {:induction false} BalanceOfArray(
    limits: Limits, schema: Schema, reject: bool, ty: Ty, of: Ty, t: Tree, depth: nat)
    requires TreeOk(limits, t, depth)
    requires DefaultsTyped(schema) || Complete(schema, ty, t)
    requires ty == VectorTy(of) || (ty.ArrayTy? && ty.of == of)
    requires Interp(schema, reject, ty, t).Some?
    ensures Balanced(schema, ty, t, Interp(schema, reject, ty, t).value)
    decreases t, 0
  {
    hide DefaultsTyped, ElementsText, WriteItems, ElementsSpare, ElementsOwed;
    BalanceOfElements(limits, schema, reject, of, t.elements, depth + 1);
  }

  predicate ItemsBalanced(schema: Schema, of: Ty, es: seq<Element>, vs: seq<Val>) {
    && HaveType(schema, of, vs)
    && |WriteItems(schema, of, vs)| + 1 + ElementsSpare(schema, of, es)
       == |ElementsText(es)| + ElementsOwed(schema, of, es)
  }

  lemma ItemsBalancedStep(schema: Schema, of: Ty, es: seq<Element>, v: Val, rest: seq<Val>)
    requires es != [] && |es[1..]| == |rest|
    requires Balanced(schema, of, es[0].value, v) && ItemsBalanced(schema, of, es[1..], rest)
    ensures ItemsBalanced(schema, of, es, [v] + rest)
  {
    hide Text, ElementText, HasType, HaveType, WriteText, WriteItems, ElementsText, Spare, Owed;
    ElementTextLength(es[0]);
    ElementsTextLength(es);
    WriteItemsLength(schema, of, v, rest);
    if rest == [] {
      NoItemsText(schema, of);
    }
  }

  lemma {:induction false} BalanceOfElements(
    limits: Limits, schema: Schema, reject: bool, of: Ty, es: seq<Element>, depth: nat)
    requires ElementsOk(limits, es, depth)
    requires DefaultsTyped(schema) || ElementsComplete(schema, of, es)
    requires InterpElements(schema, reject, of, es).Some?
    ensures ItemsBalanced(schema, of, es, InterpElements(schema, reject, of, es).value)
    decreases es
  {
    hide DefaultsTyped, TreeOk, Interp, Complete, Balanced, ItemsBalanced;
    if es == [] {
      NoItemsBalanced(schema, of);
    } else {
      var v := Interp(schema, reject, of, es[0].value).value;
      var rest := InterpElements(schema, reject, of, es[1..]).value;
      Balance(limits, schema, reject, of, es[0].value, depth);
      BalanceOfElements(limits, schema, reject, of, es[1..], depth);
      ItemsBalancedStep(schema, of, es, v, rest);
    }
  }

  lemma NoItemsBalanced(schema: Schema, of: Ty)
    ensures ItemsBalanced(schema, of, [], [])
  {
    NoItemsText(schema, of);
  }

  // --- Objects ----------------------------------------------------------------------------

  predicate TypedSlots(schema: Schema, fields: seq<Field>, slots: Slots)
    requires |slots| == |fields|
  {
    forall k | 0 <= k < |slots| :: slots[k].Some? ==> HasType(schema, fields[k].ty, slots[k].value)
  }

  /** What reading the members put into the slots, in bytes. */
  lemma {:induction false} BalanceOfMember(
    limits: Limits, schema: Schema, reject: bool, fields: seq<Field>, m: Member, slots: Slots, depth: nat)
    requires |slots| == |fields|
    requires MemberOk(limits, m, depth) && (DefaultsTyped(schema) || MemberComplete(schema, fields, m))
    requires TypedSlots(schema, fields, slots)
    requires InterpMember(schema, reject, fields, m, slots).Some?
    ensures var next := InterpMember(schema, reject, fields, m, slots).value;
            && TypedSlots(schema, fields, next)
            && Cost(schema, fields, next) + MemberSpare(schema, fields, m)
               == Cost(schema, fields, slots) + |MemberText(m)| + 1 + MemberOwed(schema, fields, m)
    decreases m
  {
    hide DefaultsTyped, TreeOk, Text, MemberText, StringText, EscapedString, WriteText, SlotCost, Cost;
    hide HasType, Interp, SatisfiesAll, Complete, Spare, Owed, StringSpare;
    var i := FieldIndex(fields, Decoded(m.key));
    if i.Some? {
      var field := fields[i.value];
      var v := Interp(schema, reject, field.ty, m.value).value;
      Balance(limits, schema, reject, field.ty, m.value, depth);
      BalanceOfString(m.key);
      MemberTextLength(m);
      WriteFieldLength(schema, field, v);
      CostOfUpdate(schema, fields, slots, i.value, v);
    }
  }

  lemma {:induction false} BalanceOfMembers(
    limits: Limits, schema: Schema, reject: bool, fields: seq<Field>, ms: seq<Member>, slots: Slots, depth: nat)
    requires |slots| == |fields|
    requires MembersOk(limits, ms, depth) && (DefaultsTyped(schema) || MembersComplete(schema, fields, ms))
    requires TypedSlots(schema, fields, slots)
    requires InterpMembers(schema, reject, fields, ms, slots).Some?
    ensures var all := InterpMembers(schema, reject, fields, ms, slots).value;
            && TypedSlots(schema, fields, all)
            && Cost(schema, fields, all) + MembersSpare(schema, fields, ms)
               == Cost(schema, fields, slots) + TotalLength(ms) + MembersOwed(schema, fields, ms)
    decreases ms
  {
    hide DefaultsTyped, MemberComplete, MemberOk, MemberText, TypedSlots, Cost;
    hide InterpMember, MemberSpare, MemberOwed;
    if ms != [] {
      var next := InterpMember(schema, reject, fields, ms[0], slots).value;
      BalanceOfMember(limits, schema, reject, fields, ms[0], slots, depth);
      BalanceOfMembers(limits, schema, reject, fields, ms[1..], next, depth);
    }
  }

  /** The fields of a finished object cost what the filled slots cost and what stands in for the others. */
  lemma {:induction false} BalanceOfFinish(schema: Schema, fields: seq<Field>, slots: Slots, named: seq<bool>)
    requires |slots| == |fields| == |named| && Finish(fields, slots).Some?
    requires forall k | 0 <= k < |fields| :: slots[k].Some? <==> named[k]
    requires TypedSlots(schema, fields, slots)
    requires forall k | 0 <= k < |fields| :: named[k] || DefaultTyped(schema, fields[k])
    ensures var vs := Finish(fields, slots).value;
            && FieldsHaveTypes(schema, fields, vs)
            && |WriteFields(schema, fields, vs)| + (if vs == [] then 0 else 1)
               == Cost(schema, fields, slots) + AbsentCost(schema, fields, named)
    decreases |fields|
  {
    hide WriteField, HasType, DefaultTyped, FieldValue;
    if fields != [] {
      forall k | 0 <= k < |fields[1..]|
        ensures slots[1..][k].Some? <==> named[1..][k]
        ensures slots[1..][k].Some? ==> HasType(schema, fields[1..][k].ty, slots[1..][k].value)
        ensures named[1..][k] || DefaultTyped(schema, fields[1..][k])
      {
        assert slots[1..][k] == slots[k + 1] && named[1..][k] == named[k + 1] && fields[1..][k] == fields[k + 1];
      }
      BalanceOfFinish(schema, fields[1..], slots[1..], named[1..]);
      var v, rest := FieldValue(fields[0], slots[0]).value, Finish(fields[1..], slots[1..]).value;
      FieldBalance(schema, fields[0], slots[0]);
      Cons(v, rest);
    }
  }

  lemma FieldBalance(schema: Schema, field: Field, slot: Option<Val>)
    requires FieldValue(field, slot).Some?
    requires if slot.Some? then HasType(schema, field.ty, slot.value) else DefaultTyped(schema, field)
    ensures HasType(schema, field.ty, FieldValue(field, slot).value)
    ensures |WriteField(schema, field, FieldValue(field, slot).value)| + 1
         == SlotCost(schema, field, slot) + if slot.Some? then 0 else StandInCost(schema, field)
  {
    hide WriteField;
  }

  lemma ObjectFinishes(schema: Schema, reject: bool, name: string, t: Tree, slots: Slots)
    requires Interp(schema, reject, ObjectTy(name), t).Some?
    requires DefaultsTyped(schema) || Complete(schema, ObjectTy(name), t)
    requires |slots| == |FieldsOf(schema, name)| && TypedSlots(schema, FieldsOf(schema, name), slots)
    requires InterpMembers(schema, reject, FieldsOf(schema, name), t.members, NoSlots(FieldsOf(schema, name)))
             == Some(slots)
    ensures var fields := FieldsOf(schema, name);
            var vs := Finish(fields, slots).value;
            && FieldsHaveTypes(schema, fields, vs)
            && |WriteFields(schema, fields, vs)| + (if vs == [] then 0 else 1)
               == Cost(schema, fields, slots) + AbsentCost(schema, fields, NamedOf(fields, t.members))
  {
    hide DefaultsTyped, InterpMembers, Finish, NamedBySome, MembersComplete, Cost, AbsentCost, DefaultTyped, TypedSlots;
    hide FieldsHaveTypes, WriteFields;
    var fields := FieldsOf(schema, name);
    var named := NamedOf(fields, t.members);
    forall k | 0 <= k < |fields|
      ensures slots[k].Some? <==> named[k]
      ensures named[k] || DefaultTyped(schema, fields[k])
    {
      FilledIsNamed(schema, reject, fields, t.members, k);
      if DefaultsTyped(schema) {
        DefaultsOfFields(schema, name);
      }
    }
    BalanceOfFinish(schema, fields, slots, named);
  }

  lemma {:induction false} BalanceOfObject(
    limits: Limits, schema: Schema, reject: bool, name: string, t: Tree, depth: nat)
    requires TreeOk(limits, t, depth)
    requires DefaultsTyped(schema) || Complete(schema, ObjectTy(name), t)
    requires Interp(schema, reject, ObjectTy(name), t).Some?
    ensures Balanced(schema, ObjectTy(name), t, Interp(schema, reject, ObjectTy(name), t).value)
    decreases t, 0
  {
    hide DefaultsTyped, MembersComplete, AllNamed, MembersText, Cost, TotalLength;
    hide InterpMember, Finish, NoSlots, MembersOk, TypedSlots, AbsentCost, NamedOf, MembersSpare, MembersOwed;
    hide FieldsHaveTypes, WriteFields, InterpMembers;
    var fields := FieldsOf(schema, name);
    var slots := InterpMembers(schema, reject, fields, t.members, NoSlots(fields)).value;
    EmptySlots(schema, fields);
    BalanceOfMembers(limits, schema, reject, fields, t.members, NoSlots(fields), depth + 1);
    ObjectFinishes(schema, reject, name, t, slots);
    ObjectTextLength(t.gap, t.members);
    NoMembers(schema, fields, t.members);
  }

  lemma EmptySlots(schema: Schema, fields: seq<Field>)
    ensures TypedSlots(schema, fields, NoSlots(fields)) && Cost(schema, fields, NoSlots(fields)) == 0
  {
    CostOfEmpty(schema, fields, NoSlots(fields));
  }

  lemma NoMembers(schema: Schema, fields: seq<Field>, ms: seq<Member>)
    ensures ms == [] ==>
              TotalLength(ms) == 0 && MembersSpare(schema, fields, ms) == 0 && MembersOwed(schema, fields, ms) == 0
    ensures ms != [] ==> TotalLength(ms) > 0
  {
    hide MemberText, MemberSpare, MemberOwed;
  }

  // --- Texts that owe nothing -------------------------------------------------------------

  /** With distinct enum values, a text that leaves out no field owes nothing. */
  lemma {:induction false} CompleteOwesNothing(schema: Schema, ty: Ty, t: Tree)
    requires DistinctSchema(schema) && PlainType(ty) && Complete(schema, ty, t)
    ensures Owed(schema, ty, t) == 0
    decreases t, 1, ty
  {
    hide DistinctSchema, DistinctFields, EscapedString, StringText;
    match ty
    case EnumTy(es) =>
      if t.StringTree? && EnumValue(es, Decoded(t.pieces)).Some? {
        EnumPrintsBack(es, Decoded(t.pieces));
        BalanceOfString(t.pieces);
      }
    case OptionalTy(of) => if !t.NullTree? { CompleteOwesNothing(schema, of, t); }
    case VectorTy(of) => if t.ArrayTree? { CompleteElementsOweNothing(schema, of, t.elements); }
    case ArrayTy(of, _) => if t.ArrayTree? { CompleteElementsOweNothing(schema, of, t.elements); }
    case ObjectTy(name) =>
      if t.ObjectTree? {
        var fields := FieldsOf(schema, name);
        DistinctSchemaFields(schema, name);
        CompleteMembersOweNothing(schema, fields, t.members);
        NoneAbsent(schema, fields, NamedOf(fields, t.members));
      }
    case _ =>
  }

  lemma {:induction false} CompleteElementsOweNothing(schema: Schema, of: Ty, es: seq<Element>)
    requires DistinctSchema(schema) && PlainType(of) && ElementsComplete(schema, of, es)
    ensures ElementsOwed(schema, of, es) == 0
    decreases es
  {
    hide Complete, Owed, DistinctSchema, PlainType;
    if es != [] {
      CompleteOwesNothing(schema, of, es[0].value);
      CompleteElementsOweNothing(schema, of, es[1..]);
    }
  }

  lemma {:induction false} CompleteMembersOweNothing(schema: Schema, fields: seq<Field>, ms: seq<Member>)
    requires DistinctSchema(schema) && DistinctFields(fields) && MembersComplete(schema, fields, ms)
    ensures MembersOwed(schema, fields, ms) == 0
    decreases ms
  {
    hide Complete, Owed, Decoded, DistinctSchema, PlainType;
    if ms != [] {
      var i := FieldIndex(fields, Decoded(ms[0].key));
      if i.Some? {
        CompleteOwesNothing(schema, fields[i.value].ty, ms[0].value);
      }
      CompleteMembersOweNothing(schema, fields, ms[1..]);
    }
  }

  lemma {:induction false} NoneAbsent(schema: Schema, fields: seq<Field>, named: seq<bool>)
    requires |named| == |fields| && forall k | 0 <= k < |named| :: named[k]
    ensures AbsentCost(schema, fields, named) == 0
    decreases |fields|
  {
    if fields != [] {
      NoneAbsent(schema, fields[1..], named[1..]);
    }
  }

  // --- The theorems -----------------------------------------------------------------------

  /** What the whole text has to spare: the white space around the value as well. */
  function TextSpare(schema: Schema, ty: Ty, e: Element): nat {
    |e.lead| + Spare(schema, ty, e.value) + |e.trail|
  }

  /**
   For every accepted text: what is written for the value read, together with what the text has to spare, is exactly
   as long as the text together with what it owes.
   */
  lemma WrittenLength(s: seq<Byte>, limits: Limits, schema: Schema, ty: Ty, e: Element)
    requires DefaultsTyped(schema) || Complete(schema, ty, e.value)
    requires Read(s, limits, schema, ty).Ok? && ElementOk(limits, e, 0) && ElementText(e) == s
    ensures var v := Read(s, limits, schema, ty).value;
            && HasType(schema, ty, v)
            && |WriteText(schema, ty, v)| + TextSpare(schema, ty, e) == |s| + Owed(schema, ty, e.value)
  {
    hide DefaultsTyped, Text, ElementText, WriteText, TreeOk, Interp, ParseElement;
    hide HasType, ReadValue, Complete, Spare, Owed;
    var v := Read(s, limits, schema, ty).value;
    ReadHasTree(s, limits, schema, ty, v);
    TextIsUnambiguous(limits, e, ParseElement(s, limits, 0, 0).value);
    Balance(limits, schema, limits.rejectUnknown, ty, e.value, 0);
    ElementTextLength(e);
  }

  /** Exactly when writing back what was read does not grow: the text owes at most what it has to spare. */
  lemma NeverGrowsIff(s: seq<Byte>, limits: Limits, schema: Schema, ty: Ty, e: Element)
    requires DefaultsTyped(schema)
    requires Read(s, limits, schema, ty).Ok? && ElementOk(limits, e, 0) && ElementText(e) == s
    ensures var v := Read(s, limits, schema, ty).value;
            && HasType(schema, ty, v)
            && (|WriteText(schema, ty, v)| <= |s| <==> Owed(schema, ty, e.value) <= TextSpare(schema, ty, e))
  {
    hide DefaultsTyped, ElementText, WriteText, ElementOk, HasType, Read, Complete, Spare, Owed;
    hide TextSpare;
    WrittenLength(s, limits, schema, ty, e);
  }
}
