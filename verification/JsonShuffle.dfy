/** The order of members is irrelevant at every depth of a text. */
module JsonShuffle {
  import opened Bytes
  import opened JsonTree
  import opened JsonTypes
  import opened JsonReader
  import opened JsonAgreement
  import opened JsonObjects

  /** `u` is `t` with the members of any of its objects, at any depth, in another order. */
  ghost predicate Shuffled(t: Tree, u: Tree)
    decreases u
  {
    match u
    case ArrayTree(gap, fs) => t.ArrayTree? && t.gap == gap && ElementsShuffled(t.elements, fs)
    case ObjectTree(gap, ps) =>
      && t.ObjectTree? && t.gap == gap
      && exists qs: seq<Member> :: MembersShuffled(qs, ps) && multiset(qs) == multiset(t.members)
    case _ => t == u
  }

  ghost predicate ElementsShuffled(es: seq<Element>, fs: seq<Element>)
    decreases fs
  {
    |es| == |fs|
    && (fs == [] ||
        (&& es[0].lead == fs[0].lead && es[0].trail == fs[0].trail
         && Shuffled(es[0].value, fs[0].value)
         && ElementsShuffled(es[1..], fs[1..])))
  }

  /** The members stand in the same order; their values may be shuffled. */
  ghost predicate MembersShuffled(qs: seq<Member>, ps: seq<Member>)
    decreases ps
  {
    |qs| == |ps|
    && (ps == [] ||
        (&& qs[0] == ps[0].(value := qs[0].value)
         && Shuffled(qs[0].value, ps[0].value)
         && MembersShuffled(qs[1..], ps[1..])))
  }

  // --- The meaning ------------------------------------------------------------------------

  lemma {:induction false} ShuffledMeaning(schema: Schema, reject: bool, ty: Ty, t: Tree, u: Tree)
    requires Shuffled(t, u)
    ensures Interp(schema, reject, ty, t) == Interp(schema, reject, ty, u)
    decreases u, ty, 1
  {
    hide InterpMembers, InterpElements, MembersShuffled, ElementsShuffled, Finish;
    match ty
    case OptionalTy(of) => ShuffledMeaning(schema, reject, of, t, u);
    case VectorTy(of) => if u.ArrayTree? { ShuffledElements(schema, reject, of, t.elements, u.elements); }
    case ArrayTy(of, size) => if u.ArrayTree? { ShuffledElements(schema, reject, of, t.elements, u.elements); }
    case ObjectTy(name) =>
      if u.ObjectTree? {
        var fields := FieldsOf(schema, name);
        var qs :| MembersShuffled(qs, u.members) && multiset(qs) == multiset(t.members);
        MembersInAnyOrder(schema, reject, fields, t.members, qs, NoSlots(fields));
        ShuffledMembers(schema, reject, fields, qs, u.members, NoSlots(fields));
      }
    case _ =>
  }

  lemma {:induction false} ShuffledElements(
    schema: Schema, reject: bool, of: Ty, es: seq<Element>, fs: seq<Element>)
    requires ElementsShuffled(es, fs)
    ensures InterpElements(schema, reject, of, es) == InterpElements(schema, reject, of, fs)
    decreases fs
  {
    hide Interp, Shuffled;
    if fs != [] {
      ShuffledMeaning(schema, reject, of, es[0].value, fs[0].value);
      ShuffledElements(schema, reject, of, es[1..], fs[1..]);
    }
  }

  lemma {:induction false} ShuffledMembers(
    schema: Schema, reject: bool, fields: seq<Field>, qs: seq<Member>, ps: seq<Member>, slots: Slots)
    requires |slots| == |fields| && MembersShuffled(qs, ps)
    ensures InterpMembers(schema, reject, fields, qs, slots) == InterpMembers(schema, reject, fields, ps, slots)
    decreases ps
  {
    hide Interp, Shuffled, SatisfiesAll, FieldIndex, Decoded;
    if ps != [] {
      var i := FieldIndex(fields, Decoded(ps[0].key));
      if i.Some? {
        ShuffledMeaning(schema, reject, fields[i.value].ty, qs[0].value, ps[0].value);
      }
      var next := InterpMember(schema, reject, fields, ps[0], slots);
      if next.Some? {
        ShuffledMembers(schema, reject, fields, qs[1..], ps[1..], next.value);
      }
    }
  }

  // --- Limits and length ------------------------------------------------------------------

  /** The two trees obey the same limits, in texts of the same length. */
  predicate Alike(limits: Limits, t: Tree, u: Tree, depth: nat) {
    (TreeOk(limits, t, depth) ==> TreeOk(limits, u, depth)) && |Text(t)| == |Text(u)|
  }

  lemma {:induction false} ShuffledAlike(limits: Limits, t: Tree, u: Tree, depth: nat)
    requires Shuffled(t, u)
    ensures Alike(limits, t, u, depth)
    decreases u, 1
  {
    hide MembersShuffled, ElementsShuffled, ElementsOk, MembersOk, ElementsText, MembersText;
    match u
    case ArrayTree(gap, fs) => AlikeElements(limits, t.elements, fs, depth + 1);
    case ObjectTree(gap, ps) =>
      var qs :| MembersShuffled(qs, ps) && multiset(qs) == multiset(t.members);
      AlikeMembers(limits, qs, ps, depth + 1);
      ReorderedMembers(limits, t.members, qs, depth + 1);
    case _ =>
  }

  lemma ReorderedMembers(limits: Limits, ms: seq<Member>, qs: seq<Member>, depth: nat)
    requires multiset(ms) == multiset(qs)
    ensures |ms| == |qs| && |MembersText(ms)| == |MembersText(qs)|
    ensures MembersOk(limits, ms, depth) ==> MembersOk(limits, qs, depth)
  {
    hide MembersOk, MembersText;
    TotalLengthInAnyOrder(ms, qs);
    TotalLengthOfText(ms);
    TotalLengthOfText(qs);
    if MembersOk(limits, ms, depth) {
      MembersOkInAnyOrder(limits, ms, qs, depth);
    }
  }

  lemma ElementTextSize(e: Element)
    ensures |ElementText(e)| == |e.lead| + |Text(e.value)| + |e.trail|
  {
    hide Text;
  }

  lemma ElementsTextSize(es: seq<Element>)
    ensures |ElementsText(es)|
         == if es == [] then 1 else |ElementText(es[0])| + 1 + (if |es| == 1 then 0 else |ElementsText(es[1..])|)
  {
    hide ElementText;
  }

  lemma {:induction false} AlikeElements(limits: Limits, es: seq<Element>, fs: seq<Element>, depth: nat)
    requires ElementsShuffled(es, fs)
    ensures |es| == |fs| && |ElementsText(es)| == |ElementsText(fs)|
    ensures ElementsOk(limits, es, depth) ==> ElementsOk(limits, fs, depth)
    decreases fs
  {
    hide Shuffled, TreeOk, Text, ElementsText, ElementText;
    ElementsTextSize(es);
    ElementsTextSize(fs);
    if fs != [] {
      ShuffledAlike(limits, es[0].value, fs[0].value, depth);
      ElementTextSize(es[0]);
      ElementTextSize(fs[0]);
      AlikeElements(limits, es[1..], fs[1..], depth);
      if ElementsOk(limits, es, depth) {
        assert ElementOk(limits, es[0], depth) && ElementsOk(limits, es[1..], depth);
        assert ElementOk(limits, fs[0], depth);
      }
    }
  }

  lemma MemberTextSize(m: Member)
    ensures |MemberText(m)|
         == |m.lead| + |JsonString.StringText(m.key)| + |m.middle| + 1 + |m.inner| + |Text(m.value)| + |m.trail|
  {
    hide Text, JsonString.StringText;
  }

  lemma MembersTextSize(ms: seq<Member>)
    ensures |MembersText(ms)|
         == if ms == [] then 1 else |MemberText(ms[0])| + 1 + (if |ms| == 1 then 0 else |MembersText(ms[1..])|)
  {
    hide MemberText;
  }

  lemma {:induction false} AlikeMembers(limits: Limits, qs: seq<Member>, ps: seq<Member>, depth: nat)
    requires MembersShuffled(qs, ps)
    ensures |qs| == |ps| && |MembersText(qs)| == |MembersText(ps)|
    ensures MembersOk(limits, qs, depth) ==> MembersOk(limits, ps, depth)
    decreases ps
  {
    hide Shuffled, TreeOk, Text, MembersText, MemberText, JsonString.StringText, JsonString.StringOk;
    MembersTextSize(qs);
    MembersTextSize(ps);
    if ps != [] {
      ShuffledAlike(limits, qs[0].value, ps[0].value, depth);
      MemberTextSize(qs[0]);
      MemberTextSize(ps[0]);
      AlikeMembers(limits, qs[1..], ps[1..], depth);
      if MembersOk(limits, qs, depth) {
        assert MemberOk(limits, qs[0], depth) && MembersOk(limits, qs[1..], depth);
        assert MemberOk(limits, ps[0], depth);
      }
    }
  }

  // --- The theorem ------------------------------------------------------------------------

  /**
   Reordering the members of any objects of an accepted text keeps it accepted, at every type, with the same
   value.
   */
  lemma ReadInAnyOrderAtAnyDepth(limits: Limits, schema: Schema, ty: Ty, e: Element, u: Tree)
    requires Shuffled(e.value, u) && ElementOk(limits, e, 0)
    requires Read(ElementText(e), limits, schema, ty).Ok?
    ensures ElementOk(limits, e.(value := u), 0)
    ensures Read(ElementText(e.(value := u)), limits, schema, ty) == Read(ElementText(e), limits, schema, ty)
  {
    hide Shuffled, Text, TreeOk, ReadValue, ParseTree, Interp, ElementText;
    var f := e.(value := u);
    var s, t := ElementText(e), ElementText(f);
    var r := Read(s, limits, schema, ty);
    ShuffledAlike(limits, e.value, u, 0);
    ElementTextSize(e);
    ElementTextSize(f);
    assert r == Ok(r.value, |s|);
    ReadHasTree(s, limits, schema, ty, r.value);
    TextIsUnambiguous(limits, e, ParseElement(s, limits, 0, 0).value);
    ShuffledMeaning(schema, limits.rejectUnknown, ty, e.value, u);
    TreeIsRead(t, limits, schema, ty, f);
  }
}
