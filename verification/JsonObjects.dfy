/** Reading an object is a function of its member map: order is irrelevant, and no value appears from nowhere. */
module JsonObjects {
  import opened Bytes
  import opened JsonTree
  import opened JsonTypes
  import opened JsonReader
  import opened JsonAgreement

  // --- Order ------------------------------------------------------------------------------

  /** One member after another. */
  function Two(schema: Schema, reject: bool, fields: seq<Field>, a: Member, b: Member, slots: Slots): Option<Slots>
    requires |slots| == |fields|
  {
    var next := InterpMember(schema, reject, fields, a, slots);
    if next.None? then None else InterpMember(schema, reject, fields, b, next.value)
  }

  lemma MembersCommute(schema: Schema, reject: bool, fields: seq<Field>, a: Member, b: Member, slots: Slots)
    requires |slots| == |fields|
    ensures Two(schema, reject, fields, a, b, slots) == Two(schema, reject, fields, b, a, slots)
  {
    hide Interp, SatisfiesAll, FieldIndex, Decoded;
    var i, j := FieldIndex(fields, Decoded(a.key)), FieldIndex(fields, Decoded(b.key));
    if i.Some? && j.Some? && i != j {
      var v := Interp(schema, reject, fields[i.value].ty, a.value);
      var w := Interp(schema, reject, fields[j.value].ty, b.value);
      if v.Some? && w.Some? {
        assert slots[i.value := Some(v.value)][j.value := Some(w.value)]
            == slots[j.value := Some(w.value)][i.value := Some(v.value)];
      }
    }
  }

  /** A member may be read before those in front of it. */
  lemma {:induction false} MoveToFront(
    schema: Schema, reject: bool, fields: seq<Field>, front: seq<Member>, m: Member, back: seq<Member>, slots: Slots)
    requires |slots| == |fields|
    ensures InterpMembers(schema, reject, fields, front + ([m] + back), slots)
            == InterpMembers(schema, reject, fields, [m] + (front + back), slots)
    decreases |front|
  {
    hide InterpMember, InterpMembers;
    if front == [] {
      EmptyLeft([m] + back);
      EmptyLeft(back);
    } else {
      var f, rest := front[0], front[1..];
      ConsSplit(front, [m] + back);
      ConsSplit(front, back);
      assert front + ([m] + back) == [f] + (rest + ([m] + back));
      assert front + back == [f] + (rest + back);
      InterpMembersCons(schema, reject, fields, f, rest + ([m] + back), slots);
      InterpMembersCons(schema, reject, fields, m, [f] + (rest + back), slots);
      MembersCommute(schema, reject, fields, f, m, slots);
      var first := InterpMember(schema, reject, fields, f, slots);
      if first.Some? {
        MoveToFront(schema, reject, fields, rest, m, back, first.value);
        InterpMembersCons(schema, reject, fields, m, rest + back, first.value);
      }
      var other := InterpMember(schema, reject, fields, m, slots);
      if other.Some? {
        InterpMembersCons(schema, reject, fields, f, rest + back, other.value);
      }
    }
  }

  lemma CancelOne<T>(m: T, front: multiset<T>, back: multiset<T>, rest: multiset<T>)
    requires front + (multiset{m} + back) == multiset{m} + rest
    ensures front + back == rest
  {
    forall x
      ensures (front + back)[x] == rest[x]
    {
      assert (front + (multiset{m} + back))[x] == (multiset{m} + rest)[x];
    }
  }

  /** `ps` has `m` at `k`, and the rest is a permutation of `rest`. */
  lemma SplitPermutation<T>(m: T, rest: seq<T>, ps: seq<T>) returns (front: seq<T>, back: seq<T>)
    requires multiset(ps) == multiset([m] + rest)
    ensures ps == front + ([m] + back) && multiset(front + back) == multiset(rest)
  {
    assert m in multiset([m] + rest);
    assert m in ps;
    var k :| 0 <= k < |ps| && ps[k] == m;
    front, back := ps[..k], ps[k + 1..];
    assert ps == front + ([m] + back);
    assert multiset([m] + back) == multiset{m} + multiset(back);
    assert multiset(front + ([m] + back)) == multiset(front) + multiset([m] + back);
    assert multiset([m] + rest) == multiset{m} + multiset(rest);
    assert multiset(front + back) == multiset(front) + multiset(back);
    CancelOne(m, multiset(front), multiset(back), multiset(rest));
  }

  /** The slots do not depend on the order of the members. */
  lemma {:induction false} MembersInAnyOrder(
    schema: Schema, reject: bool, fields: seq<Field>, ms: seq<Member>, ps: seq<Member>, slots: Slots)
    requires |slots| == |fields| && multiset(ms) == multiset(ps)
    ensures InterpMembers(schema, reject, fields, ms, slots) == InterpMembers(schema, reject, fields, ps, slots)
    decreases |ms|
  {
    if ms == [] {
      NoPermutationOfNone(ps);
    } else {
      assert ms == [ms[0]] + ms[1..];
      var front, back := SplitPermutation(ms[0], ms[1..], ps);
      MoveToFront(schema, reject, fields, front, ms[0], back, slots);
      InterpMembersCons(schema, reject, fields, ms[0], front + back, slots);
      InterpMembersCons(schema, reject, fields, ms[0], ms[1..], slots);
      var next := InterpMember(schema, reject, fields, ms[0], slots);
      if next.Some? {
        MembersInAnyOrder(schema, reject, fields, ms[1..], front + back, next.value);
      }
    }
  }

  lemma NoPermutationOfNone<T>(ps: seq<T>)
    requires multiset(ps) == multiset{}
    ensures ps == []
  {
    assert |multiset(ps)| == |ps|;
  }

  // --- Texts ------------------------------------------------------------------------------

  function TotalLength(ms: seq<Member>): nat {
    if ms == [] then 0 else |MemberText(ms[0])| + 1 + TotalLength(ms[1..])
  }

  lemma {:induction false} TotalLengthOfText(ms: seq<Member>)
    ensures |MembersText(ms)| == if ms == [] then 1 else TotalLength(ms)
  {
    hide MemberText;
    if |ms| > 1 {
      TotalLengthOfText(ms[1..]);
    } else if |ms| == 1 {
      assert TotalLength(ms[1..]) == 0;
    }
  }

  lemma {:induction false} TotalLengthMove(front: seq<Member>, m: Member, back: seq<Member>)
    ensures TotalLength(front + ([m] + back)) == |MemberText(m)| + 1 + TotalLength(front + back)
    decreases |front|
  {
    hide MemberText;
    if front == [] {
      EmptyLeft([m] + back);
      EmptyLeft(back);
      Cons(m, back);
    } else {
      ConsSplit(front, [m] + back);
      ConsSplit(front, back);
      TotalLengthMove(front[1..], m, back);
    }
  }

  lemma {:induction false} TotalLengthInAnyOrder(ms: seq<Member>, ps: seq<Member>)
    requires multiset(ms) == multiset(ps)
    ensures TotalLength(ms) == TotalLength(ps) && |ms| == |ps|
    decreases |ms|
  {
    hide MemberText;
    assert |multiset(ms)| == |ms| && |multiset(ps)| == |ps|;
    if ms != [] {
      assert ms == [ms[0]] + ms[1..];
      var front, back := SplitPermutation(ms[0], ms[1..], ps);
      TotalLengthMove(front, ms[0], back);
      TotalLengthInAnyOrder(ms[1..], front + back);
    }
  }

  lemma {:induction false} MembersOkPointwise(limits: Limits, ms: seq<Member>, depth: nat)
    ensures MembersOk(limits, ms, depth) <==> forall m | m in ms :: MemberOk(limits, m, depth)
    decreases |ms|
  {
    hide MemberOk;
    if ms != [] {
      MembersOkPointwise(limits, ms[1..], depth);
      if MembersOk(limits, ms, depth) {
        forall m | m in ms
          ensures MemberOk(limits, m, depth)
        {
          var k :| 0 <= k < |ms| && ms[k] == m;
          assert k == 0 || m == ms[1..][k - 1];
        }
      }
      if forall m | m in ms :: MemberOk(limits, m, depth) {
        assert ms[0] in ms;
        assert forall m | m in ms[1..] :: m in ms;
      }
    }
  }

  lemma MembersOkInAnyOrder(limits: Limits, ms: seq<Member>, ps: seq<Member>, depth: nat)
    requires multiset(ms) == multiset(ps) && MembersOk(limits, ms, depth)
    ensures MembersOk(limits, ps, depth)
  {
    hide MemberOk;
    MembersOkPointwise(limits, ms, depth);
    MembersOkPointwise(limits, ps, depth);
    forall m | m in ps
      ensures MemberOk(limits, m, depth)
    {
      assert m in multiset(ps);
      assert m in ms;
    }
  }

  /** Permuting the members of an accepted object text keeps it accepted, with the same value. */
  lemma ReadInAnyOrder(
    limits: Limits, schema: Schema, name: string, lead: seq<Byte>, trail: seq<Byte>, ms: seq<Member>, ps: seq<Member>)
    requires multiset(ms) == multiset(ps)
    requires ElementOk(limits, Element(lead, ObjectTree([], ms), trail), 0)
    requires Read(ElementText(Element(lead, ObjectTree([], ms), trail)), limits, schema, ObjectTy(name)).Ok?
    ensures ElementOk(limits, Element(lead, ObjectTree([], ps), trail), 0)
    ensures Read(ElementText(Element(lead, ObjectTree([], ps), trail)), limits, schema, ObjectTy(name))
            == Read(ElementText(Element(lead, ObjectTree([], ms), trail)), limits, schema, ObjectTy(name))
  {
    hide MemberText, MembersText, MembersOk, ReadValue, ParseTree, InterpMembers, Finish, ElementOk, ElementText;
    var e, f := Element(lead, ObjectTree([], ms), trail), Element(lead, ObjectTree([], ps), trail);
    var s, t := ElementText(e), ElementText(f);
    PermutedElement(limits, lead, trail, ms, ps);
    var r := Read(s, limits, schema, ObjectTy(name));
    assert r == Ok(r.value, |s|);
    ReadHasTree(s, limits, schema, ObjectTy(name), r.value);
    TextIsUnambiguous(limits, e, ParseElement(s, limits, 0, 0).value);
    MembersInAnyOrder(schema, limits.rejectUnknown, FieldsOf(schema, name), ms, ps, NoSlots(FieldsOf(schema, name)));
    TreeIsRead(t, limits, schema, ObjectTy(name), f);
  }

  lemma PermutedElement(limits: Limits, lead: seq<Byte>, trail: seq<Byte>, ms: seq<Member>, ps: seq<Member>)
    requires multiset(ms) == multiset(ps)
    requires ElementOk(limits, Element(lead, ObjectTree([], ms), trail), 0)
    ensures ElementOk(limits, Element(lead, ObjectTree([], ps), trail), 0)
    ensures |ElementText(Element(lead, ObjectTree([], ps), trail))|
            == |ElementText(Element(lead, ObjectTree([], ms), trail))|
  {
    hide MemberText, MembersText, MembersOk;
    MembersOkInAnyOrder(limits, ms, ps, 1);
    TotalLengthInAnyOrder(ms, ps);
    TotalLengthOfText(ms);
    TotalLengthOfText(ps);
  }

  // --- Origin of the fields ---------------------------------------------------------------

  /** Member `j` names field `k`. */
  predicate Names(fields: seq<Field>, ms: seq<Member>, j: nat, k: nat)
    requires j < |ms|
  {
    FieldIndex(fields, Decoded(ms[j].key)) == Some(k)
  }

  lemma {:induction false} SlotOrigin(
    schema: Schema, reject: bool, fields: seq<Field>, ms: seq<Member>, slots: Slots, k: nat)
    requires |slots| == |fields| && k < |fields|
    requires InterpMembers(schema, reject, fields, ms, slots).Some?
    ensures var all := InterpMembers(schema, reject, fields, ms, slots).value;
            && (forall j | 0 <= j < |ms| && Names(fields, ms, j, k) ::
                  slots[k].None? && all[k].Some? && all[k] == Interp(schema, reject, fields[k].ty, ms[j].value))
            && (forall i, j | 0 <= i < j < |ms| :: !(Names(fields, ms, i, k) && Names(fields, ms, j, k)))
            && ((forall j | 0 <= j < |ms| :: !Names(fields, ms, j, k)) ==> all[k] == slots[k])
    decreases |ms|
  {
    hide Interp, SatisfiesAll, Decoded, FieldIndex;
    if ms != [] {
      var next := InterpMember(schema, reject, fields, ms[0], slots).value;
      var rest := ms[1..];
      SlotOrigin(schema, reject, fields, rest, next, k);
      assert forall j | 0 <= j < |rest| :: Names(fields, rest, j, k) == Names(fields, ms, j + 1, k);
      var all := InterpMembers(schema, reject, fields, ms, slots).value;
      forall j | 0 <= j < |ms| && Names(fields, ms, j, k)
        ensures slots[k].None? && all[k].Some? && all[k] == Interp(schema, reject, fields[k].ty, ms[j].value)
      {
        if j == 0 {
          assert forall i | 0 <= i < |rest| :: !Names(fields, rest, i, k);
        } else {
          assert Names(fields, rest, j - 1, k);
        }
      }
      forall i, j | 0 <= i < j < |ms|
        ensures !(Names(fields, ms, i, k) && Names(fields, ms, j, k))
      {
        assert Names(fields, rest, j - 1, k) == Names(fields, ms, j, k);
        if i > 0 {
          assert Names(fields, rest, i - 1, k) == Names(fields, ms, i, k);
        }
      }
      if forall j | 0 <= j < |ms| :: !Names(fields, ms, j, k) {
        assert !Names(fields, ms, 0, k);
        assert forall j | 0 <= j < |rest| :: !Names(fields, rest, j, k);
      }
    }
  }

  /**
   Every field of an object read comes from the one member that names it; a field no member names is
   the empty optional or its declared default, and a missing field that has neither is an error.
   */
  lemma FieldOrigin(schema: Schema, reject: bool, name: string, gap: seq<Byte>, ms: seq<Member>, k: nat)
    requires Interp(schema, reject, ObjectTy(name), ObjectTree(gap, ms)).Some?
    requires k < |FieldsOf(schema, name)|
    ensures var fields := FieldsOf(schema, name);
            var v := Interp(schema, reject, ObjectTy(name), ObjectTree(gap, ms)).value;
            && v.ObjectVal? && |v.fields| == |fields|
            && (forall j | 0 <= j < |ms| && Names(fields, ms, j, k) ::
                  Interp(schema, reject, fields[k].ty, ms[j].value) == Some(v.fields[k]))
            && (forall i, j | 0 <= i < j < |ms| :: !(Names(fields, ms, i, k) && Names(fields, ms, j, k)))
            && ((forall j | 0 <= j < |ms| :: !Names(fields, ms, j, k)) ==>
                  if fields[k].ty.OptionalTy? then v.fields[k] == NoneVal
                  else fields[k].fallback == Some(v.fields[k]))
  {
    hide InterpMembers, Finish, Names;
    var fields := FieldsOf(schema, name);
    SlotOrigin(schema, reject, fields, ms, NoSlots(fields), k);
    FinishedFields(fields, InterpMembers(schema, reject, fields, ms, NoSlots(fields)).value);
  }
}
