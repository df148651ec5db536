/** Checking strings one by one makes the whole text UTF-8 (RFC 8259, section 8.1). */
module JsonUtf8 {
  import opened Bytes
  import opened Utf8
  import opened JsonString
  import opened JsonNumber
  import opened JsonTree
  import opened Decimal

  lemma {:induction false} ValidConcat(a: seq<Byte>, b: seq<Byte>)
    requires ValidUtf8(a) && ValidUtf8(b)
    ensures ValidUtf8(a + b)
    decreases |a|
  {
    hide UnitLength, FrontScalar, EncodeScalar;
    if a == [] {
      EmptyLeft(b);
    } else {
      var n := UnitLength(a);
      ScanThenEncode(a);
      ValidConcat(a[n..], b);
      StripScalar(FrontScalar(a), a[n..] + b);
      Assoc(a[..n], a[n..], b);
      assert a == a[..n] + a[n..];
    }
  }

  predicate Ascii(a: seq<Byte>) {
    forall b | b in a :: b <= 0x7F
  }

  lemma AsciiConcat(a: seq<Byte>, b: seq<Byte>)
    requires Ascii(a) && Ascii(b)
    ensures Ascii(a + b)
  {
  }

  lemma BlankIsValid(ws: seq<Byte>)
    requires Blank(ws)
    ensures ValidUtf8(ws)
  {
    AsciiIsValid(ws);
  }

  lemma NumberIsValid(n: Number)
    requires NumberOk(n)
    ensures ValidUtf8(NumberText(n))
  {
    hide NumberText;
    NumberIsAscii(n);
    AsciiIsValid(NumberText(n));
  }

  lemma NumberIsAscii(n: Number)
    requires NumberOk(n)
    ensures Ascii(NumberText(n))
  {
    DigitsAreAscii(n.digits);
    var f, e := FractionText(n.fraction), ExponentText(n.exponent);
    assert Ascii(f) by {
      if n.fraction.Some? {
        DigitsAreAscii(n.fraction.value);
        AsciiConcat([DOT], n.fraction.value);
      }
    }
    assert Ascii(e) by {
      if n.exponent.Some? {
        ExponentIsAscii(n.exponent.value);
      }
    }
    AsciiConcat(f, e);
    AsciiConcat(n.digits, f + e);
    AsciiConcat(MinusText(n.negative), n.digits + (f + e));
  }

  lemma DigitsAreAscii(ds: seq<Byte>)
    requires AllDigits(ds)
    ensures Ascii(ds)
  {
  }

  lemma ExponentIsAscii(x: Exponent)
    requires ExponentOk(Some(x))
    ensures Ascii(ExponentText(Some(x)))
  {
    DigitsAreAscii(x.digits);
    AsciiConcat(SignText(x.sign), x.digits);
    AsciiConcat([x.marker], SignText(x.sign) + x.digits);
  }

  lemma StringIsValid(limits: Limits, ps: seq<Piece>)
    requires StringOk(limits, ps)
    ensures ValidUtf8(StringText(ps))
  {
    Utf8CheckOnDecodedIsEnough(ps);
    AsciiIsValid([QUOTE]);
    ValidConcat([QUOTE], PiecesText(ps));
    ValidConcat([QUOTE] + PiecesText(ps), [QUOTE]);
  }

  lemma {:induction false} TreeIsValid(limits: Limits, t: Tree, depth: nat)
    requires TreeOk(limits, t, depth)
    ensures ValidUtf8(Text(t))
    decreases t
  {
    hide ValidUtf8, StringOk, StringText, NumberOk, NumberText;
    match t
    case StringTree(pieces) => StringIsValid(limits, pieces);
    case NumberTree(number) => NumberIsValid(number);
    case ArrayTree(gap, elements) =>
      AsciiIsValid([OPEN_BRACKET]);
      BlankIsValid(gap);
      ElementsAreValid(limits, elements, depth + 1);
      ValidConcat(gap, ElementsText(elements));
      ValidConcat([OPEN_BRACKET], gap + ElementsText(elements));
    case ObjectTree(gap, members) =>
      AsciiIsValid([OPEN_BRACE]);
      BlankIsValid(gap);
      MembersAreValid(limits, members, depth + 1);
      ValidConcat(gap, MembersText(members));
      ValidConcat([OPEN_BRACE], gap + MembersText(members));
    case _ => AsciiIsValid(Text(t));
  }

  lemma {:induction false} ElementIsValid(limits: Limits, e: Element, depth: nat)
    requires ElementOk(limits, e, depth)
    ensures ValidUtf8(ElementText(e))
    decreases e
  {
    hide ValidUtf8, Text, TreeOk;
    TreeIsValid(limits, e.value, depth);
    BlankIsValid(e.lead);
    BlankIsValid(e.trail);
    ValidConcat(Text(e.value), e.trail);
    ValidConcat(e.lead, Text(e.value) + e.trail);
  }

  lemma {:induction false} ElementsAreValid(limits: Limits, es: seq<Element>, depth: nat)
    requires ElementsOk(limits, es, depth)
    ensures ValidUtf8(ElementsText(es))
    decreases es
  {
    hide ValidUtf8, ElementText, ElementOk;
    AsciiIsValid([CLOSE_BRACKET]);
    AsciiIsValid([COMMA]);
    if es != [] {
      ElementIsValid(limits, es[0], depth);
      ElementsAreValid(limits, es[1..], depth);
      ValidConcat(ElementText(es[0]), [CLOSE_BRACKET]);
      ValidConcat([COMMA], ElementsText(es[1..]));
      ValidConcat(ElementText(es[0]), [COMMA] + ElementsText(es[1..]));
    }
  }

  lemma {:induction false} MemberIsValid(limits: Limits, m: Member, depth: nat)
    requires MemberOk(limits, m, depth)
    ensures ValidUtf8(MemberText(m))
    decreases m
  {
    hide ValidUtf8, Text, TreeOk, StringOk, StringText;
    TreeIsValid(limits, m.value, depth);
    StringIsValid(limits, m.key);
    BlankIsValid(m.lead);
    BlankIsValid(m.middle);
    BlankIsValid(m.inner);
    BlankIsValid(m.trail);
    AsciiIsValid([COLON]);
    var t5 := Text(m.value) + m.trail;
    var t4 := m.inner + t5;
    var t3 := [COLON] + t4;
    var t2 := m.middle + t3;
    ValidConcat(Text(m.value), m.trail);
    ValidConcat(m.inner, t5);
    ValidConcat([COLON], t4);
    ValidConcat(m.middle, t3);
    ValidConcat(StringText(m.key), t2);
    ValidConcat(m.lead, StringText(m.key) + t2);
  }

  lemma {:induction false} MembersAreValid(limits: Limits, ms: seq<Member>, depth: nat)
    requires MembersOk(limits, ms, depth)
    ensures ValidUtf8(MembersText(ms))
    decreases ms
  {
    hide ValidUtf8, MemberText, MemberOk;
    AsciiIsValid([CLOSE_BRACE]);
    AsciiIsValid([COMMA]);
    if ms != [] {
      MemberIsValid(limits, ms[0], depth);
      MembersAreValid(limits, ms[1..], depth);
      ValidConcat(MemberText(ms[0]), [CLOSE_BRACE]);
      ValidConcat([COMMA], MembersText(ms[1..]));
      ValidConcat(MemberText(ms[0]), [COMMA] + MembersText(ms[1..]));
    }
  }

  /** A text the scanner accepts is UTF-8 throughout, although only string contents are checked. */
  lemma AcceptedTextIsUtf8(s: seq<Byte>, limits: Limits)
    requires SkipAccepts(s, limits)
    ensures ValidUtf8(s)
  {
    hide ValidUtf8, SkipAccepts, ElementText, ElementOk;
    AcceptedIsJsonText(s, limits);
    var e: Element :| ElementOk(limits, e, 0) && ElementText(e) == s;
    ElementIsValid(limits, e, 0);
  }

  // --- The grammar without the UTF-8 check ------------------------------------------------

  /** String units that obey the escapes and the size limit. */
  predicate StringShaped(limits: Limits, ps: seq<Piece>) {
    AllOk(ps) && |PiecesValue(ps)| <= limits.stringBytes
  }

  /** Trees of the grammar within the limits, whatever bytes stand in their strings. */
  predicate Shaped(limits: Limits, t: Tree, depth: nat)
    decreases t
  {
    match t
    case StringTree(pieces) => StringShaped(limits, pieces)
    case NumberTree(number) => NumberOk(number)
    case ArrayTree(gap, elements) =>
      && depth < limits.depth
      && Blank(gap) && (elements != [] ==> gap == [])
      && |elements| <= limits.arrayElements
      && ElementsShaped(limits, elements, depth + 1)
    case ObjectTree(gap, members) =>
      && depth < limits.depth
      && Blank(gap) && (members != [] ==> gap == [])
      && |members| <= limits.objectMembers
      && MembersShaped(limits, members, depth + 1)
    case _ => true
  }

  predicate ElementShaped(limits: Limits, e: Element, depth: nat)
    decreases e
  {
    Blank(e.lead) && Blank(e.trail) && Shaped(limits, e.value, depth)
  }

  predicate ElementsShaped(limits: Limits, es: seq<Element>, depth: nat)
    decreases es
  {
    es == [] || (ElementShaped(limits, es[0], depth) && ElementsShaped(limits, es[1..], depth))
  }

  predicate MemberShaped(limits: Limits, m: Member, depth: nat)
    decreases m
  {
    && Blank(m.lead) && Blank(m.middle) && Blank(m.inner) && Blank(m.trail)
    && StringShaped(limits, m.key)
    && Shaped(limits, m.value, depth)
  }

  predicate MembersShaped(limits: Limits, ms: seq<Member>, depth: nat)
    decreases ms
  {
    ms == [] || (MemberShaped(limits, ms[0], depth) && MembersShaped(limits, ms[1..], depth))
  }

  // --- Cutting a valid text at its ASCII bytes --------------------------------------------

  predicate AsciiLead(s: seq<Byte>) {
    s == [] || s[0] <= 0x7F
  }

  lemma CutValid(a: seq<Byte>, b: seq<Byte>)
    requires ValidUtf8(a + b) && AsciiLead(b)
    ensures ValidUtf8(a) && ValidUtf8(b)
  {
    SplitAtBoundary(a, b);
  }

  lemma LeadConcat(a: seq<Byte>, b: seq<Byte>)
    requires AsciiLead(a) && AsciiLead(b)
    ensures AsciiLead(a + b)
  {
  }

  lemma StringShapedIff(limits: Limits, ps: seq<Piece>)
    requires StringShaped(limits, ps)
    ensures AsciiLead(StringText(ps)) && (ValidUtf8(StringText(ps)) <==> StringOk(limits, ps))
  {
    hide ValidUtf8, PiecesText, PiecesValue;
    if ValidUtf8(StringText(ps)) {
      CutValid([QUOTE] + PiecesText(ps), [QUOTE]);
      AsciiIsValid([QUOTE]);
      StripAscii([QUOTE], PiecesText(ps));
      Utf8CheckOnDecodedIsEnough(ps);
    } else if StringOk(limits, ps) {
      StringIsValid(limits, ps);
    }
  }

  lemma BlankLead(ws: seq<Byte>)
    requires Blank(ws)
    ensures AsciiLead(ws)
  {
  }

  /** A shaped tree obeys the grammar with its UTF-8 check when its text is valid. */
  lemma {:induction false} ValidShapedTree(limits: Limits, t: Tree, depth: nat)
    requires Shaped(limits, t, depth) && ValidUtf8(Text(t))
    ensures TreeOk(limits, t, depth)
    decreases t
  {
    hide ValidUtf8, StringOk, StringText, NumberOk, NumberText, StringShaped, ElementsText, MembersText;
    match t
    case StringTree(pieces) => StringShapedIff(limits, pieces);
    case ArrayTree(gap, elements) =>
      StripAscii([OPEN_BRACKET], gap + ElementsText(elements));
      StripAscii(gap, ElementsText(elements));
      ValidShapedElements(limits, elements, depth + 1);
    case ObjectTree(gap, members) =>
      StripAscii([OPEN_BRACE], gap + MembersText(members));
      StripAscii(gap, MembersText(members));
      ValidShapedMembers(limits, members, depth + 1);
    case _ =>
  }

  lemma {:induction false} ValidShapedElement(limits: Limits, e: Element, rest: seq<Byte>, depth: nat)
    requires ElementShaped(limits, e, depth) && AsciiLead(rest) && ValidUtf8(ElementText(e) + rest)
    ensures ElementOk(limits, e, depth) && ValidUtf8(rest)
    decreases e
  {
    hide ValidUtf8, Text, TreeOk, Shaped;
    CutValid(ElementText(e), rest);
    StripAscii(e.lead, Text(e.value) + e.trail);
    BlankLead(e.trail);
    CutValid(Text(e.value), e.trail);
    ValidShapedTree(limits, e.value, depth);
  }

  lemma {:induction false} ValidShapedElements(limits: Limits, es: seq<Element>, depth: nat)
    requires ElementsShaped(limits, es, depth) && ValidUtf8(ElementsText(es))
    ensures ElementsOk(limits, es, depth)
    decreases es
  {
    hide ValidUtf8, ElementText, ElementOk, ElementShaped;
    if |es| == 1 {
      ValidShapedElement(limits, es[0], [CLOSE_BRACKET], depth);
    } else if es != [] {
      ValidShapedElement(limits, es[0], [COMMA] + ElementsText(es[1..]), depth);
      StripAscii([COMMA], ElementsText(es[1..]));
      ValidShapedElements(limits, es[1..], depth);
    }
  }

  lemma {:induction false} ValidShapedMember(limits: Limits, m: Member, rest: seq<Byte>, depth: nat)
    requires MemberShaped(limits, m, depth) && AsciiLead(rest) && ValidUtf8(MemberText(m) + rest)
    ensures MemberOk(limits, m, depth) && ValidUtf8(rest)
    decreases m
  {
    hide ValidUtf8, Text, TreeOk, Shaped, StringOk, StringText, StringShaped;
    var t5 := Text(m.value) + m.trail;
    var t4 := m.inner + t5;
    var t3 := [COLON] + t4;
    var t2 := m.middle + t3;
    CutValid(MemberText(m), rest);
    StripAscii(m.lead, StringText(m.key) + t2);
    BlankLead(m.middle);
    LeadConcat(m.middle, t3);
    CutValid(StringText(m.key), t2);
    StringShapedIff(limits, m.key);
    StripAscii(m.middle, t3);
    StripAscii([COLON], t4);
    StripAscii(m.inner, t5);
    BlankLead(m.trail);
    CutValid(Text(m.value), m.trail);
    ValidShapedTree(limits, m.value, depth);
  }

  lemma {:induction false} ValidShapedMembers(limits: Limits, ms: seq<Member>, depth: nat)
    requires MembersShaped(limits, ms, depth) && ValidUtf8(MembersText(ms))
    ensures MembersOk(limits, ms, depth)
    decreases ms
  {
    hide ValidUtf8, MemberText, MemberOk, MemberShaped;
    if |ms| == 1 {
      ValidShapedMember(limits, ms[0], [CLOSE_BRACE], depth);
    } else if ms != [] {
      ValidShapedMember(limits, ms[0], [COMMA] + MembersText(ms[1..]), depth);
      StripAscii([COMMA], MembersText(ms[1..]));
      ValidShapedMembers(limits, ms[1..], depth);
    }
  }

  lemma {:induction false} OkIsShaped(limits: Limits, t: Tree, depth: nat)
    requires TreeOk(limits, t, depth)
    ensures Shaped(limits, t, depth)
    decreases t
  {
    match t
    case ArrayTree(_, elements) => ElementsOkAreShaped(limits, elements, depth + 1);
    case ObjectTree(_, members) => MembersOkAreShaped(limits, members, depth + 1);
    case _ =>
  }

  lemma {:induction false} ElementsOkAreShaped(limits: Limits, es: seq<Element>, depth: nat)
    requires ElementsOk(limits, es, depth)
    ensures ElementsShaped(limits, es, depth)
    decreases es
  {
    hide TreeOk, Shaped;
    if es != [] {
      OkIsShaped(limits, es[0].value, depth);
      ElementsOkAreShaped(limits, es[1..], depth);
    }
  }

  lemma {:induction false} MembersOkAreShaped(limits: Limits, ms: seq<Member>, depth: nat)
    requires MembersOk(limits, ms, depth)
    ensures MembersShaped(limits, ms, depth)
    decreases ms
  {
    hide TreeOk, Shaped;
    if ms != [] {
      OkIsShaped(limits, ms[0].value, depth);
      MembersOkAreShaped(limits, ms[1..], depth);
    }
  }

  /** `s` is UTF-8 and one value of the grammar within the limits, with no condition on the bytes of its strings. */
  ghost predicate IsUtf8Json(s: seq<Byte>, limits: Limits) {
    ValidUtf8(s) && exists e: Element :: ElementShaped(limits, e, 0) && ElementText(e) == s
  }

  /** Checking the decoded strings is checking the text: what is accepted is exactly UTF-8 JSON within the limits. */
  lemma SkipAcceptsIffUtf8Json(s: seq<Byte>, limits: Limits)
    ensures SkipAccepts(s, limits) <==> IsUtf8Json(s, limits)
  {
    hide ValidUtf8, SkipAccepts, ElementText, TreeOk, Shaped;
    if SkipAccepts(s, limits) {
      AcceptedTextIsUtf8(s, limits);
      AcceptedIsJsonText(s, limits);
      var e: Element :| ElementOk(limits, e, 0) && ElementText(e) == s;
      OkIsShaped(limits, e.value, 0);
      assert ElementShaped(limits, e, 0);
    }
    if IsUtf8Json(s, limits) {
      var e: Element :| ElementShaped(limits, e, 0) && ElementText(e) == s;
      assert s + [] == s;
      ValidShapedElement(limits, e, [], 0);
      JsonTextIsAccepted(s, limits, e);
    }
  }
}
