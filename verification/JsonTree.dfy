/**
 JSON texts as concrete syntax trees (RFC 8259, sections 2 to 7), and the scanner that
 skips a value, specified by the tree it walks over.
 */
module JsonTree {
  import opened Bytes
  import opened JsonString
  import opened JsonNumber
  import opened Decimal

  datatype Tree =
    | StringTree(pieces: seq<Piece>)
    | NumberTree(number: Number)
    | TrueTree
    | FalseTree
    | NullTree
    | ArrayTree(gap: seq<Byte>, elements: seq<Element>)    // the gap fills an empty array
    | ObjectTree(gap: seq<Byte>, members: seq<Member>)

  datatype Element = Element(lead: seq<Byte>, value: Tree, trail: seq<Byte>)

  datatype Member = Member(
    lead: seq<Byte>, key: seq<Piece>, middle: seq<Byte>, inner: seq<Byte>, value: Tree, trail: seq<Byte>)

  // --- Texts ------------------------------------------------------------------------------

  function Text(t: Tree): seq<Byte>
    decreases t
  {
    match t
    case StringTree(pieces) => StringText(pieces)
    case NumberTree(number) => NumberText(number)
    case TrueTree => TRUE_TEXT
    case FalseTree => FALSE_TEXT
    case NullTree => NULL_TEXT
    case ArrayTree(gap, elements) => [OPEN_BRACKET] + (gap + ElementsText(elements))
    case ObjectTree(gap, members) => [OPEN_BRACE] + (gap + MembersText(members))
  }

  function ElementText(e: Element): seq<Byte>
    decreases e
  {
    e.lead + (Text(e.value) + e.trail)
  }

  /** The elements with their separators and the closing bracket. */
  function ElementsText(es: seq<Element>): seq<Byte>
    decreases es
  {
    if es == [] then [CLOSE_BRACKET]
    else if |es| == 1 then ElementText(es[0]) + [CLOSE_BRACKET]
    else ElementText(es[0]) + ([COMMA] + ElementsText(es[1..]))
  }

  function MemberText(m: Member): seq<Byte>
    decreases m
  {
    m.lead + (StringText(m.key) + (m.middle + ([COLON] + (m.inner + (Text(m.value) + m.trail)))))
  }

  /** The members with their separators and the closing brace. */
  function MembersText(ms: seq<Member>): seq<Byte>
    decreases ms
  {
    if ms == [] then [CLOSE_BRACE]
    else if |ms| == 1 then MemberText(ms[0]) + [CLOSE_BRACE]
    else MemberText(ms[0]) + ([COMMA] + MembersText(ms[1..]))
  }

  // --- White space ------------------------------------------------------------------------

  predicate IsBlank(b: Byte) {
    b == ' ' as int || b == '\t' as int || b == '\r' as int || b == '\n' as int
  }

  predicate Blank(ws: seq<Byte>) {
    forall k | 0 <= k < |ws| :: IsBlank(ws[k])
  }

  /** The first offset at or behind `p` that holds no white space. */
  function SkipBlank(s: seq<Byte>, p: nat): (q: nat)
    requires p <= |s|
    ensures p <= q <= |s| && Blank(s[p..q]) && !IsBlank(At(s, q))
    decreases |s| - p
  {
    if p < |s| && IsBlank(s[p]) then
      var q := SkipBlank(s, p + 1);
      assert s[p..q] == [s[p]] + s[p + 1..q];
      q
    else p
  }

  lemma {:induction false} SkipBlankIs(s: seq<Byte>, p: nat, ws: seq<Byte>)
    requires HasAt(s, p, ws) && Blank(ws) && !IsBlank(At(s, p + |ws|))
    ensures SkipBlank(s, p) == p + |ws|
    decreases |ws|
  {
    if ws != [] {
      assert ws == [ws[0]] + ws[1..];
      HasAtConcat(s, p, [ws[0]], ws[1..]);
      HasAtIndex(s, p, ws, 0);
      SkipBlankIs(s, p + 1, ws[1..]);
    }
  }

  lemma SkipBlankTwice(s: seq<Byte>, p: nat)
    requires p <= |s|
    ensures SkipBlank(s, SkipBlank(s, p)) == SkipBlank(s, p)
  {
  }

  // --- The grammar within limits ----------------------------------------------------------

  /** Trees of the grammar that obey the limits when they stand `depth` levels deep. */
  predicate TreeOk(limits: Limits, t: Tree, depth: nat)
    decreases t
  {
    match t
    case StringTree(pieces) => StringOk(limits, pieces)
    case NumberTree(number) => NumberOk(number)
    case TrueTree => true
    case FalseTree => true
    case NullTree => true
    case ArrayTree(gap, elements) =>
      && depth < limits.depth
      && Blank(gap) && (elements != [] ==> gap == [])
      && |elements| <= limits.arrayElements
      && ElementsOk(limits, elements, depth + 1)
    case ObjectTree(gap, members) =>
      && depth < limits.depth
      && Blank(gap) && (members != [] ==> gap == [])
      && |members| <= limits.objectMembers
      && MembersOk(limits, members, depth + 1)
  }

  predicate ElementOk(limits: Limits, e: Element, depth: nat)
    decreases e
  {
    Blank(e.lead) && Blank(e.trail) && TreeOk(limits, e.value, depth)
  }

  predicate ElementsOk(limits: Limits, es: seq<Element>, depth: nat)
    decreases es
  {
    es == [] || (ElementOk(limits, es[0], depth) && ElementsOk(limits, es[1..], depth))
  }

  predicate MemberOk(limits: Limits, m: Member, depth: nat)
    decreases m
  {
    && Blank(m.lead) && Blank(m.middle) && Blank(m.inner) && Blank(m.trail)
    && StringOk(limits, m.key)
    && TreeOk(limits, m.value, depth)
  }

  predicate MembersOk(limits: Limits, ms: seq<Member>, depth: nat)
    decreases ms
  {
    ms == [] || (MemberOk(limits, ms[0], depth) && MembersOk(limits, ms[1..], depth))
  }

  // --- The scanner ------------------------------------------------------------------------

  /** The value at `p`, which holds no white space. */
  function ParseTree(s: seq<Byte>, limits: Limits, p: nat, depth: nat): (r: Parse<Tree>)
    requires p <= |s|
    ensures r.Ok? ==> p < r.next <= |s|
    ensures r.Err? ==> r.offset <= |s|
    decreases |s| - p, 0
  {
    if At(s, p) == QUOTE then
      var token := ParseString(s, limits, p);
      if token.Err? then token.Fail() else Ok(StringTree(token.value), token.next)
    else if At(s, p) == OPEN_BRACE then
      if depth >= limits.depth then Err(MaximumDepth, p)
      else
        var q := SkipBlank(s, p + 1);
        if At(s, q) == CLOSE_BRACE then Ok(ObjectTree(s[p + 1..q], []), q + 1)
        else
          var members := ParseMembers(s, limits, p + 1, depth, 0);
          if members.Err? then members.Fail() else Ok(ObjectTree([], members.value), members.next)
    else if At(s, p) == OPEN_BRACKET then
      if depth >= limits.depth then Err(MaximumDepth, p)
      else
        var q := SkipBlank(s, p + 1);
        if At(s, q) == CLOSE_BRACKET then Ok(ArrayTree(s[p + 1..q], []), q + 1)
        else
          var elements := ParseElements(s, limits, p + 1, depth, 0);
          if elements.Err? then elements.Fail() else Ok(ArrayTree([], elements.value), elements.next)
    else if HasAt(s, p, TRUE_TEXT) then Ok(TrueTree, p + |TRUE_TEXT|)
    else if HasAt(s, p, FALSE_TEXT) then Ok(FalseTree, p + |FALSE_TEXT|)
    else if HasAt(s, p, NULL_TEXT) then Ok(NullTree, p + |NULL_TEXT|)
    else
      var number := ParseNumber(s, p);
      if number.Err? then number.Fail() else Ok(NumberTree(number.value), number.next)
  }

  /** An array element with the white space around it. */
  function ParseElement(s: seq<Byte>, limits: Limits, p: nat, depth: nat): (r: Parse<Element>)
    requires p <= |s|
    ensures r.Ok? ==> p < r.next <= |s|
    ensures r.Err? ==> r.offset <= |s|
    decreases |s| - p, 1
  {
    var q := SkipBlank(s, p);
    var value := ParseTree(s, limits, q, depth);
    if value.Err? then value.Fail()
    else
      var end := SkipBlank(s, value.next);
      Ok(Element(s[p..q], value.value, s[value.next..end]), end)
  }

  /** The elements from `p`, of which `n` precede, up to and including the closing bracket. */
  function ParseElements(s: seq<Byte>, limits: Limits, p: nat, depth: nat, n: nat): (r: Parse<seq<Element>>)
    requires p <= |s|
    ensures r.Ok? ==> p < r.next <= |s| && r.value != []
    ensures r.Err? ==> r.offset <= |s|
    decreases |s| - p, 2
  {
    if n >= limits.arrayElements then Err(ArrayTooLarge, SkipBlank(s, p))
    else
      var element := ParseElement(s, limits, p, depth + 1);
      if element.Err? then element.Fail()
      else if At(s, element.next) == CLOSE_BRACKET then Ok([element.value], element.next + 1)
      else if At(s, element.next) != COMMA then Err(ExpectedComma, element.next)
      else
        var rest := ParseElements(s, limits, element.next + 1, depth, n + 1);
        if rest.Err? then rest else Ok([element.value] + rest.value, rest.next)
  }

  /** An object member with the white space around it. */
  function ParseMember(s: seq<Byte>, limits: Limits, p: nat, depth: nat): (r: Parse<Member>)
    requires p <= |s|
    ensures r.Ok? ==> p < r.next <= |s|
    ensures r.Err? ==> r.offset <= |s|
    decreases |s| - p, 1
  {
    var q := SkipBlank(s, p);
    var key := ParseString(s, limits, q);
    if key.Err? then key.Fail()
    else
      var colon := SkipBlank(s, key.next);
      if At(s, colon) != COLON then Err(ExpectedColon, colon)
      else
        var start := SkipBlank(s, colon + 1);
        var value := ParseTree(s, limits, start, depth);
        if value.Err? then value.Fail()
        else
          var end := SkipBlank(s, value.next);
          Ok(Member(s[p..q], key.value, s[key.next..colon], s[colon + 1..start], value.value, s[value.next..end]),
             end)
  }

  /** The members from `p`, of which `n` precede, up to and including the closing brace. */
  function ParseMembers(s: seq<Byte>, limits: Limits, p: nat, depth: nat, n: nat): (r: Parse<seq<Member>>)
    requires p <= |s|
    ensures r.Ok? ==> p < r.next <= |s| && r.value != []
    ensures r.Err? ==> r.offset <= |s|
    decreases |s| - p, 2
  {
    if n >= limits.objectMembers then Err(ObjectTooLarge, SkipBlank(s, p))
    else
      var member := ParseMember(s, limits, p, depth + 1);
      if member.Err? then member.Fail()
      else if At(s, member.next) == CLOSE_BRACE then Ok([member.value], member.next + 1)
      else if At(s, member.next) != COMMA then Err(ExpectedComma, member.next)
      else
        var rest := ParseMembers(s, limits, member.next + 1, depth, n + 1);
        if rest.Err? then rest else Ok([member.value] + rest.value, rest.next)
  }

  // --- Soundness --------------------------------------------------------------------------

  /** `r` is the outcome of walking over the text `t`, which stands at `p`. */
  predicate Walked(s: seq<Byte>, p: nat, t: seq<Byte>, next: nat) {
    HasAt(s, p, t) && next == p + |t|
  }

  lemma WalkedConcat(s: seq<Byte>, p: nat, a: seq<Byte>, middle: nat, b: seq<Byte>, next: nat)
    requires Walked(s, p, a, middle) && Walked(s, middle, b, next)
    ensures Walked(s, p, a + b, next)
  {
    HasAtConcat(s, p, a, b);
  }

  lemma WalkedByte(s: seq<Byte>, p: nat, b: Byte)
    requires p < |s| && s[p] == b
    ensures Walked(s, p, [b], p + 1)
  {
  }

  lemma WalkedSlice(s: seq<Byte>, p: nat, q: nat)
    requires p <= q <= |s|
    ensures Walked(s, p, s[p..q], q)
  {
  }

  /** An accepted value is the text of a tree within the limits. */
  lemma {:induction false} ParseTreeSound(s: seq<Byte>, limits: Limits, p: nat, depth: nat)
    requires p <= |s| && ParseTree(s, limits, p, depth).Ok?
    ensures var r := ParseTree(s, limits, p, depth);
            TreeOk(limits, r.value, depth) && Walked(s, p, Text(r.value), r.next)
    decreases |s| - p, 3
  {
    hide ParseTree, TreeOk, Text, Walked;
    match ParseTree(s, limits, p, depth).value
    case ArrayTree(_, _) => ParseArraySound(s, limits, p, depth);
    case ObjectTree(_, _) => ParseObjectSound(s, limits, p, depth);
    case _ => ParseLeafSound(s, limits, p, depth);
  }

  lemma ParseLeafSound(s: seq<Byte>, limits: Limits, p: nat, depth: nat)
    requires p <= |s| && ParseTree(s, limits, p, depth).Ok?
    requires !ParseTree(s, limits, p, depth).value.ArrayTree? && !ParseTree(s, limits, p, depth).value.ObjectTree?
    ensures var r := ParseTree(s, limits, p, depth);
            TreeOk(limits, r.value, depth) && Walked(s, p, Text(r.value), r.next)
  {
    hide ParseString, ParseNumber, StringText, NumberText, StringOk, NumberOk;
    match ParseTree(s, limits, p, depth).value
    case StringTree(_) => ParseStringSound(s, limits, p);
    case NumberTree(_) => ParseNumberSound(s, p);
    case _ =>
  }

  lemma {:induction false} ParseArraySound(s: seq<Byte>, limits: Limits, p: nat, depth: nat)
    requires p <= |s| && ParseTree(s, limits, p, depth).Ok? && ParseTree(s, limits, p, depth).value.ArrayTree?
    ensures var r := ParseTree(s, limits, p, depth);
            TreeOk(limits, r.value, depth) && Walked(s, p, Text(r.value), r.next)
    decreases |s| - p, 2
  {
    hide Walked;
    var r := ParseTree(s, limits, p, depth);
    var q := SkipBlank(s, p + 1);
    WalkedByte(s, p, OPEN_BRACKET);
    if At(s, q) == CLOSE_BRACKET {
      WalkedSlice(s, p + 1, q);
      WalkedByte(s, q, CLOSE_BRACKET);
      WalkedConcat(s, p + 1, s[p + 1..q], q, [CLOSE_BRACKET], r.next);
    } else {
      ParseElementsSound(s, limits, p + 1, depth, 0);
      EmptyLeft(ElementsText(r.value.elements));
    }
    WalkedConcat(s, p, [OPEN_BRACKET], p + 1, r.value.gap + ElementsText(r.value.elements), r.next);
  }

  lemma {:induction false} ParseObjectSound(s: seq<Byte>, limits: Limits, p: nat, depth: nat)
    requires p <= |s| && ParseTree(s, limits, p, depth).Ok? && ParseTree(s, limits, p, depth).value.ObjectTree?
    ensures var r := ParseTree(s, limits, p, depth);
            TreeOk(limits, r.value, depth) && Walked(s, p, Text(r.value), r.next)
    decreases |s| - p, 2
  {
    hide Walked;
    var r := ParseTree(s, limits, p, depth);
    var q := SkipBlank(s, p + 1);
    WalkedByte(s, p, OPEN_BRACE);
    if At(s, q) == CLOSE_BRACE {
      WalkedSlice(s, p + 1, q);
      WalkedByte(s, q, CLOSE_BRACE);
      WalkedConcat(s, p + 1, s[p + 1..q], q, [CLOSE_BRACE], r.next);
    } else {
      ParseMembersSound(s, limits, p + 1, depth, 0);
      EmptyLeft(MembersText(r.value.members));
    }
    WalkedConcat(s, p, [OPEN_BRACE], p + 1, r.value.gap + MembersText(r.value.members), r.next);
  }

  lemma {:induction false} ParseElementSound(s: seq<Byte>, limits: Limits, p: nat, depth: nat)
    requires p <= |s| && ParseElement(s, limits, p, depth).Ok?
    ensures var r := ParseElement(s, limits, p, depth);
            ElementOk(limits, r.value, depth) && Walked(s, p, ElementText(r.value), r.next)
    decreases |s| - p, 4
  {
    hide Walked, Text, TreeOk, ParseTree;
    var r := ParseElement(s, limits, p, depth);
    var q := SkipBlank(s, p);
    var value := ParseTree(s, limits, q, depth);
    ParseTreeSound(s, limits, q, depth);
    WalkedSlice(s, p, q);
    WalkedSlice(s, value.next, r.next);
    WalkedConcat(s, q, Text(value.value), value.next, r.value.trail, r.next);
    WalkedConcat(s, p, r.value.lead, q, Text(value.value) + r.value.trail, r.next);
  }

  lemma ElementsTextCons(e: Element, rest: seq<Element>)
    ensures rest == [] ==> ElementsText([e] + rest) == ElementText(e) + [CLOSE_BRACKET]
    ensures rest != [] ==> ElementsText([e] + rest) == ElementText(e) + ([COMMA] + ElementsText(rest))
  {
    Cons(e, rest);
  }

  lemma ElementsOkCons(limits: Limits, e: Element, rest: seq<Element>, depth: nat)
    ensures ElementsOk(limits, [e] + rest, depth) <==> ElementOk(limits, e, depth) && ElementsOk(limits, rest, depth)
  {
    Cons(e, rest);
  }

  lemma {:induction false} ParseElementsSound(s: seq<Byte>, limits: Limits, p: nat, depth: nat, n: nat)
    requires p <= |s| && ParseElements(s, limits, p, depth, n).Ok?
    ensures var r := ParseElements(s, limits, p, depth, n);
            && n + |r.value| <= limits.arrayElements
            && ElementsOk(limits, r.value, depth + 1)
            && Walked(s, p, ElementsText(r.value), r.next)
    decreases |s| - p, 5
  {
    hide Walked, ElementText, ElementsText, ElementOk, ElementsOk, ParseElement;
    var r := ParseElements(s, limits, p, depth, n);
    var element := ParseElement(s, limits, p, depth + 1);
    ParseElementSound(s, limits, p, depth + 1);
    if At(s, element.next) == CLOSE_BRACKET {
      NoElementsOk(limits, depth + 1);
      assert [element.value] + [] == r.value;
      ElementsTextCons(element.value, []);
      ElementsOkCons(limits, element.value, [], depth + 1);
      WalkedByte(s, element.next, CLOSE_BRACKET);
      WalkedConcat(s, p, ElementText(element.value), element.next, [CLOSE_BRACKET], r.next);
    } else {
      var rest := ParseElements(s, limits, element.next + 1, depth, n + 1);
      ParseElementsSound(s, limits, element.next + 1, depth, n + 1);
      ElementsTextCons(element.value, rest.value);
      ElementsOkCons(limits, element.value, rest.value, depth + 1);
      WalkedByte(s, element.next, COMMA);
      WalkedConcat(s, element.next, [COMMA], element.next + 1, ElementsText(rest.value), r.next);
      WalkedConcat(s, p, ElementText(element.value), element.next, [COMMA] + ElementsText(rest.value), r.next);
    }
  }

  lemma NoElementsOk(limits: Limits, depth: nat)
    ensures ElementsOk(limits, [], depth) && MembersOk(limits, [], depth)
  {
  }

  lemma {:induction false} ParseMemberSound(s: seq<Byte>, limits: Limits, p: nat, depth: nat)
    requires p <= |s| && ParseMember(s, limits, p, depth).Ok?
    ensures var r := ParseMember(s, limits, p, depth);
            MemberOk(limits, r.value, depth) && Walked(s, p, MemberText(r.value), r.next)
    decreases |s| - p, 4
  {
    hide Walked, Text, TreeOk, ParseTree, ParseString, StringText, StringOk;
    var r := ParseMember(s, limits, p, depth);
    var m := r.value;
    var q := SkipBlank(s, p);
    var key := ParseString(s, limits, q);
    var colon := SkipBlank(s, key.next);
    var start := SkipBlank(s, colon + 1);
    var value := ParseTree(s, limits, start, depth);
    StringWalked(s, limits, q);
    ParseTreeSound(s, limits, start, depth);
    WalkedSlice(s, p, q);
    WalkedSlice(s, key.next, colon);
    WalkedByte(s, colon, COLON);
    WalkedSlice(s, colon + 1, start);
    WalkedSlice(s, value.next, r.next);
    var t5 := Text(m.value) + m.trail;
    var t4 := m.inner + t5;
    var t3 := [COLON] + t4;
    var t2 := m.middle + t3;
    WalkedConcat(s, start, Text(m.value), value.next, m.trail, r.next);
    WalkedConcat(s, colon + 1, m.inner, start, t5, r.next);
    WalkedConcat(s, colon, [COLON], colon + 1, t4, r.next);
    WalkedConcat(s, key.next, m.middle, colon, t3, r.next);
    WalkedConcat(s, q, StringText(m.key), key.next, t2, r.next);
    WalkedConcat(s, p, m.lead, q, StringText(m.key) + t2, r.next);
  }

  lemma StringWalked(s: seq<Byte>, limits: Limits, p: nat)
    requires p <= |s| && ParseString(s, limits, p).Ok?
    ensures var r := ParseString(s, limits, p);
            StringOk(limits, r.value) && Walked(s, p, StringText(r.value), r.next)
  {
    ParseStringSound(s, limits, p);
  }

  lemma MembersTextCons(m: Member, rest: seq<Member>)
    ensures rest == [] ==> MembersText([m] + rest) == MemberText(m) + [CLOSE_BRACE]
    ensures rest != [] ==> MembersText([m] + rest) == MemberText(m) + ([COMMA] + MembersText(rest))
  {
    Cons(m, rest);
  }

  lemma MembersOkCons(limits: Limits, m: Member, rest: seq<Member>, depth: nat)
    ensures MembersOk(limits, [m] + rest, depth) <==> MemberOk(limits, m, depth) && MembersOk(limits, rest, depth)
  {
    Cons(m, rest);
  }

  lemma {:induction false} ParseMembersSound(s: seq<Byte>, limits: Limits, p: nat, depth: nat, n: nat)
    requires p <= |s| && ParseMembers(s, limits, p, depth, n).Ok?
    ensures var r := ParseMembers(s, limits, p, depth, n);
            && n + |r.value| <= limits.objectMembers
            && MembersOk(limits, r.value, depth + 1)
            && Walked(s, p, MembersText(r.value), r.next)
    decreases |s| - p, 5
  {
    hide Walked, MemberText, MembersText, MemberOk, MembersOk, ParseMember;
    var r := ParseMembers(s, limits, p, depth, n);
    var member := ParseMember(s, limits, p, depth + 1);
    ParseMemberSound(s, limits, p, depth + 1);
    if At(s, member.next) == CLOSE_BRACE {
      NoElementsOk(limits, depth + 1);
      assert [member.value] + [] == r.value;
      MembersTextCons(member.value, []);
      MembersOkCons(limits, member.value, [], depth + 1);
      WalkedByte(s, member.next, CLOSE_BRACE);
      WalkedConcat(s, p, MemberText(member.value), member.next, [CLOSE_BRACE], r.next);
    } else {
      var rest := ParseMembers(s, limits, member.next + 1, depth, n + 1);
      ParseMembersSound(s, limits, member.next + 1, depth, n + 1);
      MembersTextCons(member.value, rest.value);
      MembersOkCons(limits, member.value, rest.value, depth + 1);
      WalkedByte(s, member.next, COMMA);
      WalkedConcat(s, member.next, [COMMA], member.next + 1, MembersText(rest.value), r.next);
      WalkedConcat(s, p, MemberText(member.value), member.next, [COMMA] + MembersText(rest.value), r.next);
    }
  }

  // --- Completeness -----------------------------------------------------------------------

  /** The first byte of a value tells what kind of value it is. */
  lemma TreeLead(limits: Limits, t: Tree, depth: nat)
    requires TreeOk(limits, t, depth)
    ensures Text(t) != [] && !IsBlank(Text(t)[0])
    ensures Text(t)[0] != CLOSE_BRACKET && Text(t)[0] != CLOSE_BRACE
    ensures (Text(t)[0] == QUOTE) == t.StringTree?
    ensures (Text(t)[0] == OPEN_BRACE) == t.ObjectTree?
    ensures (Text(t)[0] == OPEN_BRACKET) == t.ArrayTree?
    ensures (Text(t)[0] == TRUE_TEXT[0]) == t.TrueTree?
    ensures (Text(t)[0] == FALSE_TEXT[0]) == t.FalseTree?
    ensures (Text(t)[0] == NULL_TEXT[0]) == t.NullTree?
  {
    if t.NumberTree? {
      NumberLead(t.number);
    }
  }

  lemma NumberLead(n: Number)
    requires NumberOk(n)
    ensures NumberText(n) != [] && (NumberText(n)[0] == MINUS || IsDigit(NumberText(n)[0]))
  {
    if !n.negative {
      EmptyLeft(n.digits + (FractionText(n.fraction) + ExponentText(n.exponent)));
    }
  }

  /** The byte behind a value cannot be taken for a part of it. */
  predicate Delimited(s: seq<Byte>, t: Tree, next: nat) {
    t.NumberTree? ==> !NumberTail(At(s, next))
  }

  /** The scanner reads back the tree of any delimited text within the limits. */
  lemma {:induction false} ParseTreeComplete(s: seq<Byte>, limits: Limits, p: nat, depth: nat, t: Tree)
    requires TreeOk(limits, t, depth) && HasAt(s, p, Text(t)) && Delimited(s, t, p + |Text(t)|)
    ensures p <= |s| && ParseTree(s, limits, p, depth) == Ok(t, p + |Text(t)|)
    decreases t, 0
  {
    TreeLead(limits, t, depth);
    HasAtIndex(s, p, Text(t), 0);
    match t
    case StringTree(pieces) => ParseStringComplete(s, limits, p, pieces);
    case NumberTree(number) => NotLiteral(s, p); ParseNumberComplete(s, p, number);
    case TrueTree =>
    case FalseTree => NotLiteral(s, p);
    case NullTree => NotLiteral(s, p);
    case ArrayTree(gap, elements) => ParseArrayComplete(s, limits, p, depth, gap, elements);
    case ObjectTree(gap, members) => ParseObjectComplete(s, limits, p, depth, gap, members);
  }

  lemma NotLiteral(s: seq<Byte>, p: nat)
    requires p < |s|
    ensures s[p] != TRUE_TEXT[0] ==> !HasAt(s, p, TRUE_TEXT)
    ensures s[p] != FALSE_TEXT[0] ==> !HasAt(s, p, FALSE_TEXT)
    ensures s[p] != NULL_TEXT[0] ==> !HasAt(s, p, NULL_TEXT)
  {
    if HasAt(s, p, TRUE_TEXT) { HasAtIndex(s, p, TRUE_TEXT, 0); }
    if HasAt(s, p, FALSE_TEXT) { HasAtIndex(s, p, FALSE_TEXT, 0); }
    if HasAt(s, p, NULL_TEXT) { HasAtIndex(s, p, NULL_TEXT, 0); }
  }

  lemma SkipGap(s: seq<Byte>, p: nat, gap: seq<Byte>, close: Byte)
    requires HasAt(s, p, gap + [close]) && Blank(gap) && !IsBlank(close)
    ensures p <= |s| && SkipBlank(s, p) == p + |gap| && At(s, p + |gap|) == close
    ensures s[p..p + |gap|] == gap
  {
    HasAtConcat(s, p, gap, [close]);
    HasAtIndex(s, p + |gap|, [close], 0);
    SkipBlankIs(s, p, gap);
  }

  lemma {:induction false} ParseArrayComplete(
    s: seq<Byte>, limits: Limits, p: nat, depth: nat, gap: seq<Byte>, elements: seq<Element>)
    requires TreeOk(limits, ArrayTree(gap, elements), depth) && HasAt(s, p, Text(ArrayTree(gap, elements)))
    ensures p <= |s|
    ensures ParseTree(s, limits, p, depth) == Ok(ArrayTree(gap, elements), p + |Text(ArrayTree(gap, elements))|)
    decreases elements, 3
  {
    hide HasAt;
    var inside := gap + ElementsText(elements);
    HasAtConcat(s, p, [OPEN_BRACKET], inside);
    HasAtByte(s, p, OPEN_BRACKET);
    if elements == [] {
      SkipGap(s, p + 1, gap, CLOSE_BRACKET);
    } else {
      EmptyLeft(ElementsText(elements));
      ElementsLead(s, limits, p + 1, depth + 1, elements);
      ParseElementsComplete(s, limits, p + 1, depth, 0, elements);
    }
  }

  lemma HasAtByte(s: seq<Byte>, p: nat, b: Byte)
    requires HasAt(s, p, [b])
    ensures p < |s| && s[p] == b
  {
    HasAtIndex(s, p, [b], 0);
  }

  /** Behind the opening bracket, the white space of the first element ends at its value. */
  lemma ElementsLead(s: seq<Byte>, limits: Limits, p: nat, depth: nat, es: seq<Element>)
    requires es != [] && ElementsOk(limits, es, depth) && HasAt(s, p, ElementsText(es))
    ensures p <= |s| && SkipBlank(s, p) == p + |es[0].lead|
    ensures At(s, SkipBlank(s, p)) != CLOSE_BRACKET
  {
    hide HasAt, Text, TreeOk, SkipBlank;
    var e := es[0];
    HasAtFront(s, p, ElementText(e), if |es| == 1 then [CLOSE_BRACKET] else [COMMA] + ElementsText(es[1..]));
    HasAtConcat(s, p, e.lead, Text(e.value) + e.trail);
    HasAtConcat(s, p + |e.lead|, Text(e.value), e.trail);
    TreeLead(limits, e.value, depth);
    HasAtFirst(s, p + |e.lead|, Text(e.value));
    SkipBlankIs(s, p, e.lead);
  }

  lemma HasAtFront(s: seq<Byte>, p: nat, a: seq<Byte>, b: seq<Byte>)
    requires HasAt(s, p, a + b)
    ensures HasAt(s, p, a)
  {
    HasAtConcat(s, p, a, b);
  }

  lemma HasAtFirst(s: seq<Byte>, p: nat, t: seq<Byte>)
    requires t != [] && HasAt(s, p, t)
    ensures p < |s| && s[p] == t[0]
  {
    HasAtIndex(s, p, t, 0);
  }

  /** A value with white space around it, delimited by a byte that is neither. */
  lemma {:induction false} ParseElementComplete(s: seq<Byte>, limits: Limits, p: nat, depth: nat, e: Element)
    requires ElementOk(limits, e, depth) && HasAt(s, p, ElementText(e))
    requires !IsBlank(At(s, p + |ElementText(e)|)) && !NumberTail(At(s, p + |ElementText(e)|))
    ensures p <= |s| && ParseElement(s, limits, p, depth) == Ok(e, p + |ElementText(e)|)
    decreases e, 1
  {
    hide HasAt, Text, TreeOk, SkipBlank, ParseTree;
    var q := p + |e.lead|;
    var next := q + |Text(e.value)|;
    HasAtConcat(s, p, e.lead, Text(e.value) + e.trail);
    HasAtConcat(s, q, Text(e.value), e.trail);
    TreeLead(limits, e.value, depth);
    HasAtFirst(s, q, Text(e.value));
    SkipBlankIs(s, p, e.lead);
    SkipBlankIs(s, next, e.trail);
    BlankDelimits(s, next, e.trail);
    ParseTreeComplete(s, limits, q, depth, e.value);
    HasAtSlice(s, p, e.lead);
    HasAtSlice(s, next, e.trail);
  }

  lemma HasAtSlice(s: seq<Byte>, p: nat, t: seq<Byte>)
    requires HasAt(s, p, t)
    ensures p + |t| <= |s| && s[p..p + |t|] == t
  {
  }

  lemma BlankDelimits(s: seq<Byte>, p: nat, ws: seq<Byte>)
    requires HasAt(s, p, ws) && Blank(ws) && !NumberTail(At(s, p + |ws|))
    ensures !NumberTail(At(s, p))
  {
    if ws != [] {
      HasAtIndex(s, p, ws, 0);
    }
  }

  lemma {:induction false} ParseElementsComplete(
    s: seq<Byte>, limits: Limits, p: nat, depth: nat, n: nat, es: seq<Element>)
    requires es != [] && ElementsOk(limits, es, depth + 1) && n + |es| <= limits.arrayElements
    requires HasAt(s, p, ElementsText(es))
    ensures p <= |s| && ParseElements(s, limits, p, depth, n) == Ok(es, p + |ElementsText(es)|)
    decreases es, 2
  {
    hide HasAt, ElementOk, ElementText, ParseElement;
    var e, rest := es[0], es[1..];
    var next := p + |ElementText(e)|;
    if |es| == 1 {
      HasAtConcat(s, p, ElementText(e), [CLOSE_BRACKET]);
      HasAtByte(s, next, CLOSE_BRACKET);
      ParseElementComplete(s, limits, p, depth + 1, e);
      assert [e] == es;
    } else {
      HasAtConcat(s, p, ElementText(e), [COMMA] + ElementsText(rest));
      HasAtConcat(s, next, [COMMA], ElementsText(rest));
      HasAtByte(s, next, COMMA);
      ParseElementComplete(s, limits, p, depth + 1, e);
      ParseElementsComplete(s, limits, next + 1, depth, n + 1, rest);
      assert [e] + rest == es;
    }
  }

  lemma {:induction false} ParseObjectComplete(
    s: seq<Byte>, limits: Limits, p: nat, depth: nat, gap: seq<Byte>, members: seq<Member>)
    requires TreeOk(limits, ObjectTree(gap, members), depth) && HasAt(s, p, Text(ObjectTree(gap, members)))
    ensures p <= |s|
    ensures ParseTree(s, limits, p, depth) == Ok(ObjectTree(gap, members), p + |Text(ObjectTree(gap, members))|)
    decreases members, 3
  {
    hide HasAt;
    var inside := gap + MembersText(members);
    HasAtConcat(s, p, [OPEN_BRACE], inside);
    HasAtByte(s, p, OPEN_BRACE);
    if members == [] {
      SkipGap(s, p + 1, gap, CLOSE_BRACE);
    } else {
      EmptyLeft(MembersText(members));
      MembersLead(s, limits, p + 1, depth + 1, members);
      ParseMembersComplete(s, limits, p + 1, depth, 0, members);
    }
  }

  lemma MembersLead(s: seq<Byte>, limits: Limits, p: nat, depth: nat, ms: seq<Member>)
    requires ms != [] && MembersOk(limits, ms, depth) && HasAt(s, p, MembersText(ms))
    ensures p <= |s| && SkipBlank(s, p) == p + |ms[0].lead|
    ensures At(s, SkipBlank(s, p)) != CLOSE_BRACE
  {
    hide HasAt, StringText;
    var m := ms[0];
    HasAtFront(s, p, MemberText(m), if |ms| == 1 then [CLOSE_BRACE] else [COMMA] + MembersText(ms[1..]));
    MemberTextSplit(s, p, m);
    KeyLead(s, p + |m.lead|, m.key);
    SkipBlankIs(s, p, m.lead);
  }

  lemma KeyLead(s: seq<Byte>, p: nat, key: seq<Piece>)
    requires HasAt(s, p, StringText(key))
    ensures p < |s| && s[p] == QUOTE
  {
    HasAtFirst(s, p, StringText(key));
  }

  /** The parts of a member stand behind each other. */
  lemma MemberTextSplit(s: seq<Byte>, p: nat, m: Member)
    ensures var q := p + |m.lead|;
            var middle := q + |StringText(m.key)|;
            var colon := middle + |m.middle|;
            var start := colon + 1 + |m.inner|;
            var end := start + |Text(m.value)|;
            && p + |MemberText(m)| == end + |m.trail|
            && (HasAt(s, p, MemberText(m)) <==>
                && HasAt(s, p, m.lead)
                && HasAt(s, q, StringText(m.key))
                && HasAt(s, middle, m.middle)
                && HasAt(s, colon, [COLON])
                && HasAt(s, colon + 1, m.inner)
                && HasAt(s, start, Text(m.value))
                && HasAt(s, end, m.trail))
  {
    hide HasAt, StringText, Text;
    var q := p + |m.lead|;
    var middle := q + |StringText(m.key)|;
    var colon := middle + |m.middle|;
    var start := colon + 1 + |m.inner|;
    var t5 := Text(m.value) + m.trail;
    var t4 := m.inner + t5;
    var t3 := [COLON] + t4;
    var t2 := m.middle + t3;
    var t1 := StringText(m.key) + t2;
    HasAtConcat(s, start, Text(m.value), m.trail);
    HasAtConcat(s, colon + 1, m.inner, t5);
    HasAtConcat(s, colon, [COLON], t4);
    HasAtConcat(s, middle, m.middle, t3);
    HasAtConcat(s, q, StringText(m.key), t2);
    HasAtConcat(s, p, m.lead, t1);
  }

  /** The white space of a member ends at its key, colon, value and delimiter. */
  lemma MemberGaps(s: seq<Byte>, limits: Limits, p: nat, depth: nat, m: Member)
    requires MemberOk(limits, m, depth) && HasAt(s, p, MemberText(m))
    requires !IsBlank(At(s, p + |MemberText(m)|)) && !NumberTail(At(s, p + |MemberText(m)|))
    ensures var q := p + |m.lead|;
            var middle := q + |StringText(m.key)|;
            var colon := middle + |m.middle|;
            var start := colon + 1 + |m.inner|;
            var end := start + |Text(m.value)|;
            && p <= q <= middle <= colon < start <= end <= |s|
            && SkipBlank(s, p) == q && SkipBlank(s, middle) == colon && s[colon] == COLON
            && SkipBlank(s, colon + 1) == start && SkipBlank(s, end) == p + |MemberText(m)|
            && !NumberTail(At(s, end))
  {
    hide HasAt, StringText, Text, MemberText, TreeOk, StringOk, SkipBlank;
    MemberTextSplit(s, p, m);
    var q := p + |m.lead|;
    var middle := q + |StringText(m.key)|;
    var colon := middle + |m.middle|;
    var start := colon + 1 + |m.inner|;
    var end := start + |Text(m.value)|;
    KeyLead(s, q, m.key);
    HasAtByte(s, colon, COLON);
    TreeLead(limits, m.value, depth);
    HasAtFirst(s, start, Text(m.value));
    HasAtSlice(s, end, m.trail);
    SkipBlankIs(s, p, m.lead);
    SkipBlankIs(s, middle, m.middle);
    SkipBlankIs(s, colon + 1, m.inner);
    SkipBlankIs(s, end, m.trail);
    BlankDelimits(s, end, m.trail);
  }

  lemma MemberSlices(s: seq<Byte>, p: nat, m: Member)
    requires HasAt(s, p, MemberText(m))
    ensures var q := p + |m.lead|;
            var middle := q + |StringText(m.key)|;
            var colon := middle + |m.middle|;
            var start := colon + 1 + |m.inner|;
            var end := start + |Text(m.value)|;
            && end + |m.trail| == p + |MemberText(m)| <= |s|
            && s[p..q] == m.lead && s[middle..colon] == m.middle
            && s[colon + 1..start] == m.inner && s[end..end + |m.trail|] == m.trail
            && HasAt(s, q, StringText(m.key)) && HasAt(s, start, Text(m.value))
  {
    hide HasAt, StringText, Text, MemberText;
    MemberTextSplit(s, p, m);
    var q := p + |m.lead|;
    var middle := q + |StringText(m.key)|;
    var colon := middle + |m.middle|;
    var start := colon + 1 + |m.inner|;
    HasAtSlice(s, p, m.lead);
    HasAtSlice(s, middle, m.middle);
    HasAtSlice(s, colon + 1, m.inner);
    HasAtSlice(s, start + |Text(m.value)|, m.trail);
  }

  /** The parts of a member, scanned one after the other. */
  lemma MemberOfParts(
    s: seq<Byte>, limits: Limits, p: nat, q: nat, middle: nat, colon: nat, start: nat, end: nat, next: nat,
    depth: nat, m: Member)
    requires p <= q <= middle <= colon < start <= end <= next <= |s| && s[colon] == COLON
    requires SkipBlank(s, p) == q && ParseString(s, limits, q) == Ok(m.key, middle)
    requires SkipBlank(s, middle) == colon && SkipBlank(s, colon + 1) == start
    requires ParseTree(s, limits, start, depth) == Ok(m.value, end) && SkipBlank(s, end) == next
    requires s[p..q] == m.lead && s[middle..colon] == m.middle
    requires s[colon + 1..start] == m.inner && s[end..next] == m.trail
    ensures ParseMember(s, limits, p, depth) == Ok(m, next)
  {
    hide ParseTree, ParseString, SkipBlank;
  }

  lemma {:induction false} ParseMemberComplete(s: seq<Byte>, limits: Limits, p: nat, depth: nat, m: Member)
    requires MemberOk(limits, m, depth) && HasAt(s, p, MemberText(m))
    requires !IsBlank(At(s, p + |MemberText(m)|)) && !NumberTail(At(s, p + |MemberText(m)|))
    ensures p <= |s| && ParseMember(s, limits, p, depth) == Ok(m, p + |MemberText(m)|)
    decreases m, 1
  {
    hide HasAt, StringText, Text, MemberText, StringOk, TreeOk, ParseTree, ParseString, SkipBlank, Blank, ParseMember;
    MemberGaps(s, limits, p, depth, m);
    MemberSlices(s, p, m);
    var q := p + |m.lead|;
    var start := q + |StringText(m.key)| + |m.middle| + 1 + |m.inner|;
    var end := start + |Text(m.value)|;
    ParseStringComplete(s, limits, q, m.key);
    ParseTreeComplete(s, limits, start, depth, m.value);
    MemberOfParts(s, limits, p, q, q + |StringText(m.key)|, start - |m.inner| - 1, start, end, end + |m.trail|, depth,
                  m);
  }

  lemma {:induction false} ParseMembersComplete(
    s: seq<Byte>, limits: Limits, p: nat, depth: nat, n: nat, ms: seq<Member>)
    requires ms != [] && MembersOk(limits, ms, depth + 1) && n + |ms| <= limits.objectMembers
    requires HasAt(s, p, MembersText(ms))
    ensures p <= |s| && ParseMembers(s, limits, p, depth, n) == Ok(ms, p + |MembersText(ms)|)
    decreases ms, 2
  {
    hide HasAt, MemberOk, MemberText, ParseMember;
    var m, rest := ms[0], ms[1..];
    var next := p + |MemberText(m)|;
    if |ms| == 1 {
      HasAtConcat(s, p, MemberText(m), [CLOSE_BRACE]);
      HasAtByte(s, next, CLOSE_BRACE);
      ParseMemberComplete(s, limits, p, depth + 1, m);
      assert [m] == ms;
    } else {
      HasAtConcat(s, p, MemberText(m), [COMMA] + MembersText(rest));
      HasAtConcat(s, next, [COMMA], MembersText(rest));
      HasAtByte(s, next, COMMA);
      ParseMemberComplete(s, limits, p, depth + 1, m);
      ParseMembersComplete(s, limits, next + 1, depth, n + 1, rest);
      assert [m] + rest == ms;
    }
  }

  // --- Whole texts ------------------------------------------------------------------------

  /** Skipping one value and the white space around it consumes all of `s`. */
  predicate SkipAccepts(s: seq<Byte>, limits: Limits) {
    var r := ParseTree(s, limits, SkipBlank(s, 0), 0);
    r.Ok? && SkipBlank(s, r.next) == |s|
  }

  /** `s` is one value of the grammar, within the limits, with white space around it. */
  ghost predicate IsJsonText(s: seq<Byte>, limits: Limits) {
    exists e: Element :: ElementOk(limits, e, 0) && ElementText(e) == s
  }

  lemma AcceptedIsJsonText(s: seq<Byte>, limits: Limits)
    requires SkipAccepts(s, limits)
    ensures IsJsonText(s, limits)
  {
    hide ParseTree, SkipBlank, ElementOk, ElementText;
    ParseElementSound(s, limits, 0, 0);
    var r := ParseElement(s, limits, 0, 0);
    assert r.next == |s|;
    assert s[0..|s|] == s;
    assert ElementOk(limits, r.value, 0) && ElementText(r.value) == s;
  }

  lemma JsonTextIsAccepted(s: seq<Byte>, limits: Limits, e: Element)
    requires ElementOk(limits, e, 0) && ElementText(e) == s
    ensures SkipAccepts(s, limits)
  {
    hide ParseTree, SkipBlank, ElementOk, ElementText;
    ParseElementComplete(s, limits, 0, 0, e);
  }

  /** The skipping scanner accepts exactly the JSON texts within the limits. */
  lemma SkipAcceptsIffJsonText(s: seq<Byte>, limits: Limits)
    ensures SkipAccepts(s, limits) <==> IsJsonText(s, limits)
  {
    if SkipAccepts(s, limits) {
      AcceptedIsJsonText(s, limits);
    }
    if e: Element :| ElementOk(limits, e, 0) && ElementText(e) == s {
      JsonTextIsAccepted(s, limits, e);
    }
  }

  /** The grammar is unambiguous: a text within the limits has one tree. */
  lemma TextIsUnambiguous(limits: Limits, e: Element, f: Element)
    requires ElementOk(limits, e, 0) && ElementOk(limits, f, 0) && ElementText(e) == ElementText(f)
    ensures e == f
  {
    hide ElementOk, ElementText, ParseElement;
    var s := ElementText(e);
    ParseElementComplete(s, limits, 0, 0, e);
    ParseElementComplete(s, limits, 0, 0, f);
  }
}
