/** Which element of an array is refused, and where, and when an array has the wrong size. */
module JsonArrayErrors {
  import opened Bytes
  import opened JsonTree
  import opened JsonTypes
  import opened JsonReader
  import opened JsonAgreement

  /** Elements, each with the comma behind it. */
  function ElementsPrefix(es: seq<Element>): seq<Byte> {
    if es == [] then [] else ElementText(es[0]) + ([COMMA] + ElementsPrefix(es[1..]))
  }

  /** An element that stands at `p`, with a comma or the closing bracket behind it. */
  predicate ElementAt(s: seq<Byte>, limits: Limits, p: nat, depth: nat, e: Element) {
    && ElementOk(limits, e, depth) && HasAt(s, p, ElementText(e))
    && (At(s, p + |ElementText(e)|) == COMMA || At(s, p + |ElementText(e)|) == CLOSE_BRACKET)
  }

  lemma ElementIsScanned(s: seq<Byte>, limits: Limits, p: nat, depth: nat, e: Element)
    requires ElementAt(s, limits, p, depth, e)
    ensures p <= |s| && ParseElement(s, limits, p, depth) == Ok(e, p + |ElementText(e)|)
    ensures SkipBlank(s, p) == p + |e.lead|
  {
    hide HasAt, TreeOk, Text, ParseTree, SkipBlank;
    ParseElementComplete(s, limits, p, depth, e);
  }

  /** An element is read as the value it means, to the separator behind it, or refused where its value is. */
  lemma ElementIsRead(s: seq<Byte>, limits: Limits, schema: Schema, of: Ty, p: nat, depth: nat, e: Element)
    requires ElementAt(s, limits, p, depth, e)
    ensures p <= |s|
    ensures var item := ReadValue(s, limits, schema, of, SkipBlank(s, p), depth);
            var v := Interp(schema, limits.rejectUnknown, of, e.value);
            && (item.Ok? <==> v.Some?)
            && (item.Ok? ==> item.value == v.value && SkipBlank(s, item.next) == p + |ElementText(e)|)
  {
    hide ElementAt, ParseElement, ReadValue, Interp, SkipBlank, ElementText;
    ElementIsScanned(s, limits, p, depth, e);
    ReadItemMeaning(s, limits, schema, of, p, depth);
  }

  lemma PrefixFront(s: seq<Byte>, limits: Limits, p: nat, depth: nat, es: seq<Element>)
    requires es != [] && ElementsOk(limits, es, depth) && HasAt(s, p, ElementsPrefix(es))
    ensures var next := p + |ElementText(es[0])|;
            && ElementAt(s, limits, p, depth, es[0])
            && next < |s| && At(s, next) == COMMA && HasAt(s, next + 1, ElementsPrefix(es[1..]))
  {
    hide HasAt, ElementOk, ElementText;
    var next := p + |ElementText(es[0])|;
    HasAtConcat(s, p, ElementText(es[0]), [COMMA] + ElementsPrefix(es[1..]));
    HasAtConcat(s, next, [COMMA], ElementsPrefix(es[1..]));
    HasAtByte(s, next, COMMA);
  }

  lemma ItemIsPassed(
    s: seq<Byte>, limits: Limits, schema: Schema, of: Ty, p: nat, depth: nat, done: seq<Val>, e: Element, v: Val)
    requires p <= |s| && ElementAt(s, limits, p, depth + 1, e) && At(s, p + |ElementText(e)|) == COMMA
    requires Interp(schema, limits.rejectUnknown, of, e.value) == Some(v) && p + |ElementText(e)| < |s|
    requires |done| < limits.arrayElements
    ensures ReadItems(s, limits, schema, of, SkipBlank(s, p), depth, done)
         == ReadItems(s, limits, schema, of, SkipBlank(s, p + |ElementText(e)| + 1), depth, done + [v])
  {
    hide ElementAt, ReadValue, Interp, SkipBlank, ElementText;
    ElementIsRead(s, limits, schema, of, p, depth + 1, e);
  }

  lemma FixedIsPassed(
    s: seq<Byte>, limits: Limits, schema: Schema, of: Ty, size: nat, p: nat, depth: nat, done: seq<Val>, e: Element,
    v: Val)
    requires p <= |s| && ElementAt(s, limits, p, depth + 1, e) && At(s, p + |ElementText(e)|) == COMMA
    requires Interp(schema, limits.rejectUnknown, of, e.value) == Some(v) && p + |ElementText(e)| < |s|
    requires |done| + 1 < size
    ensures ReadFixed(s, limits, schema, of, size, SkipBlank(s, p), depth, done)
         == ReadFixed(s, limits, schema, of, size, SkipBlank(s, p + |ElementText(e)| + 1), depth, done + [v])
  {
    hide ElementAt, ReadValue, Interp, SkipBlank, ElementText;
    ElementIsRead(s, limits, schema, of, p, depth + 1, e);
  }

  /** Accepted elements of a vector are passed over one by one, */
  lemma {:induction false} ItemsArePassed(
    s: seq<Byte>, limits: Limits, schema: Schema, of: Ty, p: nat, depth: nat, done: seq<Val>, es: seq<Element>)
    requires p <= |s| && ElementsOk(limits, es, depth + 1) && HasAt(s, p, ElementsPrefix(es))
    requires InterpElements(schema, limits.rejectUnknown, of, es).Some? && |done| + |es| <= limits.arrayElements
    ensures p + |ElementsPrefix(es)| <= |s|
    ensures var vs := InterpElements(schema, limits.rejectUnknown, of, es).value;
            ReadItems(s, limits, schema, of, SkipBlank(s, p), depth, done)
            == ReadItems(s, limits, schema, of, SkipBlank(s, p + |ElementsPrefix(es)|), depth, done + vs)
    decreases |es|
  {
    hide HasAt, ElementAt, ElementOk, ElementText, ReadItems, SkipBlank, Interp;
    var vs := InterpElements(schema, limits.rejectUnknown, of, es).value;
    if es == [] {
      assert done + vs == done;
    } else {
      PrefixFront(s, limits, p, depth + 1, es);
      var v := Interp(schema, limits.rejectUnknown, of, es[0].value).value;
      ItemIsPassed(s, limits, schema, of, p, depth, done, es[0], v);
      ItemsArePassed(s, limits, schema, of, p + |ElementText(es[0])| + 1, depth, done + [v], es[1..]);
      Assoc(done, [v], vs[1..]);
      assert vs == [v] + vs[1..];
    }
  }

  /** and so are those of an array that has more. */
  lemma {:induction false} FixedArePassed(
    s: seq<Byte>, limits: Limits, schema: Schema, of: Ty, size: nat, p: nat, depth: nat, done: seq<Val>,
    es: seq<Element>)
    requires p <= |s| && ElementsOk(limits, es, depth + 1) && HasAt(s, p, ElementsPrefix(es))
    requires InterpElements(schema, limits.rejectUnknown, of, es).Some? && |done| + |es| < size
    ensures p + |ElementsPrefix(es)| <= |s|
    ensures var vs := InterpElements(schema, limits.rejectUnknown, of, es).value;
            ReadFixed(s, limits, schema, of, size, SkipBlank(s, p), depth, done)
            == ReadFixed(s, limits, schema, of, size, SkipBlank(s, p + |ElementsPrefix(es)|), depth, done + vs)
    decreases |es|
  {
    hide HasAt, ElementAt, ElementOk, ElementText, ReadFixed, SkipBlank, Interp;
    var vs := InterpElements(schema, limits.rejectUnknown, of, es).value;
    if es == [] {
      assert done + vs == done;
    } else {
      PrefixFront(s, limits, p, depth + 1, es);
      var v := Interp(schema, limits.rejectUnknown, of, es[0].value).value;
      FixedIsPassed(s, limits, schema, of, size, p, depth, done, es[0], v);
      FixedArePassed(s, limits, schema, of, size, p + |ElementText(es[0])| + 1, depth, done + [v], es[1..]);
      Assoc(done, [v], vs[1..]);
      assert vs == [v] + vs[1..];
    }
  }

  /** What the reader of a fixed array makes of its next element. */
  lemma NextFixed(
    s: seq<Byte>, limits: Limits, schema: Schema, of: Ty, size: nat, p: nat, depth: nat, done: seq<Val>, e: Element)
    requires p <= |s| && |done| < size && ElementAt(s, limits, p, depth + 1, e)
    ensures var end := p + |ElementText(e)|;
            var r := ReadFixed(s, limits, schema, of, size, SkipBlank(s, p), depth, done);
            var item := ReadValue(s, limits, schema, of, SkipBlank(s, p), depth + 1);
            var v := Interp(schema, limits.rejectUnknown, of, e.value);
            && (v.None? ==> item.Err? && r == item)
            && (v.Some? && |done| + 1 < size && At(s, end) == CLOSE_BRACKET ==> r == Err(ArraySize, end))
            && (v.Some? && |done| + 1 == size && At(s, end) == COMMA ==> r == Err(ArraySize, end))
            && (v.Some? && |done| + 1 == size && At(s, end) == CLOSE_BRACKET ==> r.Ok? && r.next == end + 1)
  {
    hide ElementAt, ReadValue, Interp, SkipBlank, ElementText;
    ElementIsRead(s, limits, schema, of, p, depth + 1, e);
  }

  lemma NextItem(
    s: seq<Byte>, limits: Limits, schema: Schema, of: Ty, p: nat, depth: nat, done: seq<Val>, e: Element)
    requires p <= |s| && ElementAt(s, limits, p, depth + 1, e)
    ensures var end := p + |ElementText(e)|;
            var r := ReadItems(s, limits, schema, of, SkipBlank(s, p), depth, done);
            var item := ReadValue(s, limits, schema, of, SkipBlank(s, p), depth + 1);
            var v := Interp(schema, limits.rejectUnknown, of, e.value);
            if |done| >= limits.arrayElements then r == Err(ArrayTooLarge, SkipBlank(s, p))
            else
              && (v.None? ==> item.Err? && r == item)
              && (v.Some? && At(s, end) == CLOSE_BRACKET ==> r.Ok? && r.next == end + 1)
  {
    hide ElementAt, ReadValue, Interp, SkipBlank, ElementText;
    ElementIsRead(s, limits, schema, of, p, depth + 1, e);
  }

  /** Behind the opening bracket stands an element, not the closing bracket. */
  lemma NotClosed(s: seq<Byte>, limits: Limits, p: nat, depth: nat, es: seq<Element>, e: Element)
    requires p <= |s| && ElementsOk(limits, es, depth) && HasAt(s, p, ElementsPrefix(es))
    requires ElementAt(s, limits, p + |ElementsPrefix(es)|, depth, e)
    ensures At(s, SkipBlank(s, p)) != CLOSE_BRACKET
  {
    hide HasAt, ElementText, SkipBlank, ElementAt, ElementsOk;
    if es != [] {
      PrefixFront(s, limits, p, depth, es);
      ElementStarts(s, limits, p, depth, es[0]);
    } else {
      ElementStarts(s, limits, p, depth, e);
    }
  }

  lemma ElementStarts(s: seq<Byte>, limits: Limits, p: nat, depth: nat, e: Element)
    requires ElementAt(s, limits, p, depth, e)
    ensures p <= |s| && At(s, SkipBlank(s, p)) != CLOSE_BRACKET
  {
    hide HasAt, TreeOk, Text, ElementText, SkipBlank;
    ElementIsScanned(s, limits, p, depth, e);
    if At(s, SkipBlank(s, p)) == CLOSE_BRACKET {
      NoValueCloses(s, limits, SkipBlank(s, p), depth);
    }
  }

  lemma NoValueCloses(s: seq<Byte>, limits: Limits, p: nat, depth: nat)
    requires p <= |s| && At(s, p) == CLOSE_BRACKET
    ensures ParseTree(s, limits, p, depth).Err?
  {
    hide ParseElements, ParseMembers;
    if p < |s| {
      NotLiteral(s, p);
    }
  }

  /** In a vector the first element without a meaning gives its own error, and so does one too many. */
  lemma DecidingItem(
    s: seq<Byte>, limits: Limits, schema: Schema, of: Ty, p: nat, depth: nat, es: seq<Element>, e: Element)
    requires p < |s| && s[p] == OPEN_BRACKET && depth < limits.depth && |es| <= limits.arrayElements
    requires ElementsOk(limits, es, depth + 1) && HasAt(s, p + 1, ElementsPrefix(es))
    requires InterpElements(schema, limits.rejectUnknown, of, es).Some?
    requires ElementAt(s, limits, p + 1 + |ElementsPrefix(es)|, depth + 1, e)
    ensures var q := p + 1 + |ElementsPrefix(es)|;
            var r := ReadVector(s, limits, schema, of, p, depth);
            var item := ReadValue(s, limits, schema, of, SkipBlank(s, q), depth + 1);
            if |es| == limits.arrayElements then r == Err(ArrayTooLarge, SkipBlank(s, q))
            else Interp(schema, limits.rejectUnknown, of, e.value).None? ==> item.Err? && r == item
  {
    hide HasAt, ElementAt, ElementsOk, ElementText, ReadItems, ReadValue, SkipBlank, Interp, ElementsPrefix;
    hide InterpElements;
    var vs := InterpElements(schema, limits.rejectUnknown, of, es).value;
    ItemsArePassed(s, limits, schema, of, p + 1, depth, [], es);
    EmptyLeft(vs);
    NotClosed(s, limits, p + 1, depth + 1, es, e);
    NextItem(s, limits, schema, of, p + 1 + |ElementsPrefix(es)|, depth, vs, e);
  }

  /**
   In a fixed array the first element without a meaning gives its own error; an array of another size is refused at
   the closing bracket that comes too early, or at the comma that comes too late.
   */
  lemma DecidingElement(
    s: seq<Byte>, limits: Limits, schema: Schema, of: Ty, size: nat, p: nat, depth: nat, es: seq<Element>, e: Element)
    requires p < |s| && s[p] == OPEN_BRACKET && depth < limits.depth && |es| < size <= limits.arrayElements
    requires ElementsOk(limits, es, depth + 1) && HasAt(s, p + 1, ElementsPrefix(es))
    requires InterpElements(schema, limits.rejectUnknown, of, es).Some?
    requires ElementAt(s, limits, p + 1 + |ElementsPrefix(es)|, depth + 1, e)
    ensures var q := p + 1 + |ElementsPrefix(es)|;
            var end := q + |ElementText(e)|;
            var r := ReadArray(s, limits, schema, of, size, p, depth);
            var item := ReadValue(s, limits, schema, of, SkipBlank(s, q), depth + 1);
            var v := Interp(schema, limits.rejectUnknown, of, e.value);
            && (v.None? ==> item.Err? && r == item)
            && (v.Some? && |es| + 1 < size && At(s, end) == CLOSE_BRACKET ==> r == Err(ArraySize, end))
            && (v.Some? && |es| + 1 == size && At(s, end) == COMMA ==> r == Err(ArraySize, end))
            && (v.Some? && |es| + 1 == size && At(s, end) == CLOSE_BRACKET ==> r.Ok? && r.next == end + 1)
  {
    hide HasAt, ElementAt, ElementsOk, ElementText, ReadFixed, ReadValue, SkipBlank, Interp, ElementsPrefix;
    hide InterpElements;
    var vs := InterpElements(schema, limits.rejectUnknown, of, es).value;
    FixedArePassed(s, limits, schema, of, size, p + 1, depth, [], es);
    EmptyLeft(vs);
    NotClosed(s, limits, p + 1, depth + 1, es, e);
    NextFixed(s, limits, schema, of, size, p + 1 + |ElementsPrefix(es)|, depth, vs, e);
  }

  /** The empty array, and arrays that may not be empty. */
  lemma EmptyArray(s: seq<Byte>, limits: Limits, schema: Schema, of: Ty, size: nat, p: nat, depth: nat)
    requires p < |s| && s[p] == OPEN_BRACKET && depth < limits.depth
    ensures var q := SkipBlank(s, p + 1);
            var closed := At(s, q) == CLOSE_BRACKET;
            var r := ReadArray(s, limits, schema, of, size, p, depth);
            && (size > limits.arrayElements ==> r == Err(ArrayTooLarge, p + 1))
            && (size == 0 ==> r == if closed then Ok(ListVal([]), q + 1) else Err(ArraySize, q))
            && (0 < size <= limits.arrayElements && closed ==> r == Err(ArraySize, q + 1))
            && (closed ==> ReadVector(s, limits, schema, of, p, depth) == Ok(ListVal([]), q + 1))
  {
    hide SkipBlank, ReadFixed, ReadItems;
  }

  /** A skipped array with one element too many is refused where that element starts, whatever it is. */
  lemma {:induction false} SkippedTooLarge(
    s: seq<Byte>, limits: Limits, p: nat, depth: nat, n: nat, es: seq<Element>)
    requires p <= |s| && ElementsOk(limits, es, depth + 1) && HasAt(s, p, ElementsPrefix(es))
    requires n + |es| == limits.arrayElements
    ensures p + |ElementsPrefix(es)| <= |s|
    ensures ParseElements(s, limits, p, depth, n) == Err(ArrayTooLarge, SkipBlank(s, p + |ElementsPrefix(es)|))
    decreases |es|
  {
    hide HasAt, ElementAt, ElementOk, ElementText, ParseElement, SkipBlank;
    if es != [] {
      PrefixFront(s, limits, p, depth + 1, es);
      ElementIsScanned(s, limits, p, depth + 1, es[0]);
      SkippedTooLarge(s, limits, p + |ElementText(es[0])| + 1, depth, n + 1, es[1..]);
    }
  }
}
