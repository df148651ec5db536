/** The typed reader accepts what the untyped scanner accepts and the type gives a meaning to. */
module JsonAgreement {
  import opened Bytes
  import opened JsonString
  import opened JsonNumber
  import opened JsonTree
  import opened JsonTypes
  import opened JsonReader
  import opened Decimal

  /** What a successful scan found, and where it ended. */
  function Outcome<T>(r: Parse<T>): Option<(T, nat)> {
    if r.Err? then None else Some((r.value, r.next))
  }

  /** The meaning of a scanned tree at a type. */
  function Meaning(schema: Schema, reject: bool, ty: Ty, t: Parse<Tree>): Option<(Val, nat)> {
    if t.Err? then None
    else
      var v := Interp(schema, reject, ty, t.value);
      if v.None? then None else Some((v.value, t.next))
  }

  // --- The scanner, by kind of value ------------------------------------------------------

  lemma ScanString(s: seq<Byte>, limits: Limits, p: nat, depth: nat)
    requires p <= |s|
    ensures var t := ParseTree(s, limits, p, depth);
            var r := ParseString(s, limits, p);
            && (r.Ok? <==> t.Ok? && t.value.StringTree?)
            && (r.Ok? ==> t == Ok(StringTree(r.value), r.next))
  {
    hide StringRest, ParseMembers, ParseElements, ParseNumber;
  }

  lemma ScanNumber(s: seq<Byte>, limits: Limits, p: nat, depth: nat)
    requires p <= |s|
    ensures var t := ParseTree(s, limits, p, depth);
            var r := ParseNumber(s, p);
            && (r.Ok? <==> t.Ok? && t.value.NumberTree?)
            && (r.Ok? ==> t == Ok(NumberTree(r.value), r.next))
  {
    hide ParseString, ParseMembers, ParseElements, ParseFraction, ParseExponent, DigitsEnd;
    if p < |s| {
      NotLiteral(s, p);
    }
  }

  lemma ScanLiteral(s: seq<Byte>, limits: Limits, p: nat, depth: nat)
    requires p <= |s|
    ensures var t := ParseTree(s, limits, p, depth);
            && (HasAt(s, p, TRUE_TEXT) <==> t.Ok? && t.value.TrueTree?)
            && (HasAt(s, p, FALSE_TEXT) <==> t.Ok? && t.value.FalseTree?)
            && (HasAt(s, p, NULL_TEXT) <==> t.Ok? && t.value.NullTree?)
            && (t.Ok? && t.value.TrueTree? ==> t.next == p + |TRUE_TEXT|)
            && (t.Ok? && t.value.FalseTree? ==> t.next == p + |FALSE_TEXT|)
            && (t.Ok? && t.value.NullTree? ==> t.next == p + |NULL_TEXT|)
  {
    hide ParseString, ParseMembers, ParseElements, ParseNumber;
    if p < |s| {
      NotLiteral(s, p);
    }
  }

  lemma ScanArray(s: seq<Byte>, limits: Limits, p: nat, depth: nat)
    requires p <= |s|
    ensures var t := ParseTree(s, limits, p, depth);
            if depth >= limits.depth || At(s, p) != OPEN_BRACKET then !(t.Ok? && t.value.ArrayTree?)
            else
              var q := SkipBlank(s, p + 1);
              if At(s, q) == CLOSE_BRACKET then t.Ok? && t.value.ArrayTree? && t.value.elements == [] && t.next == q + 1
              else
                var es := ParseElements(s, limits, p + 1, depth, 0);
                (if es.Err? then t.Err? else t == Ok(ArrayTree([], es.value), es.next))
  {
    hide ParseString, ParseMembers, ParseElements, ParseNumber;
  }

  lemma ScanObject(s: seq<Byte>, limits: Limits, p: nat, depth: nat)
    requires p <= |s|
    ensures var t := ParseTree(s, limits, p, depth);
            if depth >= limits.depth || At(s, p) != OPEN_BRACE then !(t.Ok? && t.value.ObjectTree?)
            else
              var q := SkipBlank(s, p + 1);
              if At(s, q) == CLOSE_BRACE then t.Ok? && t.value.ObjectTree? && t.value.members == [] && t.next == q + 1
              else
                var ms := ParseMembers(s, limits, p + 1, depth, 0);
                (if ms.Err? then t.Err? else t == Ok(ObjectTree([], ms.value), ms.next))
  {
    hide ParseString, ParseMembers, ParseElements, ParseNumber;
  }

  // --- Leaves -----------------------------------------------------------------------------

  lemma ReadStringMeaning(s: seq<Byte>, limits: Limits, schema: Schema, p: nat, depth: nat)
    requires p <= |s|
    ensures var r := ParseString(s, limits, p);
            (if r.Err? then None else Some((StringVal(PiecesValue(r.value)), r.next)))
            == Meaning(schema, limits.rejectUnknown, StringTy, ParseTree(s, limits, p, depth))
  {
    hide ParseTree, ParseString;
    ScanString(s, limits, p, depth);
  }

  lemma ReadViewMeaning(s: seq<Byte>, limits: Limits, schema: Schema, p: nat, depth: nat)
    requires p <= |s|
    ensures Outcome(ReadView(s, limits, p))
            == Meaning(schema, limits.rejectUnknown, ViewTy, ParseTree(s, limits, p, depth))
  {
    hide ParseTree, ParseString, AllRaw;
    ScanString(s, limits, p, depth);
  }

  lemma ReadBoolMeaning(s: seq<Byte>, limits: Limits, schema: Schema, p: nat, depth: nat)
    requires p <= |s|
    ensures Outcome(ReadBool(s, p)) == Meaning(schema, limits.rejectUnknown, BoolTy, ParseTree(s, limits, p, depth))
  {
    hide ParseTree, HasAt;
    ScanLiteral(s, limits, p, depth);
  }

  lemma ReadIntegerMeaning(s: seq<Byte>, limits: Limits, schema: Schema, lo: int, hi: int, p: nat, depth: nat)
    requires p <= |s|
    ensures Outcome(ReadInteger(s, lo, hi, p))
            == Meaning(schema, limits.rejectUnknown, IntTy(lo, hi), ParseTree(s, limits, p, depth))
  {
    hide ParseTree, ParseNumber, FromChars, NumberText, NumberOk, IntegerOf;
    ScanNumber(s, limits, p, depth);
    var token := ParseNumber(s, p);
    if token.Ok? {
      ParseNumberSound(s, p);
      assert s[p..token.next] == NumberText(token.value);
      FromCharsOfToken(token.value, lo, hi);
    }
  }

  lemma ReadEnumMeaning(s: seq<Byte>, limits: Limits, schema: Schema, es: seq<Enumerator>, p: nat, depth: nat)
    requires p <= |s|
    ensures Outcome(ReadEnum(s, limits, es, p))
            == Meaning(schema, limits.rejectUnknown, EnumTy(es), ParseTree(s, limits, p, depth))
  {
    hide ParseTree, ParseString;
    ScanString(s, limits, p, depth);
  }

  // --- Values -----------------------------------------------------------------------------

  /** The typed reader computes the meaning of the tree the untyped scanner walks over. */
  lemma {:induction false} ReadValueMeaning(
    s: seq<Byte>, limits: Limits, schema: Schema, ty: Ty, p: nat, depth: nat)
    requires p <= |s|
    ensures Outcome(ReadValue(s, limits, schema, ty, p, depth))
            == Meaning(schema, limits.rejectUnknown, ty, ParseTree(s, limits, SkipBlank(s, p), depth))
    decreases |s| - p, Nesting(ty) + 3
  {
    hide ParseTree, HasAt, ReadView, ReadBool, ReadInteger, ReadEnum, ReadVector, ReadArray, ReadObject, ParseString;
    hide InterpElements, InterpMembers, Finish;
    var q := SkipBlank(s, p);
    SkipBlankTwice(s, p);
    ScanLiteral(s, limits, q, depth);
    match ty
    case OptionalTy(of) => ReadValueMeaning(s, limits, schema, of, q, depth);
    case StringTy => ReadStringMeaning(s, limits, schema, q, depth);
    case ViewTy => ReadViewMeaning(s, limits, schema, q, depth);
    case BoolTy => ReadBoolMeaning(s, limits, schema, q, depth);
    case IntTy(lo, hi) => ReadIntegerMeaning(s, limits, schema, lo, hi, q, depth);
    case EnumTy(es) => ReadEnumMeaning(s, limits, schema, es, q, depth);
    case VectorTy(of) => ReadVectorMeaning(s, limits, schema, of, q, depth);
    case ArrayTy(of, size) => ReadArrayMeaning(s, limits, schema, of, size, q, depth);
    case ObjectTy(name) => ReadObjectMeaning(s, limits, schema, name, q, depth);
  }

  // --- Arrays -----------------------------------------------------------------------------

  /** The meaning of scanned elements as the items behind those in `done`. */
  function ItemsMeaning(schema: Schema, reject: bool, of: Ty, es: Parse<seq<Element>>, done: seq<Val>)
    : Option<(Val, nat)>
  {
    if es.Err? then None
    else
      var vs := InterpElements(schema, reject, of, es.value);
      if vs.None? then None else Some((ListVal(done + vs.value), es.next))
  }

  lemma {:induction false} ReadVectorMeaning(
    s: seq<Byte>, limits: Limits, schema: Schema, of: Ty, p: nat, depth: nat)
    requires p <= |s|
    ensures Outcome(ReadVector(s, limits, schema, of, p, depth))
            == Meaning(schema, limits.rejectUnknown, VectorTy(of), ParseTree(s, limits, p, depth))
    decreases |s| - p, 2
  {
    hide ParseTree, ParseElements, ReadItems;
    ScanArray(s, limits, p, depth);
    if depth < limits.depth && At(s, p) == OPEN_BRACKET {
      var q := SkipBlank(s, p + 1);
      if At(s, q) == CLOSE_BRACKET {
        assert ReadVector(s, limits, schema, of, p, depth) == Ok(ListVal([]), q + 1);
        var t := ParseTree(s, limits, p, depth);
        assert InterpElements(schema, limits.rejectUnknown, of, t.value.elements) == Some([]);
      }
      ReadItemsMeaning(s, limits, schema, of, p + 1, depth, []);
      EmptyItems(schema, limits.rejectUnknown, of, ParseElements(s, limits, p + 1, depth, 0));
    }
  }

  lemma EmptyItems(schema: Schema, reject: bool, of: Ty, es: Parse<seq<Element>>)
    ensures ItemsMeaning(schema, reject, of, es, [])
            == if es.Err? then None else Meaning(schema, reject, VectorTy(of), Ok(ArrayTree([], es.value), es.next))
  {
    hide InterpElements;
    if es.Ok? && InterpElements(schema, reject, of, es.value).Some? {
      EmptyLeft(InterpElements(schema, reject, of, es.value).value);
    }
  }

  lemma InterpElementsCons(schema: Schema, reject: bool, of: Ty, e: Element, rest: seq<Element>)
    ensures var v := Interp(schema, reject, of, e.value);
            var vs := InterpElements(schema, reject, of, rest);
            InterpElements(schema, reject, of, [e] + rest)
            == if v.None? || vs.None? then None else Some([v.value] + vs.value)
  {
    hide Interp;
    Cons(e, rest);
  }

  /** Reading one item is scanning one element and taking its meaning. */
  lemma {:induction false} ReadItemMeaning(
    s: seq<Byte>, limits: Limits, schema: Schema, of: Ty, p: nat, depth: nat)
    requires p <= |s|
    ensures ItemAgrees(s, limits, schema, of, p, depth)
    decreases |s| - p, Nesting(of) + 4
  {
    hide ParseTree, Interp, ReadValue;
    SkipBlankTwice(s, p);
    ReadValueMeaning(s, limits, schema, of, SkipBlank(s, p), depth);
  }

  /** The two scans agree on the elements from `p`. */
  predicate ItemsAgree(s: seq<Byte>, limits: Limits, schema: Schema, of: Ty, p: nat, depth: nat, done: seq<Val>)
    requires p <= |s|
  {
    Outcome(ReadItems(s, limits, schema, of, SkipBlank(s, p), depth, done))
    == ItemsMeaning(schema, limits.rejectUnknown, of, ParseElements(s, limits, p, depth, |done|), done)
  }

  lemma {:induction false} ReadItemsMeaning(
    s: seq<Byte>, limits: Limits, schema: Schema, of: Ty, p: nat, depth: nat, done: seq<Val>)
    requires p <= |s|
    ensures ItemsAgree(s, limits, schema, of, p, depth, done)
    decreases |s| - p, Nesting(of) + 5
  {
    hide ItemsAgree, ParseElement, Interp, ItemAgrees, SkipBlank;
    var e := ParseElement(s, limits, p, depth + 1);
    if |done| >= limits.arrayElements {
      ItemsTooMany(s, limits, schema, of, p, depth, done);
    } else {
      ReadItemMeaning(s, limits, schema, of, p, depth + 1);
      if e.Ok? && At(s, e.next) == COMMA {
        if Interp(schema, limits.rejectUnknown, of, e.value.value).Some? {
          var v := Interp(schema, limits.rejectUnknown, of, e.value.value).value;
          ReadItemsMeaning(s, limits, schema, of, e.next + 1, depth, done + [v]);
        }
        ItemsMore(s, limits, schema, of, p, depth, done);
      } else {
        ItemsEnd(s, limits, schema, of, p, depth, done);
      }
    }
  }

  lemma ItemsTooMany(s: seq<Byte>, limits: Limits, schema: Schema, of: Ty, p: nat, depth: nat, done: seq<Val>)
    requires p <= |s| && |done| >= limits.arrayElements
    ensures ItemsAgree(s, limits, schema, of, p, depth, done)
  {
  }

  /** The two scans agree on the element at `p`. */
  predicate ItemAgrees(s: seq<Byte>, limits: Limits, schema: Schema, of: Ty, p: nat, depth: nat)
    requires p <= |s|
  {
    var item := ReadValue(s, limits, schema, of, SkipBlank(s, p), depth);
    var e := ParseElement(s, limits, p, depth);
    && (item.Ok? <==> e.Ok? && Interp(schema, limits.rejectUnknown, of, e.value.value).Some?)
    && (item.Ok? ==>
        && Interp(schema, limits.rejectUnknown, of, e.value.value) == Some(item.value)
        && SkipBlank(s, item.next) == e.next)
  }

  lemma ItemsEnd(s: seq<Byte>, limits: Limits, schema: Schema, of: Ty, p: nat, depth: nat, done: seq<Val>)
    requires p <= |s| && |done| < limits.arrayElements
    requires ItemAgrees(s, limits, schema, of, p, depth + 1)
    requires var e := ParseElement(s, limits, p, depth + 1); e.Ok? ==> At(s, e.next) != COMMA
    ensures ItemsAgree(s, limits, schema, of, p, depth, done)
  {
    hide ParseElement, Interp, InterpElements, ReadValue, SkipBlank;
    var e := ParseElement(s, limits, p, depth + 1);
    if e.Ok? && At(s, e.next) == CLOSE_BRACKET {
      LastItem(schema, limits.rejectUnknown, of, e.value);
    }
  }

  /** Scanned elements with one more in front. */
  function InFront(e: Element, rest: Parse<seq<Element>>): Parse<seq<Element>> {
    if rest.Err? then rest else Ok([e] + rest.value, rest.next)
  }

  /** Taking the meaning of one element more moves it to the items that are done. */
  lemma ItemsMeaningInFront(
    schema: Schema, reject: bool, of: Ty, e: Element, rest: Parse<seq<Element>>, done: seq<Val>)
    ensures var v := Interp(schema, reject, of, e.value);
            ItemsMeaning(schema, reject, of, InFront(e, rest), done)
            == if v.None? then None else ItemsMeaning(schema, reject, of, rest, done + [v.value])
  {
    hide Interp, InterpElements;
    if rest.Ok? {
      InterpElementsCons(schema, reject, of, e, rest.value);
      var v, vs := Interp(schema, reject, of, e.value), InterpElements(schema, reject, of, rest.value);
      if v.Some? && vs.Some? {
        Assoc(done, [v.value], vs.value);
      }
    }
  }

  lemma ParseElementsMore(s: seq<Byte>, limits: Limits, p: nat, depth: nat, n: nat)
    requires p <= |s| && n < limits.arrayElements
    requires var e := ParseElement(s, limits, p, depth + 1); e.Ok? && At(s, e.next) == COMMA
    ensures var e := ParseElement(s, limits, p, depth + 1);
            ParseElements(s, limits, p, depth, n)
            == InFront(e.value, ParseElements(s, limits, e.next + 1, depth, n + 1))
  {
    hide ParseElement;
  }

  lemma ReadItemsMore(s: seq<Byte>, limits: Limits, schema: Schema, of: Ty, p: nat, depth: nat, done: seq<Val>)
    requires p <= |s| && |done| < limits.arrayElements
    requires ItemAgrees(s, limits, schema, of, p, depth + 1)
    requires var e := ParseElement(s, limits, p, depth + 1); e.Ok? && At(s, e.next) == COMMA
    ensures var e := ParseElement(s, limits, p, depth + 1);
            var v := Interp(schema, limits.rejectUnknown, of, e.value.value);
            var r := ReadItems(s, limits, schema, of, SkipBlank(s, p), depth, done);
            if v.None? then r.Err?
            else r == ReadItems(s, limits, schema, of, SkipBlank(s, e.next + 1), depth, done + [v.value])
  {
    hide ParseElement, Interp, ReadValue;
  }

  lemma ItemsMore(s: seq<Byte>, limits: Limits, schema: Schema, of: Ty, p: nat, depth: nat, done: seq<Val>)
    requires p <= |s| && |done| < limits.arrayElements
    requires ItemAgrees(s, limits, schema, of, p, depth + 1)
    requires var e := ParseElement(s, limits, p, depth + 1); e.Ok? && At(s, e.next) == COMMA
    requires var e := ParseElement(s, limits, p, depth + 1);
             var v := Interp(schema, limits.rejectUnknown, of, e.value.value);
             v.Some? ==> ItemsAgree(s, limits, schema, of, e.next + 1, depth, done + [v.value])
    ensures ItemsAgree(s, limits, schema, of, p, depth, done)
  {
    hide ParseElement, ParseElements, ReadItems, Interp, ItemsMeaning, ItemAgrees, SkipBlank;
    var e := ParseElement(s, limits, p, depth + 1);
    ParseElementsMore(s, limits, p, depth, |done|);
    ReadItemsMore(s, limits, schema, of, p, depth, done);
    var rest := ParseElements(s, limits, e.next + 1, depth, |done| + 1);
    ItemsMeaningInFront(schema, limits.rejectUnknown, of, e.value, rest, done);
  }

  lemma LastItem(schema: Schema, reject: bool, of: Ty, e: Element)
    ensures var v := Interp(schema, reject, of, e.value);
            InterpElements(schema, reject, of, [e]) == if v.None? then None else Some([v.value])
  {
    hide Interp;
    assert InterpElements(schema, reject, of, []) == Some([]);
    InterpElementsCons(schema, reject, of, e, []);
    assert [e] + [] == [e];
    var v := Interp(schema, reject, of, e.value);
    if v.Some? {
      assert [v.value] + [] == [v.value];
    }
  }

  // --- Fixed arrays -----------------------------------------------------------------------

  /** The meaning of scanned elements as the rest of an array of `size` items. */
  function FixedMeaning(schema: Schema, reject: bool, of: Ty, size: nat, es: Parse<seq<Element>>, done: seq<Val>)
    : Option<(Val, nat)>
  {
    if es.Ok? && |done| + |es.value| == size then ItemsMeaning(schema, reject, of, es, done) else None
  }

  lemma {:induction false} ReadArrayMeaning(
    s: seq<Byte>, limits: Limits, schema: Schema, of: Ty, size: nat, p: nat, depth: nat)
    requires p <= |s|
    ensures Outcome(ReadArray(s, limits, schema, of, size, p, depth))
            == Meaning(schema, limits.rejectUnknown, ArrayTy(of, size), ParseTree(s, limits, p, depth))
    decreases |s| - p, 2
  {
    hide ParseTree, ParseElements, ReadFixed, InterpElements, SkipBlank, ElementsOk, ElementsText, Walked;
    ScanArray(s, limits, p, depth);
    if depth < limits.depth && At(s, p) == OPEN_BRACKET {
      if At(s, SkipBlank(s, p + 1)) == CLOSE_BRACKET {
        NoItems(schema, limits.rejectUnknown, of, ParseTree(s, limits, p, depth).value.elements);
      } else {
        ArrayItems(s, limits, schema, of, size, p, depth);
      }
    }
  }

  lemma NoItems(schema: Schema, reject: bool, of: Ty, es: seq<Element>)
    requires es == []
    ensures InterpElements(schema, reject, of, es) == Some([])
  {
  }

  lemma {:induction false} ArrayItems(
    s: seq<Byte>, limits: Limits, schema: Schema, of: Ty, size: nat, p: nat, depth: nat)
    requires p < |s| && depth < limits.depth && s[p] == OPEN_BRACKET
    requires At(s, SkipBlank(s, p + 1)) != CLOSE_BRACKET
    ensures Outcome(ReadArray(s, limits, schema, of, size, p, depth))
            == Meaning(schema, limits.rejectUnknown, ArrayTy(of, size), ParseTree(s, limits, p, depth))
    decreases |s| - p, 1
  {
    hide ParseTree, ParseElements, ReadFixed, InterpElements, SkipBlank, ElementsOk, ElementsText, Walked;
    ScanArray(s, limits, p, depth);
    var es := ParseElements(s, limits, p + 1, depth, 0);
    if es.Ok? {
      ParseElementsSound(s, limits, p + 1, depth, 0);
    }
    EmptyItems(schema, limits.rejectUnknown, of, es);
    if 0 < size <= limits.arrayElements {
      ReadFixedMeaning(s, limits, schema, of, size, p + 1, depth, []);
    }
  }

  predicate FixedAgree(
    s: seq<Byte>, limits: Limits, schema: Schema, of: Ty, size: nat, p: nat, depth: nat, done: seq<Val>)
    requires p <= |s| && |done| < size
  {
    Outcome(ReadFixed(s, limits, schema, of, size, SkipBlank(s, p), depth, done))
    == FixedMeaning(schema, limits.rejectUnknown, of, size, ParseElements(s, limits, p, depth, |done|), done)
  }

  lemma {:induction false} ReadFixedMeaning(
    s: seq<Byte>, limits: Limits, schema: Schema, of: Ty, size: nat, p: nat, depth: nat, done: seq<Val>)
    requires p <= |s| && |done| < size <= limits.arrayElements
    ensures FixedAgree(s, limits, schema, of, size, p, depth, done)
    decreases |s| - p, Nesting(of) + 5
  {
    hide FixedAgree, ParseElement, Interp, ItemAgrees, SkipBlank;
    var e := ParseElement(s, limits, p, depth + 1);
    ReadItemMeaning(s, limits, schema, of, p, depth + 1);
    if e.Ok? && At(s, e.next) == COMMA && |done| + 1 < size {
      if Interp(schema, limits.rejectUnknown, of, e.value.value).Some? {
        var v := Interp(schema, limits.rejectUnknown, of, e.value.value).value;
        ReadFixedMeaning(s, limits, schema, of, size, e.next + 1, depth, done + [v]);
      }
      FixedMore(s, limits, schema, of, size, p, depth, done);
    } else {
      FixedEnd(s, limits, schema, of, size, p, depth, done);
    }
  }

  lemma FixedEnd(
    s: seq<Byte>, limits: Limits, schema: Schema, of: Ty, size: nat, p: nat, depth: nat, done: seq<Val>)
    requires p <= |s| && |done| < size <= limits.arrayElements
    requires ItemAgrees(s, limits, schema, of, p, depth + 1)
    requires var e := ParseElement(s, limits, p, depth + 1);
             !(e.Ok? && At(s, e.next) == COMMA && |done| + 1 < size)
    ensures FixedAgree(s, limits, schema, of, size, p, depth, done)
  {
    hide FixedAgree, ParseElement, Interp, ItemAgrees;
    var e := ParseElement(s, limits, p, depth + 1);
    if e.Ok? && At(s, e.next) == CLOSE_BRACKET {
      FixedClosed(s, limits, schema, of, size, p, depth, done);
    } else if e.Ok? && At(s, e.next) == COMMA {
      FixedTooMany(s, limits, schema, of, size, p, depth, done);
    } else {
      FixedBroken(s, limits, schema, of, size, p, depth, done);
    }
  }

  lemma FixedClosed(
    s: seq<Byte>, limits: Limits, schema: Schema, of: Ty, size: nat, p: nat, depth: nat, done: seq<Val>)
    requires p <= |s| && |done| < size <= limits.arrayElements
    requires ItemAgrees(s, limits, schema, of, p, depth + 1)
    requires var e := ParseElement(s, limits, p, depth + 1); e.Ok? && At(s, e.next) == CLOSE_BRACKET
    ensures FixedAgree(s, limits, schema, of, size, p, depth, done)
  {
    hide ParseElement, Interp, InterpElements, ReadValue, SkipBlank;
    LastItem(schema, limits.rejectUnknown, of, ParseElement(s, limits, p, depth + 1).value);
  }

  lemma FixedTooMany(
    s: seq<Byte>, limits: Limits, schema: Schema, of: Ty, size: nat, p: nat, depth: nat, done: seq<Val>)
    requires p <= |s| && |done| + 1 == size <= limits.arrayElements
    requires ItemAgrees(s, limits, schema, of, p, depth + 1)
    requires var e := ParseElement(s, limits, p, depth + 1); e.Ok? && At(s, e.next) == COMMA
    ensures FixedAgree(s, limits, schema, of, size, p, depth, done)
  {
    hide ParseElement, Interp, InterpElements, ReadValue, SkipBlank, ItemsMeaning;
    ParseElementsMore(s, limits, p, depth, |done|);
    assert ReadFixed(s, limits, schema, of, size, SkipBlank(s, p), depth, done).Err?;
  }

  lemma FixedBroken(
    s: seq<Byte>, limits: Limits, schema: Schema, of: Ty, size: nat, p: nat, depth: nat, done: seq<Val>)
    requires p <= |s| && |done| < size <= limits.arrayElements
    requires ItemAgrees(s, limits, schema, of, p, depth + 1)
    requires var e := ParseElement(s, limits, p, depth + 1);
             e.Ok? ==> At(s, e.next) != COMMA && At(s, e.next) != CLOSE_BRACKET
    ensures FixedAgree(s, limits, schema, of, size, p, depth, done)
  {
    hide ParseElement, Interp, InterpElements, ReadValue, SkipBlank, ItemsMeaning;
  }

  lemma ReadFixedMore(
    s: seq<Byte>, limits: Limits, schema: Schema, of: Ty, size: nat, p: nat, depth: nat, done: seq<Val>)
    requires p <= |s| && |done| + 1 < size
    requires ItemAgrees(s, limits, schema, of, p, depth + 1)
    requires var e := ParseElement(s, limits, p, depth + 1); e.Ok? && At(s, e.next) == COMMA
    ensures var e := ParseElement(s, limits, p, depth + 1);
            var v := Interp(schema, limits.rejectUnknown, of, e.value.value);
            var r := ReadFixed(s, limits, schema, of, size, SkipBlank(s, p), depth, done);
            if v.None? then r.Err?
            else r == ReadFixed(s, limits, schema, of, size, SkipBlank(s, e.next + 1), depth, done + [v.value])
  {
    hide ParseElement, Interp, ReadValue;
  }

  lemma FixedMore(
    s: seq<Byte>, limits: Limits, schema: Schema, of: Ty, size: nat, p: nat, depth: nat, done: seq<Val>)
    requires p <= |s| && |done| + 1 < size <= limits.arrayElements
    requires ItemAgrees(s, limits, schema, of, p, depth + 1)
    requires var e := ParseElement(s, limits, p, depth + 1); e.Ok? && At(s, e.next) == COMMA
    requires var e := ParseElement(s, limits, p, depth + 1);
             var v := Interp(schema, limits.rejectUnknown, of, e.value.value);
             v.Some? ==> FixedAgree(s, limits, schema, of, size, e.next + 1, depth, done + [v.value])
    ensures FixedAgree(s, limits, schema, of, size, p, depth, done)
  {
    hide ParseElement, ParseElements, ReadFixed, Interp, ItemsMeaning, ItemAgrees, SkipBlank;
    var e := ParseElement(s, limits, p, depth + 1);
    ParseElementsMore(s, limits, p, depth, |done|);
    ReadFixedMore(s, limits, schema, of, size, p, depth, done);
    var rest := ParseElements(s, limits, e.next + 1, depth, |done| + 1);
    ItemsMeaningInFront(schema, limits.rejectUnknown, of, e.value, rest, done);
  }

  // --- Objects ----------------------------------------------------------------------------

  /** The slots scanned members fill. */
  function MembersMeaning(
    schema: Schema, reject: bool, fields: seq<Field>, ms: Parse<seq<Member>>, slots: Slots): Option<(Slots, nat)>
    requires |slots| == |fields|
  {
    if ms.Err? then None
    else
      var r := InterpMembers(schema, reject, fields, ms.value, slots);
      if r.None? then None else Some((r.value, ms.next))
  }

  function MemberMeaning(
    schema: Schema, reject: bool, fields: seq<Field>, m: Parse<Member>, slots: Slots): Option<(Slots, nat)>
    requires |slots| == |fields|
  {
    if m.Err? then None
    else
      var r := InterpMember(schema, reject, fields, m.value, slots);
      if r.None? then None else Some((r.value, m.next))
  }

  lemma {:induction false} ReadObjectMeaning(
    s: seq<Byte>, limits: Limits, schema: Schema, name: string, p: nat, depth: nat)
    requires p <= |s|
    ensures Outcome(ReadObject(s, limits, schema, FieldsOf(schema, name), p, depth))
            == Meaning(schema, limits.rejectUnknown, ObjectTy(name), ParseTree(s, limits, p, depth))
    decreases |s| - p, 2
  {
    hide ParseTree, ParseMembers, ReadMembers, Finish, InterpMember;
    ScanObject(s, limits, p, depth);
    if depth < limits.depth && At(s, p) == OPEN_BRACE {
      var fields := FieldsOf(schema, name);
      var q := SkipBlank(s, p + 1);
      if At(s, q) == CLOSE_BRACE {
        var t := ParseTree(s, limits, p, depth);
        assert InterpMembers(schema, limits.rejectUnknown, fields, t.value.members, NoSlots(fields))
            == Some(NoSlots(fields));
      }
      ReadMembersMeaning(s, limits, schema, fields, p + 1, depth, 0, NoSlots(fields));
    }
  }

  predicate MembersAgree(
    s: seq<Byte>, limits: Limits, schema: Schema, fields: seq<Field>, p: nat, depth: nat, n: nat, slots: Slots)
    requires p <= |s| && |slots| == |fields|
  {
    Outcome(ReadMembers(s, limits, schema, fields, SkipBlank(s, p), depth, n, slots))
    == MembersMeaning(schema, limits.rejectUnknown, fields, ParseMembers(s, limits, p, depth, n), slots)
  }

  predicate MemberAgrees(
    s: seq<Byte>, limits: Limits, schema: Schema, fields: seq<Field>, p: nat, depth: nat, slots: Slots)
    requires p <= |s| && |slots| == |fields|
  {
    Outcome(ReadMember(s, limits, schema, fields, SkipBlank(s, p), depth, slots))
    == MemberMeaning(schema, limits.rejectUnknown, fields, ParseMember(s, limits, p, depth), slots)
  }

  lemma {:induction false} ReadMembersMeaning(
    s: seq<Byte>, limits: Limits, schema: Schema, fields: seq<Field>, p: nat, depth: nat, n: nat, slots: Slots)
    requires p <= |s| && |slots| == |fields|
    ensures MembersAgree(s, limits, schema, fields, p, depth, n, slots)
    decreases |s| - p, 1
  {
    hide MembersAgree, MemberAgrees, ParseMember, InterpMember;
    var m := ParseMember(s, limits, p, depth + 1);
    ReadMemberMeaning(s, limits, schema, fields, p, depth + 1, slots);
    if n < limits.objectMembers && m.Ok? && At(s, m.next) == COMMA {
      var next := InterpMember(schema, limits.rejectUnknown, fields, m.value, slots);
      if next.Some? {
        ReadMembersMeaning(s, limits, schema, fields, m.next + 1, depth, n + 1, next.value);
      }
      MembersMore(s, limits, schema, fields, p, depth, n, slots);
    } else {
      MembersEnd(s, limits, schema, fields, p, depth, n, slots);
    }
  }

  lemma MembersEnd(
    s: seq<Byte>, limits: Limits, schema: Schema, fields: seq<Field>, p: nat, depth: nat, n: nat, slots: Slots)
    requires p <= |s| && |slots| == |fields|
    requires MemberAgrees(s, limits, schema, fields, p, depth + 1, slots)
    requires var m := ParseMember(s, limits, p, depth + 1);
             !(n < limits.objectMembers && m.Ok? && At(s, m.next) == COMMA)
    ensures MembersAgree(s, limits, schema, fields, p, depth, n, slots)
  {
    hide ParseMember, ReadMember, InterpMember;
    var m := ParseMember(s, limits, p, depth + 1);
    if n < limits.objectMembers && m.Ok? && At(s, m.next) == CLOSE_BRACE {
      InterpMembersCons(schema, limits.rejectUnknown, fields, m.value, [], slots);
      assert [m.value] + [] == [m.value];
    }
  }

  lemma MembersMore(
    s: seq<Byte>, limits: Limits, schema: Schema, fields: seq<Field>, p: nat, depth: nat, n: nat, slots: Slots)
    requires p <= |s| && |slots| == |fields| && n < limits.objectMembers
    requires MemberAgrees(s, limits, schema, fields, p, depth + 1, slots)
    requires var m := ParseMember(s, limits, p, depth + 1); m.Ok? && At(s, m.next) == COMMA
    requires var m := ParseMember(s, limits, p, depth + 1);
             var next := InterpMember(schema, limits.rejectUnknown, fields, m.value, slots);
             next.Some? ==> MembersAgree(s, limits, schema, fields, m.next + 1, depth, n + 1, next.value)
    ensures MembersAgree(s, limits, schema, fields, p, depth, n, slots)
  {
    hide ParseMember, ReadMember, InterpMember, InterpMembers, SkipBlank;
    var m := ParseMember(s, limits, p, depth + 1);
    var rest := ParseMembers(s, limits, m.next + 1, depth, n + 1);
    if rest.Ok? {
      InterpMembersCons(schema, limits.rejectUnknown, fields, m.value, rest.value, slots);
    }
  }

  lemma InterpMembersCons(
    schema: Schema, reject: bool, fields: seq<Field>, m: Member, rest: seq<Member>, slots: Slots)
    requires |slots| == |fields|
    ensures var next := InterpMember(schema, reject, fields, m, slots);
            InterpMembers(schema, reject, fields, [m] + rest, slots)
            == if next.None? then None else InterpMembers(schema, reject, fields, rest, next.value)
  {
    hide InterpMember;
    Cons(m, rest);
  }

  lemma {:induction false} ReadMemberMeaning(
    s: seq<Byte>, limits: Limits, schema: Schema, fields: seq<Field>, p: nat, depth: nat, slots: Slots)
    requires p <= |s| && |slots| == |fields|
    ensures MemberAgrees(s, limits, schema, fields, p, depth, slots)
    decreases |s| - p, 0
  {
    hide ParseTree, ParseString, Interp, FieldIndex, SatisfiesAll, ReadNamedField, PiecesValue;
    var key := ParseString(s, limits, SkipBlank(s, p));
    if key.Ok? {
      var colon := SkipBlank(s, key.next);
      if At(s, colon) == COLON {
        var start := SkipBlank(s, colon + 1);
        NamedFieldMeaning(s, limits, schema, fields, PiecesValue(key.value), start, depth, slots);
      }
    }
  }

  /** Reading the value of a named field is scanning it and taking its meaning. */
  lemma {:induction false} NamedFieldMeaning(
    s: seq<Byte>, limits: Limits, schema: Schema, fields: seq<Field>, name: seq<Byte>, p: nat, depth: nat,
    slots: Slots)
    requires p <= |s| && |slots| == |fields| && SkipBlank(s, p) == p
    ensures var i := FieldIndex(fields, name);
            var r := ReadNamedField(s, limits, schema, fields, name, p, depth, slots);
            var t := ParseTree(s, limits, p, depth);
            if i.None? then r == Ok(None, p)
            else if slots[i.value].Some? || t.Err? then r.Err?
            else
              var v := Interp(schema, limits.rejectUnknown, fields[i.value].ty, t.value);
              if v.None? || !SatisfiesAll(v.value, fields[i.value].constraints) then r.Err?
              else r == Ok(Some(slots[i.value := Some(v.value)]), t.next)
    decreases |s| - p, MaxNesting(fields) + 4
  {
    hide ParseTree, Interp, SatisfiesAll, ReadValue;
    var i := FieldIndex(fields, name);
    if i.Some? {
      NestingBound(fields, i.value);
      ReadValueMeaning(s, limits, schema, fields[i.value].ty, p, depth);
    }
  }

  // --- Consequences -----------------------------------------------------------------------

  /** Whatever the typed reader accepts, the untyped scanner accepts, and both stop at the same offset. */
  lemma TwoParsersAgree(s: seq<Byte>, limits: Limits, schema: Schema, ty: Ty, p: nat, depth: nat)
    requires p <= |s| && ReadValue(s, limits, schema, ty, p, depth).Ok?
    ensures var skipped := ParseTree(s, limits, SkipBlank(s, p), depth).Erase();
            skipped == Ok((), ReadValue(s, limits, schema, ty, p, depth).next)
  {
    hide ParseTree, ReadValue, Interp;
    ReadValueMeaning(s, limits, schema, ty, p, depth);
  }

  /** Whole texts: read, if and only if the type gives the one tree of the text a meaning. */
  lemma ReadIffMeaning(s: seq<Byte>, limits: Limits, schema: Schema, ty: Ty, v: Val)
    ensures Read(s, limits, schema, ty) == Ok(v, |s|)
            <==> |s| <= limits.inputBytes
                 && exists e: Element ::
                      ElementOk(limits, e, 0) && ElementText(e) == s
                      && Interp(schema, limits.rejectUnknown, ty, e.value) == Some(v)
  {
    if Read(s, limits, schema, ty) == Ok(v, |s|) {
      ReadHasTree(s, limits, schema, ty, v);
    }
    if |s| <= limits.inputBytes {
      forall e: Element
        | ElementOk(limits, e, 0) && ElementText(e) == s && Interp(schema, limits.rejectUnknown, ty, e.value) == Some(v)
        ensures Read(s, limits, schema, ty) == Ok(v, |s|)
      {
        TreeIsRead(s, limits, schema, ty, e);
      }
    }
  }

  lemma ReadHasTree(s: seq<Byte>, limits: Limits, schema: Schema, ty: Ty, v: Val)
    requires Read(s, limits, schema, ty) == Ok(v, |s|)
    ensures var e := ParseElement(s, limits, 0, 0);
            && e.Ok? && ElementOk(limits, e.value, 0) && ElementText(e.value) == s
            && Interp(schema, limits.rejectUnknown, ty, e.value.value) == Some(v)
  {
    hide ParseTree, ReadValue, Interp, ElementOk, ElementText;
    SkipBlankTwice(s, 0);
    ReadValueMeaning(s, limits, schema, ty, 0, 0);
    ParseElementSound(s, limits, 0, 0);
    assert s[0..|s|] == s;
  }

  lemma TreeIsRead(s: seq<Byte>, limits: Limits, schema: Schema, ty: Ty, e: Element)
    requires ElementOk(limits, e, 0) && ElementText(e) == s && |s| <= limits.inputBytes
    requires Interp(schema, limits.rejectUnknown, ty, e.value).Some?
    ensures Read(s, limits, schema, ty) == Ok(Interp(schema, limits.rejectUnknown, ty, e.value).value, |s|)
  {
    hide ParseTree, ReadValue, Interp, ElementOk, ElementText;
    ParseElementComplete(s, limits, 0, 0, e);
    ReadValueMeaning(s, limits, schema, ty, 0, 0);
  }
}
