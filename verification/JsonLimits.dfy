/** An accepted text of a value is accepted as the tree of the value, whatever the limits. */
module JsonLimits {
  import opened Bytes
  import opened Utf8
  import opened JsonString
  import opened JsonNumber
  import opened JsonTree
  import opened JsonUtf8
  import opened JsonTypes
  import opened JsonText

  /** The limits with room for `n` more of everything that is limited inside a text. */
  function Widened(limits: Limits, n: nat): Limits {
    Limits(
      limits.inputBytes, limits.depth + n, limits.stringBytes + n, limits.arrayElements + n,
      limits.objectMembers + n, limits.rejectUnknown)
  }

  // --- Wider limits accept more -----------------------------------------------------------

  lemma {:induction false} TreeOkWidened(limits: Limits, n: nat, t: Tree, depth: nat)
    requires TreeOk(limits, t, depth)
    ensures TreeOk(Widened(limits, n), t, depth)
    decreases t
  {
    match t
    case ArrayTree(_, elements) => ElementsOkWidened(limits, n, elements, depth + 1);
    case ObjectTree(_, members) => MembersOkWidened(limits, n, members, depth + 1);
    case _ =>
  }

  lemma {:induction false} ElementsOkWidened(limits: Limits, n: nat, es: seq<Element>, depth: nat)
    requires ElementsOk(limits, es, depth)
    ensures ElementsOk(Widened(limits, n), es, depth)
    decreases es
  {
    hide TreeOk;
    if es != [] {
      TreeOkWidened(limits, n, es[0].value, depth);
      ElementsOkWidened(limits, n, es[1..], depth);
    }
  }

  lemma {:induction false} MembersOkWidened(limits: Limits, n: nat, ms: seq<Member>, depth: nat)
    requires MembersOk(limits, ms, depth)
    ensures MembersOk(Widened(limits, n), ms, depth)
    decreases ms
  {
    hide TreeOk;
    if ms != [] {
      TreeOkWidened(limits, n, ms[0].value, depth);
      MembersOkWidened(limits, n, ms[1..], depth);
    }
  }

  // --- Limits that the text of a value meets ----------------------------------------------

  lemma {:induction false} EscapedBodyLength(b: seq<Byte>)
    ensures |EscapedBody(b)| >= |b|
  {
    if b != [] {
      EscapedBodyLength(b[1..]);
    }
  }

  lemma PrintedStringIsShaped(limits: Limits, b: seq<Byte>)
    requires limits.stringBytes >= |EscapedString(b)|
    ensures StringShaped(limits, PiecesOf(b))
  {
    EscapedBodyLength(b);
    PrintedUnits(b);
  }

  /** Every count and depth inside a printed text is bounded by its length. */
  lemma {:induction false} PrintedIsShaped(limits: Limits, n: nat, schema: Schema, ty: Ty, v: Val, depth: nat)
    requires HasType(schema, ty, v) && Writable(schema, ty, v)
    requires depth + |WriteText(schema, ty, v)| <= n
    ensures Shaped(Widened(limits, n), TreeOf(schema, ty, v), depth)
    decreases v, ty
  {
    hide EscapedString, StringShaped, NumberOk, WriteItems, WriteFields, ElementsShaped, MembersShaped;
    match ty
    case StringTy => PrintedStringIsShaped(Widened(limits, n), v.bytes);
    case ViewTy => PrintedStringIsShaped(Widened(limits, n), v.bytes);
    case BoolTy =>
    case IntTy(lo, hi) => PrintedInteger(v.number, lo, hi);
    case EnumTy(es) => PrintedStringIsShaped(Widened(limits, n), EnumName(es, v.constant).value);
    case OptionalTy(of) => if v.SomeVal? { PrintedIsShaped(limits, n, schema, of, v.inner, depth); }
    case VectorTy(of) => PrintedItemsAreShaped(limits, n, schema, of, v.items, depth + 1);
    case ArrayTy(of, _) => PrintedItemsAreShaped(limits, n, schema, of, v.items, depth + 1);
    case ObjectTy(name) => PrintedFieldsAreShaped(limits, n, schema, FieldsOf(schema, name), v.fields, depth + 1);
  }

  lemma {:induction false} PrintedItemsAreShaped(
    limits: Limits, n: nat, schema: Schema, of: Ty, vs: seq<Val>, depth: nat)
    requires HaveType(schema, of, vs) && AllWritable(schema, of, vs)
    requires depth + |WriteItems(schema, of, vs)| <= n
    ensures ElementsShaped(Widened(limits, n), TreesOf(schema, of, vs), depth)
    ensures |vs| <= |WriteItems(schema, of, vs)| + 1
    decreases vs
  {
    hide WriteText, TreeOf, Shaped;
    if vs != [] {
      var e, rest := Element([], TreeOf(schema, of, vs[0]), []), TreesOf(schema, of, vs[1..]);
      PrintedIsShaped(limits, n, schema, of, vs[0], depth);
      PrintedItemsAreShaped(limits, n, schema, of, vs[1..], depth);
      Cons(e, rest);
    }
  }

  lemma {:induction false} PrintedFieldsAreShaped(
    limits: Limits, n: nat, schema: Schema, fields: seq<Field>, vs: seq<Val>, depth: nat)
    requires FieldsHaveTypes(schema, fields, vs) && FieldsWritable(schema, fields, vs)
    requires depth + |WriteFields(schema, fields, vs)| <= n
    ensures MembersShaped(Widened(limits, n), MembersOf(schema, fields, vs), depth)
    ensures |vs| <= |WriteFields(schema, fields, vs)| + 1
    decreases vs
  {
    hide WriteText, TreeOf, Shaped, EscapedString, StringShaped;
    if vs != [] {
      var key := PiecesOf(fields[0].wire);
      var m := Member([], key, [], [], TreeOf(schema, fields[0].ty, vs[0]), []);
      var rest := MembersOf(schema, fields[1..], vs[1..]);
      PrintedStringIsShaped(Widened(limits, n), fields[0].wire);
      PrintedIsShaped(limits, n, schema, fields[0].ty, vs[0], depth);
      PrintedFieldsAreShaped(limits, n, schema, fields[1..], vs[1..], depth);
      Cons(m, rest);
    }
  }

  // --- Accepted texts of values -----------------------------------------------------------

  /** If the text of a value is accepted at all, then as the printed tree, which therefore obeys the limits. */
  lemma AcceptedAsPrinted(limits: Limits, schema: Schema, ty: Ty, v: Val, f: Element)
    requires HasType(schema, ty, v) && Writable(schema, ty, v)
    requires ElementOk(limits, f, 0) && ElementText(f) == WriteText(schema, ty, v)
    ensures f == Element([], TreeOf(schema, ty, v), [])
  {
    hide WriteText, Text, TreeOf, TreeOk, Shaped, ValidUtf8, Widened, ElementText;
    var n := |WriteText(schema, ty, v)|;
    var e := Element([], TreeOf(schema, ty, v), []);
    PrintedText(schema, ty, v);
    BareElement(e.value);
    ElementIsValid(limits, f, 0);
    PrintedIsShaped(limits, n, schema, ty, v, 0);
    ValidShapedTree(Widened(limits, n), e.value, 0);
    TreeOkWidened(limits, n, f.value, 0);
    TextIsUnambiguous(Widened(limits, n), e, f);
  }
}
