/** The text the serializer produces for a typed value, and the tree that text has. */
module JsonText {
  import opened Bytes
  import opened Utf8
  import opened JsonString
  import opened JsonNumber
  import opened JsonTree
  import opened JsonTypes
  import opened Decimal

  function WriteText(schema: Schema, ty: Ty, v: Val): seq<Byte>
    requires HasType(schema, ty, v)
    decreases v, ty, 0
  {
    match ty
    case StringTy => EscapedString(v.bytes)
    case ViewTy => EscapedString(v.bytes)
    case BoolTy => if v.flag then TRUE_TEXT else FALSE_TEXT
    case IntTy(_, _) => ToChars(v.number)
    case EnumTy(es) =>
      var name := EnumName(es, v.constant);
      if name.None? then [] else EscapedString(name.value)
    case OptionalTy(of) => if v.NoneVal? then NULL_TEXT else WriteText(schema, of, v.inner)
    case VectorTy(of) => [OPEN_BRACKET] + (WriteItems(schema, of, v.items) + [CLOSE_BRACKET])
    case ArrayTy(of, _) => [OPEN_BRACKET] + (WriteItems(schema, of, v.items) + [CLOSE_BRACKET])
    case ObjectTy(name) =>
      [OPEN_BRACE] + (WriteFields(schema, FieldsOf(schema, name), v.fields) + [CLOSE_BRACE])
  }

  function WriteItems(schema: Schema, of: Ty, vs: seq<Val>): seq<Byte>
    requires HaveType(schema, of, vs)
    decreases vs
  {
    if vs == [] then []
    else if |vs| == 1 then WriteText(schema, of, vs[0])
    else WriteText(schema, of, vs[0]) + ([COMMA] + WriteItems(schema, of, vs[1..]))
  }

  function WriteField(schema: Schema, field: Field, v: Val): seq<Byte>
    requires HasType(schema, field.ty, v)
    decreases v, field.ty, 1
  {
    EscapedString(field.wire) + ([COLON] + WriteText(schema, field.ty, v))
  }

  function WriteFields(schema: Schema, fields: seq<Field>, vs: seq<Val>): seq<Byte>
    requires FieldsHaveTypes(schema, fields, vs)
    decreases vs
  {
    if vs == [] then []
    else if |vs| == 1 then WriteField(schema, fields[0], vs[0])
    else WriteField(schema, fields[0], vs[0]) + ([COMMA] + WriteFields(schema, fields[1..], vs[1..]))
  }

  /** Every enum value inside has an enumerator; the serializer throws on any other. */
  predicate Writable(schema: Schema, ty: Ty, v: Val)
    requires HasType(schema, ty, v)
    decreases v, ty
  {
    match ty
    case EnumTy(es) => EnumName(es, v.constant).Some?
    case OptionalTy(of) => v.NoneVal? || Writable(schema, of, v.inner)
    case VectorTy(of) => AllWritable(schema, of, v.items)
    case ArrayTy(of, _) => AllWritable(schema, of, v.items)
    case ObjectTy(name) => FieldsWritable(schema, FieldsOf(schema, name), v.fields)
    case _ => true
  }

  predicate AllWritable(schema: Schema, of: Ty, vs: seq<Val>)
    requires HaveType(schema, of, vs)
    decreases vs
  {
    vs == [] || (Writable(schema, of, vs[0]) && AllWritable(schema, of, vs[1..]))
  }

  predicate FieldsWritable(schema: Schema, fields: seq<Field>, vs: seq<Val>)
    requires FieldsHaveTypes(schema, fields, vs)
    decreases vs
  {
    vs == [] || (Writable(schema, fields[0].ty, vs[0]) && FieldsWritable(schema, fields[1..], vs[1..]))
  }

  // --- The tree of a printed value --------------------------------------------------------

  function TreeOf(schema: Schema, ty: Ty, v: Val): Tree
    requires HasType(schema, ty, v)
    decreases v, ty
  {
    match ty
    case StringTy => StringTree(PiecesOf(v.bytes))
    case ViewTy => StringTree(PiecesOf(v.bytes))
    case BoolTy => if v.flag then TrueTree else FalseTree
    case IntTy(_, _) => NumberTree(IntegerNumber(v.number))
    case EnumTy(es) =>
      var name := EnumName(es, v.constant);
      if name.None? then NullTree else StringTree(PiecesOf(name.value))
    case OptionalTy(of) => if v.NoneVal? then NullTree else TreeOf(schema, of, v.inner)
    case VectorTy(of) => ArrayTree([], TreesOf(schema, of, v.items))
    case ArrayTy(of, _) => ArrayTree([], TreesOf(schema, of, v.items))
    case ObjectTy(name) => ObjectTree([], MembersOf(schema, FieldsOf(schema, name), v.fields))
  }

  function TreesOf(schema: Schema, of: Ty, vs: seq<Val>): (es: seq<Element>)
    requires HaveType(schema, of, vs)
    ensures |es| == |vs|
    decreases vs
  {
    if vs == [] then []
    else [Element([], TreeOf(schema, of, vs[0]), [])] + TreesOf(schema, of, vs[1..])
  }

  function MembersOf(schema: Schema, fields: seq<Field>, vs: seq<Val>): (ms: seq<Member>)
    requires FieldsHaveTypes(schema, fields, vs)
    ensures |ms| == |vs|
    decreases vs
  {
    if vs == [] then []
    else
      [Member([], PiecesOf(fields[0].wire), [], [], TreeOf(schema, fields[0].ty, vs[0]), [])]
      + MembersOf(schema, fields[1..], vs[1..])
  }

  lemma PrintedStringText(b: seq<Byte>)
    ensures StringText(PiecesOf(b)) == EscapedString(b)
  {
    PrintedUnits(b);
  }

  /** What is printed is the text of that tree. */
  lemma {:induction false} PrintedText(schema: Schema, ty: Ty, v: Val)
    requires HasType(schema, ty, v) && Writable(schema, ty, v)
    ensures WriteText(schema, ty, v) == Text(TreeOf(schema, ty, v))
    decreases v, ty
  {
    hide EscapedString, StringText, NumberText, ToChars;
    match ty
    case StringTy => PrintedStringText(v.bytes);
    case ViewTy => PrintedStringText(v.bytes);
    case BoolTy =>
    case IntTy(lo, hi) => PrintedInteger(v.number, lo, hi);
    case EnumTy(es) => PrintedStringText(EnumName(es, v.constant).value);
    case OptionalTy(of) => if v.SomeVal? { PrintedText(schema, of, v.inner); }
    case VectorTy(of) =>
      PrintedItems(schema, of, v.items);
      EmptyLeft(ElementsText(TreesOf(schema, of, v.items)));
    case ArrayTy(of, _) =>
      PrintedItems(schema, of, v.items);
      EmptyLeft(ElementsText(TreesOf(schema, of, v.items)));
    case ObjectTy(name) =>
      PrintedFields(schema, FieldsOf(schema, name), v.fields);
      EmptyLeft(MembersText(MembersOf(schema, FieldsOf(schema, name), v.fields)));
  }

  lemma BareElement(t: Tree)
    ensures ElementText(Element([], t, [])) == Text(t)
  {
    hide Text;
    assert [] + (Text(t) + []) == Text(t);
  }

  lemma BareMember(key: seq<Piece>, t: Tree)
    ensures MemberText(Member([], key, [], [], t, [])) == StringText(key) + ([COLON] + Text(t))
  {
    hide Text, StringText;
    EmptyLeft(StringText(key) + ([] + ([COLON] + ([] + (Text(t) + [])))));
    EmptyLeft([COLON] + ([] + (Text(t) + [])));
    EmptyLeft(Text(t) + []);
    assert Text(t) + [] == Text(t);
  }

  lemma {:induction false} PrintedItems(schema: Schema, of: Ty, vs: seq<Val>)
    requires HaveType(schema, of, vs) && AllWritable(schema, of, vs)
    ensures ElementsText(TreesOf(schema, of, vs)) == WriteItems(schema, of, vs) + [CLOSE_BRACKET]
    decreases vs
  {
    hide ElementText, WriteText, TreeOf, Text;
    if vs == [] {
      EmptyLeft([CLOSE_BRACKET]);
    } else {
      var t, rest := TreeOf(schema, of, vs[0]), TreesOf(schema, of, vs[1..]);
      PrintedText(schema, of, vs[0]);
      PrintedItems(schema, of, vs[1..]);
      BareElement(t);
      ElementsTextCons(Element([], t, []), rest);
      if |vs| > 1 {
        var w := WriteItems(schema, of, vs[1..]);
        Assoc([COMMA], w, [CLOSE_BRACKET]);
        Assoc(Text(t), [COMMA] + w, [CLOSE_BRACKET]);
      }
    }
  }

  lemma {:induction false} PrintedFields(schema: Schema, fields: seq<Field>, vs: seq<Val>)
    requires FieldsHaveTypes(schema, fields, vs) && FieldsWritable(schema, fields, vs)
    ensures MembersText(MembersOf(schema, fields, vs)) == WriteFields(schema, fields, vs) + [CLOSE_BRACE]
    decreases vs
  {
    hide MemberText, WriteText, TreeOf, Text, EscapedString, StringText;
    if vs == [] {
      EmptyLeft([CLOSE_BRACE]);
    } else {
      var t, rest := TreeOf(schema, fields[0].ty, vs[0]), MembersOf(schema, fields[1..], vs[1..]);
      var key := PiecesOf(fields[0].wire);
      PrintedText(schema, fields[0].ty, vs[0]);
      PrintedFields(schema, fields[1..], vs[1..]);
      PrintedStringText(fields[0].wire);
      BareMember(key, t);
      MembersTextCons(Member([], key, [], [], t, []), rest);
      if |vs| > 1 {
        var w := WriteFields(schema, fields[1..], vs[1..]);
        Assoc([COMMA], w, [CLOSE_BRACE]);
        Assoc(WriteField(schema, fields[0], vs[0]), [COMMA] + w, [CLOSE_BRACE]);
      }
    }
  }

  // --- Limits -----------------------------------------------------------------------------

  predicate StringFits(limits: Limits, b: seq<Byte>) {
    ValidUtf8(b) && |b| <= limits.stringBytes
  }

  /** The strings inside are UTF-8, and the printed text obeys the reader's limits at this depth. */
  predicate Fits(limits: Limits, schema: Schema, ty: Ty, v: Val, depth: nat)
    requires HasType(schema, ty, v)
    decreases v, ty
  {
    match ty
    case StringTy => StringFits(limits, v.bytes)
    case ViewTy => StringFits(limits, v.bytes)
    case BoolTy => true
    case IntTy(_, _) => true
    case EnumTy(es) =>
      var name := EnumName(es, v.constant);
      name.Some? ==> StringFits(limits, name.value)
    case OptionalTy(of) => v.NoneVal? || Fits(limits, schema, of, v.inner, depth)
    case VectorTy(of) =>
      depth < limits.depth && |v.items| <= limits.arrayElements && ItemsFit(limits, schema, of, v.items, depth + 1)
    case ArrayTy(of, _) =>
      depth < limits.depth && |v.items| <= limits.arrayElements && ItemsFit(limits, schema, of, v.items, depth + 1)
    case ObjectTy(name) =>
      && depth < limits.depth
      && |v.fields| <= limits.objectMembers
      && FieldsFit(limits, schema, FieldsOf(schema, name), v.fields, depth + 1)
  }

  predicate ItemsFit(limits: Limits, schema: Schema, of: Ty, vs: seq<Val>, depth: nat)
    requires HaveType(schema, of, vs)
    decreases vs
  {
    vs == [] || (Fits(limits, schema, of, vs[0], depth) && ItemsFit(limits, schema, of, vs[1..], depth))
  }

  predicate FieldsFit(limits: Limits, schema: Schema, fields: seq<Field>, vs: seq<Val>, depth: nat)
    requires FieldsHaveTypes(schema, fields, vs)
    decreases vs
  {
    vs == [] ||
    (&& StringFits(limits, fields[0].wire)
     && Fits(limits, schema, fields[0].ty, vs[0], depth)
     && FieldsFit(limits, schema, fields[1..], vs[1..], depth))
  }

  lemma FittingString(limits: Limits, b: seq<Byte>)
    ensures StringOk(limits, PiecesOf(b)) <==> StringFits(limits, b)
  {
    PrintedUnits(b);
  }

  /** The tree of a printed value obeys the limits exactly when the value fits them. */
  lemma {:induction false} FittingTree(limits: Limits, schema: Schema, ty: Ty, v: Val, depth: nat)
    requires HasType(schema, ty, v) && Writable(schema, ty, v)
    ensures TreeOk(limits, TreeOf(schema, ty, v), depth) <==> Fits(limits, schema, ty, v, depth)
    decreases v, ty
  {
    hide StringOk, StringFits;
    match ty
    case StringTy => FittingString(limits, v.bytes);
    case ViewTy => FittingString(limits, v.bytes);
    case BoolTy =>
    case IntTy(_, _) =>
    case EnumTy(es) => FittingString(limits, EnumName(es, v.constant).value);
    case OptionalTy(of) => if v.SomeVal? { FittingTree(limits, schema, of, v.inner, depth); }
    case VectorTy(of) => FittingItems(limits, schema, of, v.items, depth + 1);
    case ArrayTy(of, _) => FittingItems(limits, schema, of, v.items, depth + 1);
    case ObjectTy(name) => FittingFields(limits, schema, FieldsOf(schema, name), v.fields, depth + 1);
  }

  lemma {:induction false} FittingItems(limits: Limits, schema: Schema, of: Ty, vs: seq<Val>, depth: nat)
    requires HaveType(schema, of, vs) && AllWritable(schema, of, vs)
    ensures ElementsOk(limits, TreesOf(schema, of, vs), depth) <==> ItemsFit(limits, schema, of, vs, depth)
    decreases vs
  {
    hide TreeOk, TreeOf, Fits;
    if vs != [] {
      FittingTree(limits, schema, of, vs[0], depth);
      FittingItems(limits, schema, of, vs[1..], depth);
      ElementsOkCons(limits, Element([], TreeOf(schema, of, vs[0]), []), TreesOf(schema, of, vs[1..]), depth);
    }
  }

  lemma {:induction false} FittingFields(limits: Limits, schema: Schema, fields: seq<Field>, vs: seq<Val>, depth: nat)
    requires FieldsHaveTypes(schema, fields, vs) && FieldsWritable(schema, fields, vs)
    ensures MembersOk(limits, MembersOf(schema, fields, vs), depth) <==> FieldsFit(limits, schema, fields, vs, depth)
    decreases vs
  {
    hide TreeOk, TreeOf, Fits, StringOk, StringFits;
    if vs != [] {
      FittingTree(limits, schema, fields[0].ty, vs[0], depth);
      FittingFields(limits, schema, fields[1..], vs[1..], depth);
      FittingString(limits, fields[0].wire);
      var m := Member([], PiecesOf(fields[0].wire), [], [], TreeOf(schema, fields[0].ty, vs[0]), []);
      MembersOkCons(limits, m, MembersOf(schema, fields[1..], vs[1..]), depth);
    }
  }
}
