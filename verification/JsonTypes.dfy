/** The types the JSON codec is generated for, their values, and what a syntax tree means at a type. */
module JsonTypes {
  import opened Bytes
  import opened JsonString
  import opened JsonNumber
  import opened JsonTree

  datatype Enumerator = Enumerator(name: seq<Byte>, value: int)

  datatype Ty =
    | StringTy
    | ViewTy                  // a string_view, which borrows from the input
    | BoolTy
    | IntTy(lo: int, hi: int)
    | EnumTy(enumerators: seq<Enumerator>)
    | OptionalTy(of: Ty)
    | VectorTy(of: Ty)
    | ArrayTy(of: Ty, size: nat)
    | ObjectTy(name: string)

  datatype Val =
    | StringVal(bytes: seq<Byte>)
    | BoolVal(flag: bool)
    | IntVal(number: int)
    | EnumVal(constant: int)
    | NoneVal
    | SomeVal(inner: Val)
    | ListVal(items: seq<Val>)
    | ObjectVal(fields: seq<Val>)

  /**
   A field constraint. A numeric bound compares the value converted to double with a double; the
   conversion is monotone, so on integers the comparison is one with an integer threshold.
   */
  datatype Constraint =
    | AtLeast(bound: int)
    | AtMost(bound: int)
    | MinLength(size: nat)
    | MaxLength(size: nat)
    | MinItems(size: nat)
    | MaxItems(size: nat)

  datatype Field = Field(wire: seq<Byte>, ty: Ty, fallback: Option<Val>, constraints: seq<Constraint>)

  /** The fields of every object type. Object types may refer to each other. */
  type Schema = map<string, seq<Field>>

  function FieldsOf(schema: Schema, name: string): seq<Field> {
    if name in schema then schema[name] else []
  }

  predicate Satisfies(v: Val, c: Constraint) {
    match v
    case NoneVal => true
    case SomeVal(inner) => Satisfies(inner, c)
    case IntVal(i) => (c.AtLeast? && i >= c.bound) || (c.AtMost? && i <= c.bound)
    case StringVal(b) => (c.MinLength? && |b| >= c.size) || (c.MaxLength? && |b| <= c.size)
    case ListVal(vs) => (c.MinItems? && |vs| >= c.size) || (c.MaxItems? && |vs| <= c.size)
    case _ => false
  }

  predicate SatisfiesAll(v: Val, cs: seq<Constraint>) {
    cs == [] || (Satisfies(v, cs[0]) && SatisfiesAll(v, cs[1..]))
  }

  /** The position of the first field with this name. */
  function FieldIndex(fields: seq<Field>, name: seq<Byte>): (r: Option<nat>)
    ensures r.Some? ==> r.value < |fields| && fields[r.value].wire == name
    ensures r.None? ==> forall k | 0 <= k < |fields| :: fields[k].wire != name
  {
    if fields == [] then None
    else if fields[0].wire == name then Some(0)
    else
      var rest := FieldIndex(fields[1..], name);
      if rest.None? then None else Some(rest.value + 1)
  }

  /** What the schema check enforces: no two fields of a type share a name. */
  predicate NamesUnique(fields: seq<Field>) {
    forall i, j | 0 <= i < j < |fields| :: fields[i].wire != fields[j].wire
  }

  lemma FieldIndexOf(fields: seq<Field>, i: nat)
    requires NamesUnique(fields) && i < |fields|
    ensures FieldIndex(fields, fields[i].wire) == Some(i)
  {
    var r := FieldIndex(fields, fields[i].wire);
    assert r.Some?;
  }

  function EnumValue(es: seq<Enumerator>, name: seq<Byte>): Option<int> {
    if es == [] then None
    else if es[0].name == name then Some(es[0].value)
    else EnumValue(es[1..], name)
  }

  function EnumName(es: seq<Enumerator>, value: int): Option<seq<Byte>> {
    if es == [] then None
    else if es[0].value == value then Some(es[0].name)
    else EnumName(es[1..], value)
  }

  // --- Meaning of a tree at a type --------------------------------------------------------

  function Decoded(ps: seq<Piece>): seq<Byte> {
    if AllOk(ps) then PiecesValue(ps) else []
  }

  type Slots = seq<Option<Val>>

  /** The value of a tree at a type; None when the tree does not have the type. */
  function Interp(schema: Schema, reject: bool, ty: Ty, t: Tree): Option<Val>
    decreases t, ty
  {
    match ty
    case OptionalTy(of) =>
      if t.NullTree? then Some(NoneVal)
      else
        var inner := Interp(schema, reject, of, t);
        if inner.None? then None else Some(SomeVal(inner.value))
    case StringTy => if t.StringTree? then Some(StringVal(Decoded(t.pieces))) else None
    case ViewTy => if t.StringTree? && AllRaw(t.pieces) then Some(StringVal(Decoded(t.pieces))) else None
    case BoolTy => if t.TrueTree? then Some(BoolVal(true)) else if t.FalseTree? then Some(BoolVal(false)) else None
    case IntTy(lo, hi) =>
      if !t.NumberTree? || !NumberOk(t.number) then None
      else
        var i := IntegerOf(t.number, lo, hi);
        if i.None? then None else Some(IntVal(i.value))
    case EnumTy(es) =>
      if !t.StringTree? then None
      else
        var i := EnumValue(es, Decoded(t.pieces));
        if i.None? then None else Some(EnumVal(i.value))
    case VectorTy(of) =>
      if !t.ArrayTree? then None
      else
        var vs := InterpElements(schema, reject, of, t.elements);
        if vs.None? then None else Some(ListVal(vs.value))
    case ArrayTy(of, size) =>
      if !t.ArrayTree? || |t.elements| != size then None
      else
        var vs := InterpElements(schema, reject, of, t.elements);
        if vs.None? then None else Some(ListVal(vs.value))
    case ObjectTy(name) =>
      if !t.ObjectTree? then None
      else
        var fields := FieldsOf(schema, name);
        var slots := InterpMembers(schema, reject, fields, t.members, NoSlots(fields));
        if slots.None? then None
        else
          var vs := Finish(fields, slots.value);
          if vs.None? then None else Some(ObjectVal(vs.value))
  }

  function InterpElements(schema: Schema, reject: bool, ty: Ty, es: seq<Element>): (r: Option<seq<Val>>)
    ensures r.Some? ==> |r.value| == |es|
    decreases es
  {
    if es == [] then Some([])
    else
      var v := Interp(schema, reject, ty, es[0].value);
      var rest := InterpElements(schema, reject, ty, es[1..]);
      if v.None? || rest.None? then None else Some([v.value] + rest.value)
  }

  /** Empty slots for the fields of an object. */
  function NoSlots(fields: seq<Field>): (slots: Slots)
    ensures |slots| == |fields| && forall k | 0 <= k < |slots| :: slots[k] == None
  {
    seq(|fields|, _ => None)
  }

  /** The slots after one member. */
  function InterpMember(schema: Schema, reject: bool, fields: seq<Field>, m: Member, slots: Slots)
    : (r: Option<Slots>)
    requires |slots| == |fields|
    ensures r.Some? ==> |r.value| == |fields|
    decreases m
  {
    var i := FieldIndex(fields, Decoded(m.key));
    if i.None? then (if reject then None else Some(slots))
    else if slots[i.value].Some? then None
    else
      var v := Interp(schema, reject, fields[i.value].ty, m.value);
      if v.None? || !SatisfiesAll(v.value, fields[i.value].constraints) then None
      else Some(slots[i.value := Some(v.value)])
  }

  function InterpMembers(schema: Schema, reject: bool, fields: seq<Field>, ms: seq<Member>, slots: Slots)
    : (r: Option<Slots>)
    requires |slots| == |fields|
    ensures r.Some? ==> |r.value| == |fields|
    decreases ms
  {
    if ms == [] then Some(slots)
    else
      var next := InterpMember(schema, reject, fields, ms[0], slots);
      if next.None? then None else InterpMembers(schema, reject, fields, ms[1..], next.value)
  }

  /** The value of one field: its slot, or what stands in for a missing member. */
  function FieldValue(field: Field, slot: Option<Val>): Option<Val> {
    if slot.Some? then slot
    else if field.ty.OptionalTy? then Some(NoneVal)
    else field.fallback
  }

  function Finish(fields: seq<Field>, slots: Slots): (r: Option<seq<Val>>)
    requires |slots| == |fields|
    ensures r.Some? ==> |r.value| == |fields|
  {
    if fields == [] then Some([])
    else
      var v := FieldValue(fields[0], slots[0]);
      var rest := Finish(fields[1..], slots[1..]);
      if v.None? || rest.None? then None else Some([v.value] + rest.value)
  }

  /** Each field of a finished object comes from its slot or from its own stand-in. */
  lemma {:induction false} FinishedFields(fields: seq<Field>, slots: Slots)
    requires |slots| == |fields|
    ensures Finish(fields, slots).Some? <==> forall k | 0 <= k < |fields| :: FieldValue(fields[k], slots[k]).Some?
    ensures Finish(fields, slots).Some? ==>
              forall k | 0 <= k < |fields| ::
                Some(Finish(fields, slots).value[k]) == FieldValue(fields[k], slots[k])
  {
    if fields != [] {
      FinishedFields(fields[1..], slots[1..]);
      assert forall k | 1 <= k < |fields| :: fields[k] == fields[1..][k - 1] && slots[k] == slots[1..][k - 1];
    }
  }

  // --- Typed values -----------------------------------------------------------------------

  predicate HasType(schema: Schema, ty: Ty, v: Val)
    decreases v, ty
  {
    match ty
    case StringTy => v.StringVal?
    case ViewTy => v.StringVal?
    case BoolTy => v.BoolVal?
    case IntTy(lo, hi) => v.IntVal? && lo <= v.number <= hi
    case EnumTy(_) => v.EnumVal?
    case OptionalTy(of) => v.NoneVal? || (v.SomeVal? && HasType(schema, of, v.inner))
    case VectorTy(of) => v.ListVal? && HaveType(schema, of, v.items)
    case ArrayTy(of, size) => v.ListVal? && |v.items| == size && HaveType(schema, of, v.items)
    case ObjectTy(name) => v.ObjectVal? && FieldsHaveTypes(schema, FieldsOf(schema, name), v.fields)
  }

  predicate HaveType(schema: Schema, ty: Ty, vs: seq<Val>)
    decreases vs
  {
    vs == [] || (HasType(schema, ty, vs[0]) && HaveType(schema, ty, vs[1..]))
  }

  predicate FieldsHaveTypes(schema: Schema, fields: seq<Field>, vs: seq<Val>)
    decreases vs
  {
    |fields| == |vs|
    && (vs == [] || (HasType(schema, fields[0].ty, vs[0]) && FieldsHaveTypes(schema, fields[1..], vs[1..])))
  }
}
