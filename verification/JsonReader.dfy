/**
 The typed reader: one pass over the text, driven by the type. Proved to be the untyped scanner
 followed by the meaning of the tree at the type.
 */
module JsonReader {
  import opened Bytes
  import opened JsonString
  import opened JsonNumber
  import opened JsonTree
  import opened JsonTypes
  import opened Decimal

  /** Optionals are read at the same offset, so they count towards termination. */
  function Nesting(ty: Ty): nat {
    if ty.OptionalTy? then 1 + Nesting(ty.of) else 0
  }

  function ReadValue(s: seq<Byte>, limits: Limits, schema: Schema, ty: Ty, p: nat, depth: nat): (r: Parse<Val>)
    requires p <= |s|
    ensures r.Ok? ==> p < r.next <= |s|
    ensures r.Err? ==> r.offset <= |s|
    decreases |s| - p, Nesting(ty) + 3
  {
    var q := SkipBlank(s, p);
    if ty.OptionalTy? then
      if HasAt(s, q, NULL_TEXT) then Ok(NoneVal, q + |NULL_TEXT|)
      else
        var inner := ReadValue(s, limits, schema, ty.of, q, depth);
        if inner.Err? then inner else Ok(SomeVal(inner.value), inner.next)
    else if HasAt(s, q, NULL_TEXT) then Err(NullNotAllowed, q)
    else
      match ty
      case StringTy =>
        var text := ParseString(s, limits, q);
        if text.Err? then text.Fail() else Ok(StringVal(PiecesValue(text.value)), text.next)
      case ViewTy => ReadView(s, limits, q)
      case BoolTy => ReadBool(s, q)
      case IntTy(lo, hi) => ReadInteger(s, lo, hi, q)
      case EnumTy(es) => ReadEnum(s, limits, es, q)
      case VectorTy(of) => ReadVector(s, limits, schema, of, q, depth)
      case ArrayTy(of, size) => ReadArray(s, limits, schema, of, size, q, depth)
      case ObjectTy(name) => ReadObject(s, limits, schema, FieldsOf(schema, name), q, depth)
  }

  /** A view can only be lent: a string with an escape has no decoded copy that would outlive the reading. */
  function ReadView(s: seq<Byte>, limits: Limits, p: nat): (r: Parse<Val>)
    requires p <= |s|
    ensures r.Ok? ==> p < r.next <= |s|
    ensures r.Err? ==> r.offset <= |s|
  {
    var text := ParseString(s, limits, p);
    if text.Err? then text.Fail()
    else if !AllRaw(text.value) then Err(EscapedBorrowedString, text.next)
    else Ok(StringVal(PiecesValue(text.value)), text.next)
  }

  function ReadBool(s: seq<Byte>, p: nat): (r: Parse<Val>)
    requires p <= |s|
    ensures r.Ok? ==> p < r.next <= |s|
    ensures r.Err? ==> r.offset <= |s|
  {
    if HasAt(s, p, TRUE_TEXT) then Ok(BoolVal(true), p + |TRUE_TEXT|)
    else if HasAt(s, p, FALSE_TEXT) then Ok(BoolVal(false), p + |FALSE_TEXT|)
    else Err(InvalidBoolean, p)
  }

  function ReadInteger(s: seq<Byte>, lo: int, hi: int, p: nat): (r: Parse<Val>)
    requires p <= |s|
    ensures r.Ok? ==> p < r.next <= |s|
    ensures r.Err? ==> r.offset <= |s|
  {
    var token := ParseNumber(s, p);
    if token.Err? then token.Fail()
    else
      var chars := FromChars(s[p..token.next], lo, hi);
      if chars.status.OutOfRange? then Err(NumberOutOfRange, token.next)
      else if !chars.status.Converted? || chars.used != token.next - p then Err(InvalidNumber, token.next)
      else Ok(IntVal(chars.value), token.next)
  }

  function ReadEnum(s: seq<Byte>, limits: Limits, es: seq<Enumerator>, p: nat): (r: Parse<Val>)
    requires p <= |s|
    ensures r.Ok? ==> p < r.next <= |s|
    ensures r.Err? ==> r.offset <= |s|
  {
    var text := ParseString(s, limits, p);
    if text.Err? then text.Fail()
    else
      var value := EnumValue(es, PiecesValue(text.value));
      if value.None? then Err(InvalidEnum, text.next) else Ok(EnumVal(value.value), text.next)
  }

  function ReadVector(s: seq<Byte>, limits: Limits, schema: Schema, of: Ty, p: nat, depth: nat): (r: Parse<Val>)
    requires p <= |s|
    ensures r.Ok? ==> p < r.next <= |s|
    ensures r.Err? ==> r.offset <= |s|
    decreases |s| - p, 2
  {
    if depth >= limits.depth then Err(MaximumDepth, p)
    else if At(s, p) != OPEN_BRACKET then Err(ExpectedArray, p)
    else
      var q := SkipBlank(s, p + 1);
      if At(s, q) == CLOSE_BRACKET then Ok(ListVal([]), q + 1)
      else ReadItems(s, limits, schema, of, q, depth, [])
  }

  /** The items of a vector from `p`, behind those in `done`. */
  function ReadItems(
    s: seq<Byte>, limits: Limits, schema: Schema, of: Ty, p: nat, depth: nat, done: seq<Val>): (r: Parse<Val>)
    requires p <= |s|
    ensures r.Ok? ==> p < r.next <= |s|
    ensures r.Err? ==> r.offset <= |s|
    decreases |s| - p, Nesting(of) + 4
  {
    if |done| >= limits.arrayElements then Err(ArrayTooLarge, p)
    else
      var item := ReadValue(s, limits, schema, of, p, depth + 1);
      if item.Err? then item
      else
        var end := SkipBlank(s, item.next);
        if At(s, end) == CLOSE_BRACKET then Ok(ListVal(done + [item.value]), end + 1)
        else if At(s, end) != COMMA then Err(ExpectedComma, end)
        else ReadItems(s, limits, schema, of, SkipBlank(s, end + 1), depth, done + [item.value])
  }

  function ReadArray(
    s: seq<Byte>, limits: Limits, schema: Schema, of: Ty, size: nat, p: nat, depth: nat): (r: Parse<Val>)
    requires p <= |s|
    ensures r.Ok? ==> p < r.next <= |s|
    ensures r.Err? ==> r.offset <= |s|
    decreases |s| - p, 2
  {
    if depth >= limits.depth then Err(MaximumDepth, p)
    else if At(s, p) != OPEN_BRACKET then Err(ExpectedArray, p)
    else if size > limits.arrayElements then Err(ArrayTooLarge, p + 1)
    else
      var q := SkipBlank(s, p + 1);
      if size == 0 then
        if At(s, q) == CLOSE_BRACKET then Ok(ListVal([]), q + 1) else Err(ArraySize, q)
      else if At(s, q) == CLOSE_BRACKET then Err(ArraySize, q + 1)
      else ReadFixed(s, limits, schema, of, size, q, depth, [])
  }

  /** The items of a fixed array from `p`, behind those in `done`. */
  function ReadFixed(
    s: seq<Byte>, limits: Limits, schema: Schema, of: Ty, size: nat, p: nat, depth: nat, done: seq<Val>)
    : (r: Parse<Val>)
    requires p <= |s| && |done| < size
    ensures r.Ok? ==> p < r.next <= |s|
    ensures r.Err? ==> r.offset <= |s|
    decreases |s| - p, Nesting(of) + 4
  {
    var item := ReadValue(s, limits, schema, of, p, depth + 1);
    if item.Err? then item
    else
      var end := SkipBlank(s, item.next);
      if |done| + 1 < size then
        if At(s, end) != COMMA then Err(ArraySize, end)
        else ReadFixed(s, limits, schema, of, size, SkipBlank(s, end + 1), depth, done + [item.value])
      else if At(s, end) != CLOSE_BRACKET then Err(ArraySize, end)
      else Ok(ListVal(done + [item.value]), end + 1)
  }

  function ReadObject(
    s: seq<Byte>, limits: Limits, schema: Schema, fields: seq<Field>, p: nat, depth: nat): (r: Parse<Val>)
    requires p <= |s|
    ensures r.Ok? ==> p < r.next <= |s|
    ensures r.Err? ==> r.offset <= |s|
    decreases |s| - p, 2
  {
    if depth >= limits.depth then Err(MaximumDepth, p)
    else if At(s, p) != OPEN_BRACE then Err(ExpectedObject, p)
    else
      var q := SkipBlank(s, p + 1);
      var slots :=
        if At(s, q) == CLOSE_BRACE then Ok(NoSlots(fields), q + 1)
        else ReadMembers(s, limits, schema, fields, q, depth, 0, NoSlots(fields));
      if slots.Err? then slots.Fail()
      else
        var vs := Finish(fields, slots.value);
        if vs.None? then Err(MissingField, slots.next) else Ok(ObjectVal(vs.value), slots.next)
  }

  /** The member value at `p` when the name is that of a field; None, at `p`, when it is not. */
  function ReadNamedField(
    s: seq<Byte>, limits: Limits, schema: Schema, fields: seq<Field>, name: seq<Byte>, p: nat, depth: nat,
    slots: Slots)
    : (r: Parse<Option<Slots>>)
    requires p <= |s| && |slots| == |fields|
    ensures r.Ok? && r.value.None? ==> r.next == p
    ensures r.Ok? && r.value.Some? ==> p < r.next <= |s| && |r.value.value| == |fields|
    ensures r.Err? ==> r.offset <= |s|
    decreases |s| - p, MaxNesting(fields) + 4
  {
    var i := FieldIndex(fields, name);
    if i.None? then Ok(None, p)
    else if slots[i.value].Some? then Err(DuplicateField, p)
    else
      NestingBound(fields, i.value);
      var value := ReadValue(s, limits, schema, fields[i.value].ty, p, depth);
      if value.Err? then value.Fail()
      else if !SatisfiesAll(value.value, fields[i.value].constraints) then Err(ConstraintFailed, p)
      else Ok(Some(slots[i.value := Some(value.value)]), value.next)
  }

  function MaxNesting(fields: seq<Field>): nat {
    if fields == [] then 0
    else if Nesting(fields[0].ty) > MaxNesting(fields[1..]) then Nesting(fields[0].ty)
    else MaxNesting(fields[1..])
  }

  lemma NestingBound(fields: seq<Field>, i: nat)
    requires i < |fields|
    ensures Nesting(fields[i].ty) <= MaxNesting(fields)
  {
    if i > 0 {
      NestingBound(fields[1..], i - 1);
    }
  }

  /** One member from its key to the white space behind its value. */
  function ReadMember(
    s: seq<Byte>, limits: Limits, schema: Schema, fields: seq<Field>, p: nat, depth: nat, slots: Slots)
    : (r: Parse<Slots>)
    requires p <= |s| && |slots| == |fields|
    ensures r.Ok? ==> p < r.next <= |s| && |r.value| == |fields|
    ensures r.Err? ==> r.offset <= |s|
    decreases |s| - p, 0
  {
    var key := ParseString(s, limits, p);
    if key.Err? then key.Fail()
    else
      var colon := SkipBlank(s, key.next);
      if At(s, colon) != COLON then Err(ExpectedColon, colon)
      else
        var start := SkipBlank(s, colon + 1);
        var known :=
          ReadNamedField(s, limits, schema, fields, PiecesValue(key.value), start, depth, slots);
        if known.Err? then known.Fail()
        else if known.value.Some? then Ok(known.value.value, SkipBlank(s, known.next))
        else if limits.rejectUnknown then Err(UnknownField, start)
        else
          var skipped := ParseTree(s, limits, start, depth);
          if skipped.Err? then skipped.Fail() else Ok(slots, SkipBlank(s, skipped.next))
  }

  /** The members from `p`, of which `n` precede, up to and including the closing brace. */
  function ReadMembers(
    s: seq<Byte>, limits: Limits, schema: Schema, fields: seq<Field>, p: nat, depth: nat, n: nat, slots: Slots)
    : (r: Parse<Slots>)
    requires p <= |s| && |slots| == |fields|
    ensures r.Ok? ==> p < r.next <= |s| && |r.value| == |fields|
    ensures r.Err? ==> r.offset <= |s|
    decreases |s| - p, 1
  {
    if n >= limits.objectMembers then Err(ObjectTooLarge, p)
    else
      var member := ReadMember(s, limits, schema, fields, p, depth + 1, slots);
      if member.Err? then member
      else if At(s, member.next) == CLOSE_BRACE then Ok(member.value, member.next + 1)
      else if At(s, member.next) != COMMA then Err(ExpectedComma, member.next)
      else
        ReadMembers(s, limits, schema, fields, SkipBlank(s, member.next + 1), depth, n + 1, member.value)
  }

  /** Reading a whole text. */
  function Read(s: seq<Byte>, limits: Limits, schema: Schema, ty: Ty): Parse<Val> {
    if |s| > limits.inputBytes then Err(InputTooLarge, 0)
    else
      var value := ReadValue(s, limits, schema, ty, 0, 0);
      if value.Err? then value
      else if SkipBlank(s, value.next) != |s| then Err(TrailingCharacters, SkipBlank(s, value.next))
      else Ok(value.value, |s|)
  }
}
