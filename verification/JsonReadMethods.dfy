/**
 The typed reader as it runs: methods that move a cursor, fill the object under construction field by
 field and append to vectors. Each computes what its specification in JsonReader says.
 */
module JsonReadMethods {
  import opened Bytes
  import opened JsonString
  import opened JsonTree
  import opened JsonTypes
  import opened Decimal
  import Spec = JsonReader
  import opened JsonCursor

  /** `r` is what the specification says of the value at offset `start`, and the cursor stands behind it. */
  ghost predicate Agrees(input: Cursor, r: Parse<Val>, spec: Parse<Val>)
    reads input`position
  {
    input.Valid() && r == spec && (r.Ok? ==> input.position == r.next)
  }

  method ReadValue(input: Cursor, schema: Schema, ty: Ty, depth: nat) returns (r: Parse<Val>)
    requires input.Valid()
    modifies input`position
    ensures Agrees(input, r, Spec.ReadValue(input.input, input.limits, schema, ty, old(input.position), depth))
    decreases |input.input| - input.position, Spec.Nesting(ty) + 3
  {
    hide Spec.ReadVector, Spec.ReadArray, Spec.ReadObject, Spec.ReadInteger, Spec.ReadEnum, Spec.ReadView;
    hide JsonString.ParseString;
    input.SkipWhitespace();
    if ty.OptionalTy? {
      if input.StartsWith(NULL_TEXT) {
        var consumed := input.ConsumeLiteral(NULL_TEXT);
        return Ok(NoneVal, input.position);
      }
      var contained := ReadValue(input, schema, ty.of, depth);
      if contained.Err? {
        return contained;
      }
      return Ok(SomeVal(contained.value), input.position);
    }
    if input.StartsWith(NULL_TEXT) {
      return Err(NullNotAllowed, input.position);
    }
    match ty {
      case StringTy =>
        var parsed := input.ParseString();
        if parsed.Err? {
          return parsed.Fail();
        }
        return Ok(StringVal(parsed.value.View()), input.position);
      case ViewTy =>
        r := ReadView(input);
      case BoolTy =>
        if input.StartsWith(TRUE_TEXT) {
          var consumed := input.ConsumeLiteral(TRUE_TEXT);
          return Ok(BoolVal(true), input.position);
        }
        if input.StartsWith(FALSE_TEXT) {
          var consumed := input.ConsumeLiteral(FALSE_TEXT);
          return Ok(BoolVal(false), input.position);
        }
        return Err(InvalidBoolean, input.position);
      case IntTy(lo, hi) =>
        r := ReadInteger(input, lo, hi);
      case EnumTy(es) =>
        r := ReadEnum(input, es);
      case VectorTy(of) =>
        r := ReadVector(input, schema, of, depth);
      case ArrayTy(of, size) =>
        r := ReadArray(input, schema, of, size, depth);
      case ObjectTy(name) =>
        r := ReadObject(input, schema, FieldsOf(schema, name), depth);
    }
  }

  method ReadView(input: Cursor) returns (r: Parse<Val>)
    requires input.Valid()
    modifies input`position
    ensures Agrees(input, r, Spec.ReadView(input.input, input.limits, old(input.position)))
    ensures r.Ok? ==> r.value.bytes == input.input[old(input.position) + 1..input.position - 1]
  {
    hide JsonString.ParseString, PiecesValue, AllRaw;
    ghost var start := input.position;
    var parsed := input.ParseString();
    if parsed.Err? {
      return parsed.Fail();
    }
    OwnedIffEscaped(input.input, input.limits, start);
    if parsed.value.ownsValue {
      return Err(EscapedBorrowedString, input.position);
    }
    return Ok(StringVal(parsed.value.borrowed), input.position);
  }

  method ReadInteger(input: Cursor, lo: int, hi: int) returns (r: Parse<Val>)
    requires input.Valid()
    modifies input`position
    ensures Agrees(input, r, Spec.ReadInteger(input.input, lo, hi, old(input.position)))
  {
    hide JsonNumber.ParseNumber, Decimal.FromChars;
    var token := input.ParseNumber();
    if token.Err? {
      return token.Fail();
    }
    var parsed := ConvertFromChars(token.value, lo, hi);
    if parsed.status.OutOfRange? {
      return Err(NumberOutOfRange, input.position);
    }
    if !parsed.status.Converted? || parsed.used != |token.value| {
      return Err(InvalidNumber, input.position);
    }
    return Ok(IntVal(parsed.value), input.position);
  }

  method ReadEnum(input: Cursor, es: seq<Enumerator>) returns (r: Parse<Val>)
    requires input.Valid()
    modifies input`position
    ensures Agrees(input, r, Spec.ReadEnum(input.input, input.limits, es, old(input.position)))
  {
    hide JsonString.ParseString;
    var parsed := input.ParseString();
    if parsed.Err? {
      return parsed.Fail();
    }
    var value := EnumValue(es, parsed.value.View());
    if value.None? {
      return Err(InvalidEnum, input.position);
    }
    return Ok(EnumVal(value.value), input.position);
  }

  method ReadVector(input: Cursor, schema: Schema, of: Ty, depth: nat) returns (r: Parse<Val>)
    requires input.Valid()
    modifies input`position
    ensures Agrees(input, r, Spec.ReadVector(input.input, input.limits, schema, of, old(input.position), depth))
    decreases |input.input| - input.position, 2
  {
    hide Spec.ReadItems;
    if depth >= input.limits.depth {
      return Err(MaximumDepth, input.position);
    }
    var bracket := input.Consume(OPEN_BRACKET);
    if !bracket {
      return Err(ExpectedArray, input.position);
    }
    input.SkipWhitespace();
    var empty := input.Consume(CLOSE_BRACKET);
    if empty {
      return Ok(ListVal([]), input.position);
    }
    r := ReadItems(input, schema, of, depth);
  }

  /** Appends the elements of a vector that is not empty, and passes its closing bracket. */
  method ReadItems(input: Cursor, schema: Schema, of: Ty, depth: nat) returns (r: Parse<Val>)
    requires input.Valid()
    modifies input`position
    ensures Agrees(input, r, Spec.ReadItems(input.input, input.limits, schema, of, old(input.position), depth, []))
    decreases |input.input| - input.position, Spec.Nesting(of) + 4
  {
    hide Spec.ReadItems, Spec.ReadValue, Spec.Nesting, SkipBlank;
    ghost var start := input.position;
    var result: seq<Val> := [];
    while true
      invariant start <= input.position <= |input.input| && (result != [] ==> start < input.position)
      invariant Spec.ReadItems(input.input, input.limits, schema, of, input.position, depth, result)
             == Spec.ReadItems(input.input, input.limits, schema, of, start, depth, [])
      decreases |input.input| - input.position
    {
      ItemsStep(input.input, input.limits, schema, of, input.position, depth, result);
      if |result| >= input.limits.arrayElements {
        return Err(ArrayTooLarge, input.position);
      }
      var element := ReadValue(input, schema, of, depth + 1);
      if element.Err? {
        return element;
      }
      result := result + [element.value];
      input.SkipWhitespace();
      var close := input.Consume(CLOSE_BRACKET);
      if close {
        return Ok(ListVal(result), input.position);
      }
      var comma := input.Consume(COMMA);
      if !comma {
        return Err(ExpectedComma, input.position);
      }
      input.SkipWhitespace();
    }
  }

  method ReadArray(input: Cursor, schema: Schema, of: Ty, size: nat, depth: nat) returns (r: Parse<Val>)
    requires input.Valid()
    modifies input`position
    ensures Agrees(input, r, Spec.ReadArray(input.input, input.limits, schema, of, size, old(input.position), depth))
    decreases |input.input| - input.position, 2
  {
    hide Spec.ReadFixed, Spec.ReadValue;
    if depth >= input.limits.depth {
      return Err(MaximumDepth, input.position);
    }
    ghost var start := input.position;
    var bracket := input.Consume(OPEN_BRACKET);
    if !bracket {
      return Err(ExpectedArray, input.position);
    }
    var result := new Val[size];
    if size > input.limits.arrayElements {
      return Err(ArrayTooLarge, input.position);
    }
    input.SkipWhitespace();
    if size == 0 {
      var close := input.Consume(CLOSE_BRACKET);
      if !close {
        return Err(ArraySize, input.position);
      }
      assert result[..] == [];
      return Ok(ListVal(result[..]), input.position);
    }
    var few := input.Consume(CLOSE_BRACKET);
    if few {
      return Err(ArraySize, input.position);
    }
    r := FillArray(input, schema, of, result, depth);
  }

  /** Reads the elements of a fixed array and the bracket behind them. */
  method FillArray(input: Cursor, schema: Schema, of: Ty, result: array<Val>, depth: nat) returns (r: Parse<Val>)
    requires input.Valid() && result.Length > 0
    modifies input`position, result
    ensures Agrees(input, r, Spec.ReadFixed(input.input, input.limits, schema, of, result.Length,
                                            old(input.position), depth, []))
    decreases |input.input| - input.position, Spec.Nesting(of) + 4
  {
    hide Spec.ReadFixed, Spec.ReadValue, SkipBlank, At;
    ghost var start := input.position;
    var index := 0;
    while index < result.Length
      invariant index < result.Length
      invariant start <= input.position <= |input.input| && (index > 0 ==> start < input.position)
      invariant Spec.ReadFixed(input.input, input.limits, schema, of, result.Length, input.position, depth,
                               result[..index])
             == Spec.ReadFixed(input.input, input.limits, schema, of, result.Length, start, depth, [])
      decreases result.Length - index
    {
      FixedStep(input.input, input.limits, schema, of, result.Length, input.position, depth, result[..index]);
      var element := ReadValue(input, schema, of, depth + 1);
      if element.Err? {
        return element;
      }
      ghost var before := result[..index];
      result[index] := element.value;
      assert result[..index + 1] == before + [element.value];
      input.SkipWhitespace();
      index := index + 1;
      if index == result.Length {
        break;
      }
      var comma := input.Consume(COMMA);
      if !comma {
        return Err(ArraySize, input.position);
      }
      input.SkipWhitespace();
    }
    assert result[..] == result[..index];
    var close := input.Consume(CLOSE_BRACKET);
    if !close {
      return Err(ArraySize, input.position);
    }
    return Ok(ListVal(result[..]), input.position);
  }

  /** What the fields that have been seen hold. The others hold whatever the object started with. */
  function Filled(record: seq<Val>, seen: seq<bool>): (slots: Slots)
    requires |record| == |seen|
    ensures |slots| == |seen|
  {
    seq(|seen|, k requires 0 <= k < |seen| => if seen[k] then Some(record[k]) else None)
  }

  method ReadObject(input: Cursor, schema: Schema, fields: seq<Field>, depth: nat) returns (r: Parse<Val>)
    requires input.Valid()
    modifies input`position
    ensures Agrees(input, r, Spec.ReadObject(input.input, input.limits, schema, fields, old(input.position), depth))
    decreases |input.input| - input.position, 2
  {
    hide Spec.ReadMembers, Spec.ReadMember, Finish;
    if depth >= input.limits.depth {
      return Err(MaximumDepth, input.position);
    }
    ghost var start := input.position;
    var brace := input.Consume(OPEN_BRACE);
    if !brace {
      return Err(ExpectedObject, input.position);
    }
    var record := new Val[|fields|];
    var seen := new bool[|fields|](_ => false);
    assert Filled(record[..], seen[..]) == NoSlots(fields);
    input.SkipWhitespace();
    var empty := input.Consume(CLOSE_BRACE);
    if !empty {
      var members := ReadMembers(input, schema, fields, record, seen, depth);
      if members.Err? {
        return members.Fail();
      }
    }
    var missing := FinishMissing(fields, 0, record, seen, Filled(record[..], seen[..]));
    if missing {
      return Err(MissingField, input.position);
    }
    return Ok(ObjectVal(record[..]), input.position);
  }

  /** The members of an object that is not empty, up to and including its closing brace. */
  method ReadMembers(
    input: Cursor, schema: Schema, fields: seq<Field>, record: array<Val>, seen: array<bool>, depth: nat)
    returns (r: Parse<()>)
    requires input.Valid() && record.Length == seen.Length == |fields|
    modifies input`position, record, seen
    ensures input.Valid()
    ensures var spec := Spec.ReadMembers(input.input, input.limits, schema, fields, old(input.position), depth, 0,
                                         Filled(old(record[..]), old(seen[..])));
            && r == spec.Erase()
            && (r.Ok? ==> input.position == r.next && Filled(record[..], seen[..]) == spec.value)
    decreases |input.input| - input.position, 1
  {
    hide Spec.ReadMembers, Spec.ReadMember;
    ghost var start := input.position;
    ghost var slots := Filled(record[..], seen[..]);
    var count := 0;
    while true
      invariant start <= input.position <= |input.input| && (count > 0 ==> start < input.position)
      invariant Spec.ReadMembers(input.input, input.limits, schema, fields, input.position, depth, count,
                                 Filled(record[..], seen[..]))
             == Spec.ReadMembers(input.input, input.limits, schema, fields, start, depth, 0, slots)
      decreases |input.input| - input.position
    {
      MembersStep(input.input, input.limits, schema, fields, input.position, depth, count,
                  Filled(record[..], seen[..]));
      count := count + 1;
      if count > input.limits.objectMembers {
        return Err(ObjectTooLarge, input.position);
      }
      var member := ReadMember(input, schema, fields, record, seen, depth + 1);
      if member.Err? {
        return member;
      }
      var close := input.Consume(CLOSE_BRACE);
      if close {
        return Ok((), input.position);
      }
      var comma := input.Consume(COMMA);
      if !comma {
        return Err(ExpectedComma, input.position);
      }
      input.SkipWhitespace();
    }
  }

  /** One member from its key to the white space behind its value. */
  method ReadMember(
    input: Cursor, schema: Schema, fields: seq<Field>, record: array<Val>, seen: array<bool>, depth: nat)
    returns (r: Parse<()>)
    requires input.Valid() && record.Length == seen.Length == |fields|
    modifies input`position, record, seen
    ensures input.Valid()
    ensures var spec := Spec.ReadMember(input.input, input.limits, schema, fields, old(input.position), depth,
                                        Filled(old(record[..]), old(seen[..])));
            && r == spec.Erase()
            && (r.Ok? ==> input.position == r.next && Filled(record[..], seen[..]) == spec.value)
    decreases |input.input| - input.position, 0
  {
    hide JsonString.ParseString, Spec.ReadNamedField, ParseTree, SkipBlank, At, PiecesValue;
    var key := input.ParseString();
    if key.Err? {
      return key.Fail();
    }
    input.SkipWhitespace();
    var colon := input.Consume(COLON);
    if !colon {
      return Err(ExpectedColon, input.position);
    }
    SkipBlankTwice(input.input, input.position);
    input.SkipWhitespace();
    var known := ReadNamedField(input, schema, fields, 0, record, seen, key.value.View(), depth);
    if known.Err? {
      return known.Fail();
    }
    if !known.value {
      if input.limits.rejectUnknown {
        return Err(UnknownField, input.position);
      }
      var skipped := input.SkipValue(depth);
      if skipped.Err? {
        return skipped;
      }
    }
    input.SkipWhitespace();
    return Ok((), input.position);
  }

  /** Reads the field called `name`, when there is one at or behind `index`. */
  method ReadNamedField(
    input: Cursor, schema: Schema, fields: seq<Field>, index: nat, record: array<Val>, seen: array<bool>,
    name: seq<Byte>, depth: nat)
    returns (r: Parse<bool>)
    requires input.Valid() && record.Length == seen.Length == |fields|
    requires index <= |fields| && forall k | 0 <= k < index :: fields[k].wire != name
    modifies input`position, record, seen
    ensures input.Valid()
    ensures var spec := Spec.ReadNamedField(input.input, input.limits, schema, fields, name, old(input.position),
                                            depth, Filled(old(record[..]), old(seen[..])));
            && r.Erase() == spec.Erase()
            && (r.Ok? ==>
                  && input.position == r.next
                  && r.value == spec.value.Some?
                  && Filled(record[..], seen[..])
                     == if r.value then spec.value.value else Filled(old(record[..]), old(seen[..])))
    decreases |input.input| - input.position, Spec.MaxNesting(fields) + 4, |fields| - index
  {
    hide Spec.ReadValue, SatisfiesAll;
    FirstFieldIndex(fields, name, index);
    if index == |fields| {
      return Ok(false, input.position);
    }
    if name != fields[index].wire {
      r := ReadNamedField(input, schema, fields, index + 1, record, seen, name, depth);
      return;
    }
    Spec.NestingBound(fields, index);
    ghost var slots := Filled(record[..], seen[..]);
    if seen[index] {
      return Err(DuplicateField, input.position);
    }
    seen[index] := true;
    var valueOffset := input.position;
    var value := ReadValue(input, schema, fields[index].ty, depth);
    if value.Err? {
      return value.Fail();
    }
    if !SatisfiesAll(value.value, fields[index].constraints) {
      return Err(ConstraintFailed, valueOffset);
    }
    record[index] := value.value;
    assert Filled(record[..], seen[..]) == slots[index := Some(value.value)];
    return Ok(true, input.position);
  }

  /** Gives the fields from `index` on that have not been seen what stands in for them. */
  method FinishMissing(fields: seq<Field>, index: nat, record: array<Val>, seen: array<bool>, ghost slots: Slots)
    returns (missing: bool)
    requires record.Length == seen.Length == |fields| == |slots| && index <= |fields|
    requires forall k | 0 <= k < index :: FieldValue(fields[k], slots[k]) == Some(record[k])
    requires forall k | index <= k < |fields| :: slots[k] == if seen[k] then Some(record[k]) else None
    modifies record
    ensures missing == Finish(fields, slots).None?
    ensures !missing ==> record[..] == Finish(fields, slots).value
    decreases |fields| - index
  {
    FinishedFields(fields, slots);
    if index == |fields| {
      return false;
    }
    if !seen[index] {
      if fields[index].ty.OptionalTy? {
        record[index] := NoneVal;
      } else if fields[index].fallback.Some? {
        record[index] := fields[index].fallback.value;
      } else {
        return true;
      }
    }
    missing := FinishMissing(fields, index + 1, record, seen, slots);
  }

  method Read(text: seq<Byte>, limits: Limits, schema: Schema, ty: Ty) returns (r: Parse<Val>)
    ensures r == Spec.Read(text, limits, schema, ty)
  {
    if |text| > limits.inputBytes {
      return Err(InputTooLarge, 0);
    }
    var input := new Cursor(text, limits);
    var result := ReadValue(input, schema, ty, 0);
    if result.Err? {
      return result;
    }
    input.SkipWhitespace();
    if input.position != |text| {
      return Err(TrailingCharacters, input.position);
    }
    return Ok(result.value, input.position);
  }

  // --- Facts the loops use ----------------------------------------------------------------

  lemma {:induction false} FirstFieldIndex(fields: seq<Field>, name: seq<Byte>, index: nat)
    requires index <= |fields| && forall k | 0 <= k < index :: fields[k].wire != name
    ensures index == |fields| ==> FieldIndex(fields, name) == None
    ensures index < |fields| && fields[index].wire == name ==> FieldIndex(fields, name) == Some(index)
  {
    if index > 0 {
      FirstFieldIndex(fields[1..], name, index - 1);
    }
  }

  /** One round of reading a vector, spelled out. */
  lemma ItemsStep(s: seq<Byte>, limits: Limits, schema: Schema, of: Ty, p: nat, depth: nat, done: seq<Val>)
    requires p <= |s|
    ensures var all := Spec.ReadItems(s, limits, schema, of, p, depth, done);
            if |done| >= limits.arrayElements then all == Err(ArrayTooLarge, p)
            else
              var item := Spec.ReadValue(s, limits, schema, of, p, depth + 1);
              if item.Err? then all == item
              else
                var end := SkipBlank(s, item.next);
                if At(s, end) == CLOSE_BRACKET then all == Ok(ListVal(done + [item.value]), end + 1)
                else if At(s, end) != COMMA then all == Err(ExpectedComma, end)
                else
                  all == Spec.ReadItems(s, limits, schema, of, SkipBlank(s, end + 1), depth, done + [item.value])
  {
    hide Spec.ReadValue, SkipBlank, At;
  }

  /** One round of reading a fixed array, spelled out. */
  lemma FixedStep(
    s: seq<Byte>, limits: Limits, schema: Schema, of: Ty, size: nat, p: nat, depth: nat, done: seq<Val>)
    requires p <= |s| && |done| < size
    ensures var all := Spec.ReadFixed(s, limits, schema, of, size, p, depth, done);
            var item := Spec.ReadValue(s, limits, schema, of, p, depth + 1);
            if item.Err? then all == item
            else
              var end := SkipBlank(s, item.next);
              if |done| + 1 == size then
                all == if At(s, end) != CLOSE_BRACKET then Err(ArraySize, end)
                       else Ok(ListVal(done + [item.value]), end + 1)
              else if At(s, end) != COMMA then all == Err(ArraySize, end)
              else
                all == Spec.ReadFixed(s, limits, schema, of, size, SkipBlank(s, end + 1), depth, done + [item.value])
  {
    hide Spec.ReadValue, SkipBlank, At;
  }

  /** One round of reading an object, spelled out. */
  lemma MembersStep(
    s: seq<Byte>, limits: Limits, schema: Schema, fields: seq<Field>, p: nat, depth: nat, n: nat, slots: Slots)
    requires p <= |s| && |slots| == |fields|
    ensures var all := Spec.ReadMembers(s, limits, schema, fields, p, depth, n, slots);
            if n >= limits.objectMembers then all == Err(ObjectTooLarge, p)
            else
              var member := Spec.ReadMember(s, limits, schema, fields, p, depth + 1, slots);
              if member.Err? then all == member
              else if At(s, member.next) == CLOSE_BRACE then all == Ok(member.value, member.next + 1)
              else if At(s, member.next) != COMMA then all == Err(ExpectedComma, member.next)
              else
                all == Spec.ReadMembers(s, limits, schema, fields, SkipBlank(s, member.next + 1), depth, n + 1,
                                        member.value)
  {
    hide Spec.ReadMember;
  }
}
