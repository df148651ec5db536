/** The serializer as it runs: methods that grow an output string in place. */
module JsonWriteMethods {
  import opened Bytes
  import opened Hex
  import opened JsonString
  import opened JsonTypes
  import opened JsonText
  import opened Decimal

  /** The string that is being built. */
  class Output {
    var text: seq<Byte>

    constructor ()
      ensures text == []
    {
      text := [];
    }

    method PushBack(b: Byte)
      modifies this
      ensures text == old(text) + [b]
    {
      text := text + [b];
    }

    method Append(bytes: seq<Byte>)
      modifies this
      ensures text == old(text) + bytes
    {
      text := text + bytes;
    }

    method AppendEscapedString(value: seq<Byte>)
      modifies this
      ensures text == old(text) + EscapedString(value)
    {
      hide Escaped, EscapedBody;
      ghost var before := text;
      PushBack(QUOTE);
      var index := 0;
      NoEscapes(value, text);
      while index < |value|
        invariant index <= |value|
        invariant text == before + [QUOTE] + EscapedBody(value[..index])
      {
        AppendEscapedByte(value[index]);
        EscapedSnoc(value, index);
        Assoc(before + [QUOTE], EscapedBody(value[..index]), Escaped(value[index]));
        index := index + 1;
      }
      PushBack(QUOTE);
      assert value[..index] == value;
      assert before + [QUOTE] + EscapedBody(value) + [QUOTE] == before + ([QUOTE] + EscapedBody(value) + [QUOTE]);
    }

    method AppendEscapedByte(character: Byte)
      modifies this
      ensures text == old(text) + Escaped(character)
    {
      ghost var before := text;
      if character == QUOTE {
        Append([BACKSLASH, QUOTE]);
      } else if character == BACKSLASH {
        Append([BACKSLASH, BACKSLASH]);
      } else if character == 8 {
        Append([BACKSLASH, 'b' as int]);
      } else if character == 12 {
        Append([BACKSLASH, 'f' as int]);
      } else if character == 10 {
        Append([BACKSLASH, 'n' as int]);
      } else if character == 13 {
        Append([BACKSLASH, 'r' as int]);
      } else if character == 9 {
        Append([BACKSLASH, 't' as int]);
      } else if character < 0x20 {
        Append([BACKSLASH, LOWER_U, '0' as int, '0' as int]);
        PushBack(HexDigit(character / 16));
        PushBack(HexDigit(character % 16));
      } else {
        PushBack(character);
      }
    }
  }

  /** Appends a value. It fails, where the source throws, on an enum value without an enumerator. */
  method AppendValue(output: Output, schema: Schema, ty: Ty, value: Val) returns (ok: bool)
    requires HasType(schema, ty, value)
    modifies output
    ensures ok == Writable(schema, ty, value)
    ensures ok ==> output.text == old(output.text) + WriteText(schema, ty, value)
    decreases value, ty, 0
  {
    hide EscapedString, ToChars;
    match ty {
      case StringTy =>
        output.AppendEscapedString(value.bytes);
        return true;
      case ViewTy =>
        output.AppendEscapedString(value.bytes);
        return true;
      case BoolTy =>
        output.Append(if value.flag then TRUE_TEXT else FALSE_TEXT);
        return true;
      case IntTy(_, _) =>
        var digits := ConvertToChars(value.number);
        output.Append(digits);
        return true;
      case EnumTy(es) =>
        var name := EnumName(es, value.constant);
        if name.None? {
          return false;
        }
        output.AppendEscapedString(name.value);
        return true;
      case OptionalTy(of) =>
        if value.SomeVal? {
          ok := AppendValue(output, schema, of, value.inner);
        } else {
          output.Append(NULL_TEXT);
          ok := true;
        }
      case VectorTy(of) =>
        ok := AppendList(output, schema, of, value.items);
      case ArrayTy(of, _) =>
        ok := AppendList(output, schema, of, value.items);
      case ObjectTy(name) =>
        ghost var before := output.text;
        output.PushBack(OPEN_BRACE);
        ok := AppendObjectFields(output, schema, FieldsOf(schema, name), value.fields, 0);
        if ok {
          output.PushBack(CLOSE_BRACE);
          Wrapped(before, OPEN_BRACE, WriteFields(schema, FieldsOf(schema, name), value.fields), CLOSE_BRACE);
        }
    }
  }

  method AppendList(output: Output, schema: Schema, of: Ty, value: seq<Val>) returns (ok: bool)
    requires HaveType(schema, of, value)
    modifies output
    ensures ok == AllWritable(schema, of, value)
    ensures ok ==>
              output.text == old(output.text) + ([OPEN_BRACKET] + (WriteItems(schema, of, value) + [CLOSE_BRACKET]))
    decreases value, 1
  {
    ghost var before := output.text;
    output.PushBack(OPEN_BRACKET);
    ok := AppendItems(output, schema, of, value);
    if ok {
      output.PushBack(CLOSE_BRACKET);
      Wrapped(before, OPEN_BRACKET, WriteItems(schema, of, value), CLOSE_BRACKET);
    }
  }

  method AppendItems(output: Output, schema: Schema, of: Ty, value: seq<Val>) returns (ok: bool)
    requires HaveType(schema, of, value)
    modifies output
    ensures ok == AllWritable(schema, of, value)
    ensures ok ==> output.text == old(output.text) + WriteItems(schema, of, value)
    decreases value, 0
  {
    hide HasType, WriteText, Writable, HaveType, AllWritable, WriteItems, Pending;
    var first := true;
    var index := 0;
    FirstPending(output.text, value != [], WriteItems(schema, of, value));
    assert value[0..] == value;
    while index < |value|
      invariant index <= |value| && first == (index == 0)
      invariant HaveType(schema, of, value[index..])
      invariant AllWritable(schema, of, value) == AllWritable(schema, of, value[index..])
      invariant output.text + Pending(first, index < |value|, WriteItems(schema, of, value[index..]))
             == old(output.text) + WriteItems(schema, of, value)
    {
      var element := value[index];
      ghost var rest := value[index..];
      assert rest[0] == element && rest[1..] == value[index + 1..];
      ItemsStep(schema, of, rest);
      Moved(first, rest[1..] != [], output.text, WriteText(schema, of, element), WriteItems(schema, of, rest[1..]));
      if !first {
        output.PushBack(COMMA);
      }
      first := false;
      ok := AppendValue(output, schema, of, element);
      if !ok {
        return;
      }
      index := index + 1;
    }
    NothingPending(schema, of, value[index..], first, output.text);
    return true;
  }

  method AppendObjectFields(output: Output, schema: Schema, fields: seq<Field>, record: seq<Val>, index: nat)
    returns (ok: bool)
    requires index <= |fields| == |record|
    requires FieldsHaveTypes(schema, fields[index..], record[index..])
    modifies output
    ensures ok == FieldsWritable(schema, fields[index..], record[index..])
    ensures ok ==>
              output.text
              == old(output.text)
                 + Pending(index == 0, index < |fields|, WriteFields(schema, fields[index..], record[index..]))
    decreases record, 1, |fields| - index
  {
    hide HasType, WriteText, Writable, EscapedString;
    if index == |fields| {
      assert output.text + [] == output.text;
      return true;
    }
    ghost var fs, vs := fields[index..], record[index..];
    assert fs[0] == fields[index] && vs[0] == record[index];
    assert fs[1..] == fields[index + 1..] && vs[1..] == record[index + 1..];
    ghost var rest := WriteFields(schema, fs[1..], vs[1..]);
    FieldsStep(schema, fs, vs);
    Moved(index == 0, vs[1..] != [], output.text, WriteField(schema, fs[0], vs[0]), rest);
    ghost var before := if index == 0 then output.text else output.text + [COMMA];
    if index != 0 {
      output.PushBack(COMMA);
    }
    output.AppendEscapedString(fields[index].wire);
    output.PushBack(COLON);
    ok := AppendValue(output, schema, fields[index].ty, record[index]);
    if ok {
      FieldPrinted(before, EscapedString(fs[0].wire), WriteText(schema, fs[0].ty, vs[0]));
      ok := AppendObjectFields(output, schema, fields, record, index + 1);
    }
  }

  /** Serializing into a fresh string; None where the source throws. */
  method Write(schema: Schema, ty: Ty, value: Val) returns (r: Option<seq<Byte>>)
    requires HasType(schema, ty, value)
    ensures r == if Writable(schema, ty, value) then Some(WriteText(schema, ty, value)) else None
  {
    var output := new Output();
    var ok := AppendValue(output, schema, ty, value);
    if ok {
      EmptyLeft(WriteText(schema, ty, value));
    }
    return if ok then Some(output.text) else None;
  }

  // --- Facts the loops use ----------------------------------------------------------------

  /** What a list still adds: a comma first, unless nothing precedes or nothing follows. */
  function Pending(first: bool, more: bool, rest: seq<Byte>): seq<Byte> {
    if first || !more then rest else [COMMA] + rest
  }

  lemma NoEscapes(value: seq<Byte>, text: seq<Byte>)
    ensures text == text + EscapedBody(value[..0])
  {
  }

  lemma EscapedSnoc(value: seq<Byte>, index: nat)
    requires index < |value|
    ensures EscapedBody(value[..index + 1]) == EscapedBody(value[..index]) + Escaped(value[index])
  {
    hide Escaped;
    assert value[..index + 1] == value[..index] + [value[index]];
    EscapedBodyConcat(value[..index], [value[index]]);
    assert EscapedBody([value[index]]) == Escaped(value[index]) + [];
  }

  lemma Wrapped(before: seq<Byte>, left: Byte, inner: seq<Byte>, right: Byte)
    ensures before + [left] + inner + [right] == before + ([left] + (inner + [right]))
  {
  }

  /** Moving one element from what a list still adds to what it has added. */
  lemma Moved(first: bool, more: bool, text: seq<Byte>, head: seq<Byte>, rest: seq<Byte>)
    ensures text + Pending(first, true, head + Pending(false, more, rest))
         == (if first then text else text + [COMMA]) + head + Pending(false, more, rest)
  {
  }

  lemma FieldPrinted(before: seq<Byte>, name: seq<Byte>, value: seq<Byte>)
    ensures before + name + [COLON] + value == before + (name + ([COLON] + value))
  {
  }

  lemma FirstPending(text: seq<Byte>, more: bool, rest: seq<Byte>)
    ensures text + Pending(true, more, rest) == text + rest
  {
  }

  lemma NothingPending(schema: Schema, of: Ty, vs: seq<Val>, first: bool, text: seq<Byte>)
    requires vs == []
    ensures HaveType(schema, of, vs) && AllWritable(schema, of, vs)
    ensures text + Pending(first, false, WriteItems(schema, of, vs)) == text
  {
  }

  lemma ItemsStep(schema: Schema, of: Ty, vs: seq<Val>)
    requires vs != [] && HaveType(schema, of, vs)
    ensures HasType(schema, of, vs[0]) && HaveType(schema, of, vs[1..])
    ensures WriteItems(schema, of, vs)
         == WriteText(schema, of, vs[0]) + Pending(false, vs[1..] != [], WriteItems(schema, of, vs[1..]))
    ensures AllWritable(schema, of, vs) == (Writable(schema, of, vs[0]) && AllWritable(schema, of, vs[1..]))
  {
    hide HasType, WriteText, Writable;
    if |vs| == 1 {
      assert WriteText(schema, of, vs[0]) + [] == WriteText(schema, of, vs[0]);
    }
  }

  lemma FieldsStep(schema: Schema, fields: seq<Field>, vs: seq<Val>)
    requires vs != [] && FieldsHaveTypes(schema, fields, vs)
    ensures WriteFields(schema, fields, vs)
         == WriteField(schema, fields[0], vs[0])
            + Pending(false, vs[1..] != [], WriteFields(schema, fields[1..], vs[1..]))
    ensures FieldsWritable(schema, fields, vs)
         == (Writable(schema, fields[0].ty, vs[0]) && FieldsWritable(schema, fields[1..], vs[1..]))
  {
    hide HasType, WriteText, Writable, WriteField;
    if |vs| == 1 {
      assert WriteField(schema, fields[0], vs[0]) + [] == WriteField(schema, fields[0], vs[0]);
    }
  }
}
