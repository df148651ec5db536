/** The problem document spelled out, member by member. */
module ProblemWords {
  import opened Bytes
  import opened Decimal
  import opened JsonString
  import opened JsonTypes
  import opened JsonText
  import opened JsonOmit
  import opened Problem

  predicate Plainly(name: string) {
    forall k | 0 <= k < |name| :: 0x20 as char <= name[k] < 128 as char && name[k] != '"' && name[k] != '\\'
  }

  /** The name of a member between quotes, and the colon. */
  function Start(name: string): seq<Byte>
    requires Plainly(name)
  {
    Ascii("\"") + Ascii(name) + Ascii("\":")
  }

  /** String tokens with commas between them. */
  function StringList(texts: seq<seq<Byte>>): seq<Byte> {
    if texts == [] then []
    else if |texts| == 1 then EscapedString(texts[0])
    else EscapedString(texts[0]) + (Ascii(",") + StringList(texts[1..]))
  }

  function ErrorText(e: ValidationError): seq<Byte> {
    Ascii("{") + (Start("location") + (Ascii("[") + (StringList(e.location) + Ascii("]"))))
    + (Ascii(",") + (Start("code") + EscapedString(e.code)))
    + (Ascii(",") + (Start("message") + EscapedString(e.message)))
    + Ascii("}")
  }

  function ErrorList(errors: seq<ValidationError>): seq<Byte> {
    if errors == [] then []
    else if |errors| == 1 then ErrorText(errors[0])
    else ErrorText(errors[0]) + (Ascii(",") + ErrorList(errors[1..]))
  }

  /** A member behind a comma, left out when its text is empty. */
  function TextMember(name: string, text: seq<Byte>): seq<Byte>
    requires Plainly(name)
  {
    if text == [] then [] else Ascii(",") + (Start(name) + EscapedString(text))
  }

  function ErrorsMember(errors: seq<ValidationError>): seq<Byte> {
    if errors == [] then [] else Ascii(",") + (Start("errors") + (Ascii("[") + (ErrorList(errors) + Ascii("]"))))
  }

  // --- Members ----------------------------------------------------------------------------

  lemma {:induction false} RawBody(v: seq<Byte>)
    requires PrintsRaw(v)
    ensures EscapedBody(v) == v
  {
    if v != [] {
      RawBody(v[1..]);
      assert v == [v[0]] + v[1..];
    }
  }

  /** A field with this name: its start and the text of its value. */
  lemma NamedField(field: Field, v: Val, name: string)
    requires HasType(SCHEMA, field.ty, v) && Plainly(name) && field.wire == Ascii(name)
    ensures WriteField(SCHEMA, field, v) == Start(name) + WriteText(SCHEMA, field.ty, v)
  {
    hide WriteText, HasType;
    RawBody(field.wire);
    assert [QUOTE] + field.wire + [QUOTE] + [COLON] == Start(name);
  }

  lemma ErrorNames()
    ensures ERROR_FIELDS[0].wire == Ascii("location") && ERROR_FIELDS[1].wire == Ascii("code")
    ensures ERROR_FIELDS[2].wire == Ascii("message")
  {
  }

  lemma DetailNames()
    ensures PROBLEM_FIELDS[0].wire == Ascii("type") && PROBLEM_FIELDS[1].wire == Ascii("title")
    ensures PROBLEM_FIELDS[2].wire == Ascii("status") && PROBLEM_FIELDS[3].wire == Ascii("detail")
    ensures PROBLEM_FIELDS[4].wire == Ascii("instance") && PROBLEM_FIELDS[5].wire == Ascii("errors")
    ensures PROBLEM_FIELDS[6].wire == Ascii("request_id")
  {
  }

  /** What is printed for the fields from `k` on. */
  function KeptFrom(p: Detail, k: nat): seq<Byte>
    requires k <= 7
  {
    ProblemSoundFrom(p, k);
    KeptText(SCHEMA, PROBLEM_FIELDS[k..], ProblemVals(p)[k..], k == 0)
  }

  lemma SoundHasType(ty: Ty, v: Val)
    requires Sound(ty, v)
    ensures HasType(SCHEMA, ty, v)
  {
  }

  lemma FieldHasType(p: Detail, k: nat)
    requires k < 7
    ensures |PROBLEM_FIELDS| == |ProblemVals(p)| == 7
    ensures HasType(SCHEMA, PROBLEM_FIELDS[k].ty, ProblemVals(p)[k])
  {
    hide Sound;
    ProblemFieldIsSound(p, k);
    SoundHasType(PROBLEM_FIELDS[k].ty, ProblemVals(p)[k]);
  }

  lemma KeptCons(field: Field, fields: seq<Field>, v: Val, vs: seq<Val>, first: bool)
    requires FieldsHaveTypes(SCHEMA, fields, vs) && HasType(SCHEMA, field.ty, v) && !(first && v.NoneVal?)
    ensures FieldsHaveTypes(SCHEMA, [field] + fields, [v] + vs)
    ensures KeptText(SCHEMA, [field] + fields, [v] + vs, first)
         == (if v.NoneVal? then [] else (if first then [] else [COMMA]) + WriteField(SCHEMA, field, v))
            + KeptText(SCHEMA, fields, vs, false)
  {
    hide WriteField, HasType;
    Cons(field, fields);
    Cons(v, vs);
  }

  lemma KeptStep(p: Detail, k: nat)
    requires k < 7
    ensures |PROBLEM_FIELDS| == |ProblemVals(p)| == 7
    ensures HasType(SCHEMA, PROBLEM_FIELDS[k].ty, ProblemVals(p)[k])
    ensures var v := ProblemVals(p)[k];
            KeptFrom(p, k)
            == (if v.NoneVal? then [] else (if k == 0 then [] else [COMMA]) + WriteField(SCHEMA, PROBLEM_FIELDS[k], v))
               + KeptFrom(p, k + 1)
  {
    hide WriteField, HasType, KeptText;
    FieldHasType(p, k);
    ProblemSoundFrom(p, k);
    ProblemSoundFrom(p, k + 1);
    var f, v := PROBLEM_FIELDS, ProblemVals(p);
    assert [f[k]] + f[k + 1..] == f[k..] && [v[k]] + v[k + 1..] == v[k..];
    KeptCons(f[k], f[k + 1..], v[k], v[k + 1..], k == 0);
  }

  /** An optional text from the field at `k`. */
  lemma OptionalMember(p: Detail, k: nat, text: seq<Byte>, name: string)
    requires 0 < k < 7 && PROBLEM_FIELDS[k].ty == TEXT_TY && ProblemVals(p)[k] == OptionalText(text)
    requires Plainly(name) && PROBLEM_FIELDS[k].wire == Ascii(name)
    ensures KeptFrom(p, k) == TextMember(name, text) + KeptFrom(p, k + 1)
  {
    hide KeptFrom, WriteField, EscapedString, Start;
    KeptStep(p, k);
    if text != [] {
      NamedField(PROBLEM_FIELDS[k], ProblemVals(p)[k], name);
      assert WriteText(SCHEMA, TEXT_TY, SomeVal(StringVal(text))) == EscapedString(text);
      assert [COMMA] == Ascii(",");
    }
  }

  // --- Errors -----------------------------------------------------------------------------

  lemma {:induction false} StringListIs(texts: seq<seq<Byte>>)
    ensures HaveType(SCHEMA, StringTy, StringVals(texts))
    ensures WriteItems(SCHEMA, StringTy, StringVals(texts)) == StringList(texts)
  {
    hide EscapedString;
    StringsAreTyped(StringVals(texts));
    if texts != [] {
      assert StringVals(texts)[1..] == StringVals(texts[1..]);
      StringListIs(texts[1..]);
      assert WriteText(SCHEMA, StringTy, StringVal(texts[0])) == EscapedString(texts[0]);
      assert [COMMA] == Ascii(",");
    }
  }

  lemma LocationText(e: ValidationError)
    ensures HasType(SCHEMA, ERROR_FIELDS[0].ty, ListVal(StringVals(e.location)))
    ensures WriteField(SCHEMA, ERROR_FIELDS[0], ListVal(StringVals(e.location)))
         == Start("location") + (Ascii("[") + (StringList(e.location) + Ascii("]")))
  {
    hide StringList, WriteItems, Start, WriteField;
    StringListIs(e.location);
    ErrorNames();
    NamedField(ERROR_FIELDS[0], ListVal(StringVals(e.location)), "location");
    assert [OPEN_BRACKET] == Ascii("[") && [CLOSE_BRACKET] == Ascii("]");
  }

  lemma CodeText(e: ValidationError)
    ensures WriteField(SCHEMA, ERROR_FIELDS[1], StringVal(e.code)) == Start("code") + EscapedString(e.code)
    ensures WriteField(SCHEMA, ERROR_FIELDS[2], StringVal(e.message)) == Start("message") + EscapedString(e.message)
  {
    hide EscapedString, Start, WriteField;
    ErrorNames();
    NamedField(ERROR_FIELDS[1], StringVal(e.code), "code");
    NamedField(ERROR_FIELDS[2], StringVal(e.message), "message");
  }

  lemma FieldsCons(field: Field, fields: seq<Field>, v: Val, vs: seq<Val>)
    requires FieldsHaveTypes(SCHEMA, [field] + fields, [v] + vs)
    ensures HasType(SCHEMA, field.ty, v) && FieldsHaveTypes(SCHEMA, fields, vs)
    ensures WriteFields(SCHEMA, [field] + fields, [v] + vs)
         == WriteField(SCHEMA, field, v) + if vs == [] then [] else [COMMA] + WriteFields(SCHEMA, fields, vs)
  {
    hide WriteField, HasType;
    Cons(field, fields);
    Cons(v, vs);
  }

  lemma ThreeFields(fields: seq<Field>, vs: seq<Val>)
    requires |fields| == |vs| == 3 && FieldsHaveTypes(SCHEMA, fields, vs)
    ensures HasType(SCHEMA, fields[0].ty, vs[0]) && HasType(SCHEMA, fields[1].ty, vs[1])
    ensures HasType(SCHEMA, fields[2].ty, vs[2])
    ensures WriteFields(SCHEMA, fields, vs)
         == WriteField(SCHEMA, fields[0], vs[0])
            + ([COMMA] + (WriteField(SCHEMA, fields[1], vs[1]) + ([COMMA] + WriteField(SCHEMA, fields[2], vs[2]))))
  {
    hide WriteField, HasType, FieldsHaveTypes, WriteFields;
    assert [fields[0]] + fields[1..] == fields && [vs[0]] + vs[1..] == vs;
    assert [fields[1]] + fields[2..] == fields[1..] && [vs[1]] + vs[2..] == vs[1..];
    assert [fields[2]] + [] == fields[2..] && [vs[2]] + [] == vs[2..];
    FieldsCons(fields[0], fields[1..], vs[0], vs[1..]);
    FieldsCons(fields[1], fields[2..], vs[1], vs[2..]);
    FieldsCons(fields[2], [], vs[2], []);
  }

  lemma ErrorTextIs(e: ValidationError)
    ensures HasType(SCHEMA, ERROR_TY, ErrorVal(e))
    ensures WriteText(SCHEMA, ERROR_TY, ErrorVal(e)) == ErrorText(e)
  {
    hide EscapedString, StringList, WriteField, WriteFields, Start, Sound, FieldsHaveTypes;
    ErrorIsSound(e);
    SoundHasType(ERROR_TY, ErrorVal(e));
    assert FieldsOf(SCHEMA, "ValidationError") == ERROR_FIELDS;
    ThreeFields(ERROR_FIELDS, ErrorVal(e).fields);
    LocationText(e);
    CodeText(e);
    assert [OPEN_BRACE] == Ascii("{") && [CLOSE_BRACE] == Ascii("}") && [COMMA] == Ascii(",");
  }

  lemma {:induction false} ErrorListIs(errors: seq<ValidationError>)
    ensures HaveType(SCHEMA, ERROR_TY, ErrorVals(errors))
    ensures WriteItems(SCHEMA, ERROR_TY, ErrorVals(errors)) == ErrorList(errors)
  {
    hide ErrorText, WriteText, HasType, ErrorVal;
    if errors != [] {
      assert ErrorVals(errors)[1..] == ErrorVals(errors[1..]);
      ErrorListIs(errors[1..]);
      ErrorTextIs(errors[0]);
      assert [COMMA] == Ascii(",");
    }
  }

  lemma ErrorsAre(p: Detail)
    ensures KeptFrom(p, 5) == ErrorsMember(p.errors) + KeptFrom(p, 6)
  {
    hide KeptFrom, WriteField, WriteItems, ErrorList, Start;
    KeptStep(p, 5);
    if p.errors != [] {
      DetailNames();
      ErrorListIs(p.errors);
      NamedField(PROBLEM_FIELDS[5], ProblemVals(p)[5], "errors");
      assert [OPEN_BRACKET] == Ascii("[") && [CLOSE_BRACKET] == Ascii("]") && [COMMA] == Ascii(",");
    }
  }

  // --- The document -----------------------------------------------------------------------

  lemma FirstMembers(p: Detail)
    ensures KeptFrom(p, 0)
         == Start("type") + EscapedString(p.kind)
            + ((Ascii(",") + (Start("title") + EscapedString(p.title)))
               + ((Ascii(",") + (Start("status") + ToChars(p.status))) + KeptFrom(p, 3)))
  {
    hide KeptFrom, WriteField, EscapedString, ToChars, Start;
    KeptStep(p, 0);
    KeptStep(p, 1);
    KeptStep(p, 2);
    DetailNames();
    NamedField(PROBLEM_FIELDS[0], ProblemVals(p)[0], "type");
    NamedField(PROBLEM_FIELDS[1], ProblemVals(p)[1], "title");
    NamedField(PROBLEM_FIELDS[2], ProblemVals(p)[2], "status");
    assert [COMMA] == Ascii(",");
  }

  lemma OtherMembers(p: Detail)
    ensures KeptFrom(p, 3)
         == TextMember("detail", p.detail)
            + (TextMember("instance", p.instance) + (ErrorsMember(p.errors) + TextMember("request_id", p.requestId)))
  {
    hide KeptFrom, TextMember, ErrorsMember;
    DetailNames();
    OptionalMember(p, 3, p.detail, "detail");
    OptionalMember(p, 4, p.instance, "instance");
    ErrorsAre(p);
    OptionalMember(p, 6, p.requestId, "request_id");
    NothingKept(p);
    assert TextMember("request_id", p.requestId) + [] == TextMember("request_id", p.requestId);
  }

  lemma NothingKept(p: Detail)
    ensures KeptFrom(p, 7) == []
  {
  }

  /**
   The document is an object with the members type, title and status, and behind them detail, instance, errors and
   request_id as far as they are not empty; each error has a location, a code and a message.
   */
  lemma DocumentIs(p: Detail)
    ensures ProblemText(p)
         == Ascii("{")
            + (Start("type") + EscapedString(p.kind)
               + ((Ascii(",") + (Start("title") + EscapedString(p.title)))
                  + ((Ascii(",") + (Start("status") + ToChars(p.status)))
                     + (TextMember("detail", p.detail)
                        + (TextMember("instance", p.instance)
                           + (ErrorsMember(p.errors) + TextMember("request_id", p.requestId)))))))
            + Ascii("}")
  {
    hide KeptFrom, ProblemText, TextMember, ErrorsMember, EscapedString, ToChars, Start;
    FirstMembers(p);
    OtherMembers(p);
    InBraces(p);
  }

  lemma InBraces(p: Detail)
    ensures ProblemText(p) == Ascii("{") + KeptFrom(p, 0) + Ascii("}")
  {
    hide KeptText;
    ProblemSoundFrom(p, 0);
    assert PROBLEM_FIELDS[0..] == PROBLEM_FIELDS && ProblemVals(p)[0..] == ProblemVals(p);
    ProblemIsSound(p);
    assert [OPEN_BRACE] == Ascii("{") && [CLOSE_BRACE] == Ascii("}");
  }
}
