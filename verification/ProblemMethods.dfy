/** The serializer of the problem document, appending to its output. */
module ProblemMethods {
  import opened Bytes
  import opened Decimal
  import opened JsonString
  import opened JsonTypes
  import opened JsonText
  import opened JsonRoundTrip
  import opened JsonOmit
  import opened JsonWriteMethods
  import opened Problem

  // --- What each step adds ----------------------------------------------------------------

  function Lead(first: bool): seq<Byte> {
    if first then [] else [COMMA]
  }

  /** The text of field `k` of the document, nothing when it is absent. */
  function FieldText(p: Detail, k: nat): seq<Byte>
    requires k < 7
  {
    var field, v := PROBLEM_FIELDS[k], ProblemVals(p)[k];
    FieldIsTyped(p, k);
    if v.NoneVal? then [] else Lead(k == 0) + WriteField(SCHEMA, field, v)
  }

  /** The fields from `k` on. */
  function FieldsText(p: Detail, k: nat): seq<Byte>
    requires k <= 7
  {
    ProblemIsSound(p);
    FieldsFrom(SCHEMA, PROBLEM_FIELDS, ProblemVals(p), k);
    KeptText(SCHEMA, PROBLEM_FIELDS[k..], ProblemVals(p)[k..], k == 0)
  }

  lemma FieldIsTyped(p: Detail, k: nat)
    requires k < 7
    ensures HasType(SCHEMA, PROBLEM_FIELDS[k].ty, ProblemVals(p)[k])
  {
    hide HasType;
    ProblemIsSound(p);
    FieldsFrom(SCHEMA, PROBLEM_FIELDS, ProblemVals(p), k);
    assert PROBLEM_FIELDS[k..][0] == PROBLEM_FIELDS[k] && ProblemVals(p)[k..][0] == ProblemVals(p)[k];
  }

  lemma FieldsTextStep(p: Detail, k: nat)
    requires k < 7
    ensures FieldsText(p, k) == FieldText(p, k) + FieldsText(p, k + 1)
  {
    hide WriteField, HasType, FieldsWritable, FieldsStable, ProblemVals;
    var f, v := PROBLEM_FIELDS, ProblemVals(p);
    assert |v| == 7 by {
      SevenFields(p);
    }
    ProblemIsSound(p);
    FieldIsTyped(p, k);
    FieldsFrom(SCHEMA, f, v, k);
    FieldsFrom(SCHEMA, f, v, k + 1);
    assert f[k..][1..] == f[k + 1..] && v[k..][1..] == v[k + 1..] && f[k..][0] == f[k] && v[k..][0] == v[k];
    FirstIsKept(p);
    EmptyLeft(FieldsText(p, k + 1));
  }

  lemma SevenFields(p: Detail)
    ensures |ProblemVals(p)| == 7
  {
  }

  lemma FirstIsKept(p: Detail)
    ensures !ProblemVals(p)[0].NoneVal?
  {
  }

  lemma FieldsTextEnd(p: Detail)
    ensures FieldsText(p, 7) == []
  {
    hide ProblemVals, FieldsSound;
    SevenFields(p);
  }

  lemma WholeText(p: Detail)
    ensures ProblemText(p) == [OPEN_BRACE] + FieldsText(p, 0) + [CLOSE_BRACE]
  {
    hide ProblemVals, FieldsSound, KeptText;
    SevenFields(p);
    assert PROBLEM_FIELDS[0..] == PROBLEM_FIELDS && ProblemVals(p)[0..] == ProblemVals(p);
    Assoc([OPEN_BRACE], FieldsText(p, 0), [CLOSE_BRACE]);
  }

  /** Moving one field from what is still to come to what has been appended. */
  lemma Appended(p: Detail, k: nat, text: seq<Byte>)
    requires k < 7
    ensures text + FieldText(p, k) + FieldsText(p, k + 1) == text + FieldsText(p, k)
  {
    hide FieldText, FieldsText;
    FieldsTextStep(p, k);
    Assoc(text, FieldText(p, k), FieldsText(p, k + 1));
  }

  lemma TextFieldText(p: Detail, k: nat, name: seq<Byte>, value: seq<Byte>)
    requires k < 7 && PROBLEM_FIELDS[k] == Plain(name, StringTy) && ProblemVals(p)[k] == StringVal(value)
    ensures FieldText(p, k) == Lead(k == 0) + (EscapedString(name) + ([COLON] + EscapedString(value)))
  {
    hide EscapedString;
    assert WriteText(SCHEMA, StringTy, StringVal(value)) == EscapedString(value);
  }

  lemma OptionalFieldText(p: Detail, k: nat, name: seq<Byte>, value: seq<Byte>)
    requires 0 < k < 7 && PROBLEM_FIELDS[k] == Plain(name, TEXT_TY) && ProblemVals(p)[k] == OptionalText(value)
    ensures FieldText(p, k)
         == if value == [] then [] else Lead(false) + (EscapedString(name) + ([COLON] + EscapedString(value)))
  {
    hide EscapedString;
    assert WriteText(SCHEMA, StringTy, StringVal(value)) == EscapedString(value);
    assert value != [] ==> WriteText(SCHEMA, TEXT_TY, SomeVal(StringVal(value))) == EscapedString(value);
  }

  lemma StatusFieldText(p: Detail)
    ensures FieldText(p, 2) == [COMMA] + (EscapedString(STATUS) + ([COLON] + ToChars(p.status)))
  {
    hide EscapedString, ToChars;
    assert WriteText(SCHEMA, IntTy(0, 0xFFFF), IntVal(p.status)) == ToChars(p.status);
  }

  lemma ErrorsFieldText(p: Detail)
    ensures HaveType(SCHEMA, ERROR_TY, ErrorVals(p.errors))
    ensures FieldText(p, 5)
         == if p.errors == [] then []
            else
              [COMMA]
              + (EscapedString(ERRORS)
                 + ([COLON]
                    + ([OPEN_BRACKET] + (WriteItems(SCHEMA, ERROR_TY, ErrorVals(p.errors)) + [CLOSE_BRACKET]))))
  {
    hide EscapedString, WriteItems, HaveType, ErrorVals;
    ErrorsAreSound(p.errors);
    var v := ListVal(ErrorVals(p.errors));
    if p.errors != [] {
      assert HasType(SCHEMA, VectorTy(ERROR_TY), v);
      assert WriteText(SCHEMA, OptionalTy(VectorTy(ERROR_TY)), SomeVal(v)) == WriteText(SCHEMA, VectorTy(ERROR_TY), v);
    }
  }

  // --- The steps --------------------------------------------------------------------------

  /** One text member, behind a comma unless it is the first. */
  method AppendMember(output: Output, name: seq<Byte>, value: seq<Byte>, first: bool)
    modifies output
    ensures output.text
         == old(output.text) + (Lead(first) + (EscapedString(name) + ([COLON] + EscapedString(value))))
  {
    hide EscapedString;
    ghost var before := output.text;
    assert before + [] == before;
    if !first {
      output.PushBack(COMMA);
    }
    output.AppendEscapedString(name);
    output.PushBack(COLON);
    output.AppendEscapedString(value);
    FieldPrinted(before + Lead(first), EscapedString(name), EscapedString(value));
    Assoc(before, Lead(first), EscapedString(name) + ([COLON] + EscapedString(value)));
  }

  method SerializeProblem(problem: Detail) returns (text: seq<Byte>)
    ensures text == ProblemText(problem)
  {
    hide ProblemText, FieldText, FieldsText;
    var output := new Output();
    output.PushBack(OPEN_BRACE);
    EmptyLeft([OPEN_BRACE]);
    AppendTexts(output, problem);
    Appended(problem, 2, output.text);
    AppendStatus(output, problem);
    Appended(problem, 3, output.text);
    AppendOptional(output, problem, 3, DETAIL, problem.detail);
    Appended(problem, 4, output.text);
    AppendOptional(output, problem, 4, INSTANCE, problem.instance);
    Appended(problem, 5, output.text);
    AppendErrors(output, problem);
    Appended(problem, 6, output.text);
    AppendOptional(output, problem, 6, REQUEST_ID, problem.requestId);
    FieldsTextEnd(problem);
    assert output.text + [] == output.text;
    output.PushBack(CLOSE_BRACE);
    WholeText(problem);
    return output.text;
  }

  method AppendTexts(output: Output, problem: Detail)
    modifies output
    ensures output.text + FieldsText(problem, 2) == old(output.text) + FieldsText(problem, 0)
  {
    hide FieldText, FieldsText, EscapedString, Lead;
    Appended(problem, 0, output.text);
    TextFieldText(problem, 0, TYPE, problem.kind);
    AppendMember(output, TYPE, problem.kind, true);
    TextFieldText(problem, 1, TITLE, problem.title);
    Appended(problem, 1, output.text);
    AppendMember(output, TITLE, problem.title, false);
  }

  method AppendOptional(output: Output, problem: Detail, ghost k: nat, name: seq<Byte>, value: seq<Byte>)
    requires k < 7 && PROBLEM_FIELDS[k] == Plain(name, TEXT_TY) && ProblemVals(problem)[k] == OptionalText(value)
    requires k > 0
    modifies output
    ensures output.text == old(output.text) + FieldText(problem, k)
  {
    hide FieldText, EscapedString, Lead;
    OptionalFieldText(problem, k, name, value);
    if value != [] {
      AppendMember(output, name, value, false);
    } else {
      assert output.text + [] == output.text;
    }
  }

  method AppendStatus(output: Output, problem: Detail)
    modifies output
    ensures output.text == old(output.text) + FieldText(problem, 2)
  {
    hide FieldText, EscapedString, ToChars;
    ghost var before := output.text;
    StatusFieldText(problem);
    output.Append([COMMA, QUOTE] + STATUS + [QUOTE, COLON]);
    var number := ConvertToChars(problem.status);
    output.Append(number);
    PlainString(STATUS);
    StatusText(before, ToChars(problem.status));
  }

  lemma StatusText(before: seq<Byte>, digits: seq<Byte>)
    ensures before + ([COMMA, QUOTE] + STATUS + [QUOTE, COLON]) + digits
         == before + ([COMMA] + ([QUOTE] + STATUS + [QUOTE] + ([COLON] + digits)))
  {
  }

  lemma PlainString(name: seq<Byte>)
    requires forall k | 0 <= k < |name| :: name[k] >= 0x20 && name[k] != QUOTE && name[k] != BACKSLASH
    ensures EscapedString(name) == [QUOTE] + name + [QUOTE]
  {
    PlainBody(name);
  }

  lemma {:induction false} PlainBody(name: seq<Byte>)
    requires forall k | 0 <= k < |name| :: name[k] >= 0x20 && name[k] != QUOTE && name[k] != BACKSLASH
    ensures EscapedBody(name) == name
  {
    if name != [] {
      PlainBody(name[1..]);
      assert Escaped(name[0]) == [name[0]];
      assert [name[0]] + name[1..] == name;
    }
  }

  // --- Errors -----------------------------------------------------------------------------

  method AppendErrors(output: Output, problem: Detail)
    modifies output
    ensures output.text == old(output.text) + FieldText(problem, 5)
  {
    hide FieldText, EscapedString, WriteItems, ErrorVals, ItemsText;
    ghost var before := output.text;
    ErrorsFieldText(problem);
    if problem.errors == [] {
      assert before + [] == before;
      return;
    }
    output.Append([COMMA, QUOTE] + ERRORS + [QUOTE, COLON, OPEN_BRACKET]);
    AppendErrorList(output, problem.errors);
    output.PushBack(CLOSE_BRACKET);
    AllItems(problem.errors);
    PlainString(ERRORS);
    ErrorsText(before, WriteItems(SCHEMA, ERROR_TY, ErrorVals(problem.errors)));
  }

  lemma ErrorsText(before: seq<Byte>, items: seq<Byte>)
    ensures before + ([COMMA, QUOTE] + ERRORS + [QUOTE, COLON, OPEN_BRACKET]) + items + [CLOSE_BRACKET]
         == before
            + ([COMMA]
               + ([QUOTE] + ERRORS + [QUOTE] + ([COLON] + ([OPEN_BRACKET] + (items + [CLOSE_BRACKET])))))
  {
  }

  function ItemsText(errors: seq<ValidationError>, k: nat): seq<Byte>
    requires k <= |errors|
  {
    ErrorsAreSound(errors[k..]);
    WriteItems(SCHEMA, ERROR_TY, ErrorVals(errors[k..]))
  }

  lemma AllItems(errors: seq<ValidationError>)
    ensures HaveType(SCHEMA, ERROR_TY, ErrorVals(errors))
    ensures ItemsText(errors, 0) == WriteItems(SCHEMA, ERROR_TY, ErrorVals(errors))
  {
    hide WriteItems, HaveType, ErrorVals;
    assert errors[0..] == errors;
    ErrorsAreSound(errors);
  }

  function ErrorText(e: ValidationError): seq<Byte> {
    ErrorIsSound(e);
    WriteText(SCHEMA, ERROR_TY, ErrorVal(e))
  }

  lemma ItemsTextStep(errors: seq<ValidationError>, k: nat)
    requires k < |errors|
    ensures ItemsText(errors, k) == ErrorText(errors[k]) + Pending(false, k + 1 < |errors|, ItemsText(errors, k + 1))
  {
    hide WriteText, ErrorVal, HasType;
    ErrorsAreSound(errors[k..]);
    var vs := ErrorVals(errors[k..]);
    assert vs[1..] == ErrorVals(errors[k + 1..]);
    ItemsStep(SCHEMA, ERROR_TY, vs);
  }

  method AppendErrorList(output: Output, errors: seq<ValidationError>)
    modifies output
    ensures output.text == old(output.text) + ItemsText(errors, 0)
  {
    hide ItemsText, ErrorText, Pending;
    var firstError := true;
    FirstPending(output.text, errors != [], ItemsText(errors, 0));
    for index := 0 to |errors|
      invariant firstError == (index == 0)
      invariant output.text + Pending(firstError, index < |errors|, ItemsText(errors, index))
             == old(output.text) + ItemsText(errors, 0)
    {
      ItemsTextStep(errors, index);
      Moved(firstError, index + 1 < |errors|, output.text, ErrorText(errors[index]), ItemsText(errors, index + 1));
      if !firstError {
        output.PushBack(COMMA);
      }
      firstError := false;
      AppendError(output, errors[index]);
    }
    NoMoreItems(errors, firstError, output.text);
  }

  lemma NoMoreItems(errors: seq<ValidationError>, first: bool, text: seq<Byte>)
    ensures text + Pending(first, false, ItemsText(errors, |errors|)) == text
  {
    assert errors[|errors|..] == [];
  }

  method AppendError(output: Output, error: ValidationError)
    modifies output
    ensures output.text == old(output.text) + ErrorText(error)
  {
    hide EscapedString, ErrorText, LocationsText;
    ghost var before := output.text;
    output.Append([OPEN_BRACE, QUOTE] + LOCATION + [QUOTE, COLON, OPEN_BRACKET]);
    AppendLocations(output, error.location);
    output.Append([CLOSE_BRACKET, COMMA, QUOTE] + CODE + [QUOTE, COLON]);
    output.AppendEscapedString(error.code);
    output.Append([COMMA, QUOTE] + MESSAGE + [QUOTE, COLON]);
    output.AppendEscapedString(error.message);
    output.PushBack(CLOSE_BRACE);
    ErrorTextIs(error);
    ErrorParts(before, LocationsText(error.location, 0), EscapedString(error.code), EscapedString(error.message));
  }

  /** The names and brackets of an error, around its texts. */
  function ErrorFrame(locations: seq<Byte>, code: seq<Byte>, message: seq<Byte>): seq<Byte> {
    [OPEN_BRACE]
    + ((([QUOTE] + LOCATION + [QUOTE]) + ([COLON] + ([OPEN_BRACKET] + (locations + [CLOSE_BRACKET]))))
       + ([COMMA]
          + ((([QUOTE] + CODE + [QUOTE]) + ([COLON] + code))
             + ([COMMA] + (([QUOTE] + MESSAGE + [QUOTE]) + ([COLON] + message)))))
       + [CLOSE_BRACE])
  }

  lemma ErrorParts(before: seq<Byte>, locations: seq<Byte>, code: seq<Byte>, message: seq<Byte>)
    ensures before + ([OPEN_BRACE, QUOTE] + LOCATION + [QUOTE, COLON, OPEN_BRACKET]) + locations
            + ([CLOSE_BRACKET, COMMA, QUOTE] + CODE + [QUOTE, COLON]) + code
            + ([COMMA, QUOTE] + MESSAGE + [QUOTE, COLON]) + message + [CLOSE_BRACE]
         == before + ErrorFrame(locations, code, message)
  {
  }

  lemma ErrorTextIs(e: ValidationError)
    ensures ErrorText(e)
         == ErrorFrame(LocationsText(e.location, 0), EscapedString(e.code), EscapedString(e.message))
  {
    hide EscapedString, WriteItems, WriteFields;
    ErrorIsSound(e);
    ErrorFieldsText(e);
    ErrorFieldTexts(e);
    PlainString(LOCATION);
    PlainString(CODE);
    PlainString(MESSAGE);
    assert WriteText(SCHEMA, ERROR_TY, ErrorVal(e))
        == [OPEN_BRACE] + (WriteFields(SCHEMA, ERROR_FIELDS, ErrorVal(e).fields) + [CLOSE_BRACE]);
  }

  /** The three fields of an error, with commas between them. */
  lemma ErrorFieldsText(e: ValidationError)
    ensures FieldsSound(ERROR_FIELDS, ErrorVal(e).fields)
    ensures var f, v := ERROR_FIELDS, ErrorVal(e).fields;
            && HasType(SCHEMA, f[0].ty, v[0]) && HasType(SCHEMA, f[1].ty, v[1]) && HasType(SCHEMA, f[2].ty, v[2])
            && WriteFields(SCHEMA, f, v)
               == WriteField(SCHEMA, f[0], v[0])
                  + ([COMMA] + (WriteField(SCHEMA, f[1], v[1]) + ([COMMA] + WriteField(SCHEMA, f[2], v[2]))))
  {
    hide WriteField;
    var f, v := ERROR_FIELDS, ErrorVal(e).fields;
    ErrorIsSound(e);
    FieldsFrom(SCHEMA, f, v, 1);
    FieldsFrom(SCHEMA, f, v, 2);
    assert f[1..][1..] == f[2..] && v[1..][1..] == v[2..];
    assert f[1..][0] == f[1] && v[1..][0] == v[1] && f[2..][0] == f[2] && v[2..][0] == v[2];
    assert WriteFields(SCHEMA, f[2..], v[2..]) == WriteField(SCHEMA, f[2], v[2]);
    assert WriteFields(SCHEMA, f[1..], v[1..])
        == WriteField(SCHEMA, f[1], v[1]) + ([COMMA] + WriteField(SCHEMA, f[2], v[2]));
  }

  lemma ErrorFieldTexts(e: ValidationError)
    ensures var f, v := ERROR_FIELDS, ErrorVal(e).fields;
            && HasType(SCHEMA, f[0].ty, v[0]) && HasType(SCHEMA, f[1].ty, v[1]) && HasType(SCHEMA, f[2].ty, v[2])
            && WriteField(SCHEMA, f[0], v[0])
               == EscapedString(LOCATION)
                  + ([COLON] + ([OPEN_BRACKET] + (LocationsText(e.location, 0) + [CLOSE_BRACKET])))
            && WriteField(SCHEMA, f[1], v[1]) == EscapedString(CODE) + ([COLON] + EscapedString(e.code))
            && WriteField(SCHEMA, f[2], v[2]) == EscapedString(MESSAGE) + ([COLON] + EscapedString(e.message))
  {
    hide EscapedString, WriteItems;
    StringsAreTyped(StringVals(e.location));
    assert e.location[0..] == e.location;
  }

  function LocationsText(location: seq<seq<Byte>>, k: nat): seq<Byte>
    requires k <= |location|
  {
    StringsAreTyped(StringVals(location[k..]));
    WriteItems(SCHEMA, StringTy, StringVals(location[k..]))
  }

  lemma LocationsTextStep(location: seq<seq<Byte>>, k: nat)
    requires k < |location|
    ensures LocationsText(location, k)
         == EscapedString(location[k]) + Pending(false, k + 1 < |location|, LocationsText(location, k + 1))
  {
    hide EscapedString;
    StringsAreTyped(StringVals(location[k..]));
    var vs := StringVals(location[k..]);
    assert vs[1..] == StringVals(location[k + 1..]);
    ItemsStep(SCHEMA, StringTy, vs);
  }

  method AppendLocations(output: Output, location: seq<seq<Byte>>)
    modifies output
    ensures output.text == old(output.text) + LocationsText(location, 0)
  {
    hide LocationsText, EscapedString, Pending;
    var firstLocation := true;
    FirstPending(output.text, location != [], LocationsText(location, 0));
    for index := 0 to |location|
      invariant firstLocation == (index == 0)
      invariant output.text + Pending(firstLocation, index < |location|, LocationsText(location, index))
             == old(output.text) + LocationsText(location, 0)
    {
      LocationsTextStep(location, index);
      Moved(firstLocation, index + 1 < |location|, output.text, EscapedString(location[index]),
            LocationsText(location, index + 1));
      if !firstLocation {
        output.PushBack(COMMA);
      }
      firstLocation := false;
      output.AppendEscapedString(location[index]);
    }
    NoMoreLocations(location, firstLocation, output.text);
  }

  lemma NoMoreLocations(location: seq<seq<Byte>>, first: bool, text: seq<Byte>)
    ensures text + Pending(first, false, LocationsText(location, |location|)) == text
  {
    assert location[|location|..] == [];
  }
}
