/** The problem document (RFC 9457) that errors are answered with. */
module Problem {
  import opened Bytes
  import opened JsonTree
  import opened JsonTypes
  import opened JsonReader
  import opened JsonAgreement
  import opened JsonText
  import opened JsonRoundTrip
  import opened JsonOmit

  datatype ValidationError = ValidationError(location: seq<seq<Byte>>, code: seq<Byte>, message: seq<Byte>)

  /** A status code, which the source keeps in 16 bits. */
  type Status = s: int | 0 <= s < 0x1_0000

  datatype Detail = Detail(
    kind: seq<Byte>, title: seq<Byte>, status: Status, detail: seq<Byte>, instance: seq<Byte>,
    errors: seq<ValidationError>, requestId: seq<Byte>)

  const TYPE: seq<Byte> := ['t' as int, 'y' as int, 'p' as int, 'e' as int]
  const TITLE: seq<Byte> := ['t' as int, 'i' as int, 't' as int, 'l' as int, 'e' as int]
  const STATUS: seq<Byte> := ['s' as int, 't' as int, 'a' as int, 't' as int, 'u' as int, 's' as int]
  const DETAIL: seq<Byte> := ['d' as int, 'e' as int, 't' as int, 'a' as int, 'i' as int, 'l' as int]
  const INSTANCE: seq<Byte> :=
    ['i' as int, 'n' as int, 's' as int, 't' as int, 'a' as int, 'n' as int, 'c' as int, 'e' as int]
  const ERRORS: seq<Byte> := ['e' as int, 'r' as int, 'r' as int, 'o' as int, 'r' as int, 's' as int]
  const REQUEST_ID: seq<Byte> :=
    ['r' as int, 'e' as int, 'q' as int, 'u' as int, 'e' as int, 's' as int, 't' as int, '_' as int, 'i' as int,
     'd' as int]
  const LOCATION: seq<Byte> :=
    ['l' as int, 'o' as int, 'c' as int, 'a' as int, 't' as int, 'i' as int, 'o' as int, 'n' as int]
  const CODE: seq<Byte> := ['c' as int, 'o' as int, 'd' as int, 'e' as int]
  const MESSAGE: seq<Byte> := ['m' as int, 'e' as int, 's' as int, 's' as int, 'a' as int, 'g' as int, 'e' as int]

  // --- The document as a typed value ------------------------------------------------------

  const ERROR_TY := ObjectTy("ValidationError")
  const PROBLEM_TY := ObjectTy("Problem")
  const TEXT_TY := OptionalTy(StringTy)

  function Plain(wire: seq<Byte>, ty: Ty): Field {
    Field(wire, ty, None, [])
  }

  const ERROR_FIELDS := [Plain(LOCATION, VectorTy(StringTy)), Plain(CODE, StringTy), Plain(MESSAGE, StringTy)]

  const PROBLEM_FIELDS :=
    [Plain(TYPE, StringTy), Plain(TITLE, StringTy), Plain(STATUS, IntTy(0, 0xFFFF)), Plain(DETAIL, TEXT_TY),
     Plain(INSTANCE, TEXT_TY), Plain(ERRORS, OptionalTy(VectorTy(ERROR_TY))), Plain(REQUEST_ID, TEXT_TY)]

  /** A reader's types for the document, the optional members of RFC 9457 being optional fields. */
  const SCHEMA: Schema := map["ValidationError" := ERROR_FIELDS, "Problem" := PROBLEM_FIELDS]

  function StringVals(texts: seq<seq<Byte>>): (vs: seq<Val>)
    ensures |vs| == |texts| && forall k | 0 <= k < |vs| :: vs[k] == StringVal(texts[k])
  {
    seq(|texts|, k requires 0 <= k < |texts| => StringVal(texts[k]))
  }

  function ErrorVal(e: ValidationError): Val {
    ObjectVal([ListVal(StringVals(e.location)), StringVal(e.code), StringVal(e.message)])
  }

  function ErrorVals(errors: seq<ValidationError>): (vs: seq<Val>)
    ensures |vs| == |errors| && forall k | 0 <= k < |vs| :: vs[k] == ErrorVal(errors[k])
  {
    seq(|errors|, k requires 0 <= k < |errors| => ErrorVal(errors[k]))
  }

  function OptionalText(text: seq<Byte>): Val {
    if text == [] then NoneVal else SomeVal(StringVal(text))
  }

  function ErrorsVal(errors: seq<ValidationError>): Val {
    if errors == [] then NoneVal else SomeVal(ListVal(ErrorVals(errors)))
  }

  /** The fields of the document; an empty text or list stands for an absent member. */
  function ProblemVals(p: Detail): seq<Val> {
    [StringVal(p.kind), StringVal(p.title), IntVal(p.status), OptionalText(p.detail), OptionalText(p.instance),
     ErrorsVal(p.errors), OptionalText(p.requestId)]
  }

  // --- Decoding ---------------------------------------------------------------------------

  function TextOf(v: Val): seq<Byte> {
    match v
    case StringVal(b) => b
    case SomeVal(inner) => if inner.StringVal? then inner.bytes else []
    case _ => []
  }

  function TextsOf(vs: seq<Val>): (texts: seq<seq<Byte>>)
    ensures |texts| == |vs| && forall k | 0 <= k < |vs| :: texts[k] == TextOf(vs[k])
  {
    seq(|vs|, k requires 0 <= k < |vs| => TextOf(vs[k]))
  }

  function ErrorOf(v: Val): ValidationError {
    if v.ObjectVal? && |v.fields| == 3 && v.fields[0].ListVal? then
      ValidationError(TextsOf(v.fields[0].items), TextOf(v.fields[1]), TextOf(v.fields[2]))
    else ValidationError([], [], [])
  }

  function ErrorsOf(v: Val): (errors: seq<ValidationError>)
    ensures v.SomeVal? && v.inner.ListVal? ==> |errors| == |v.inner.items|
    ensures v.SomeVal? && v.inner.ListVal? ==>
              forall k | 0 <= k < |errors| :: errors[k] == ErrorOf(v.inner.items[k])
  {
    if v.SomeVal? && v.inner.ListVal? then
      seq(|v.inner.items|, k requires 0 <= k < |v.inner.items| => ErrorOf(v.inner.items[k]))
    else []
  }

  /** What a client makes of the fields of the document. */
  function DetailOf(vs: seq<Val>): Option<Detail> {
    if |vs| == 7 && vs[2].IntVal? && 0 <= vs[2].number < 0x1_0000 then
      Some(Detail(TextOf(vs[0]), TextOf(vs[1]), vs[2].number, TextOf(vs[3]), TextOf(vs[4]), ErrorsOf(vs[5]),
                  TextOf(vs[6])))
    else None
  }

  lemma ErrorComesBack(e: ValidationError)
    ensures ErrorOf(ErrorVal(e)) == e
  {
    assert TextsOf(StringVals(e.location)) == e.location;
  }

  lemma ErrorsComeBack(errors: seq<ValidationError>)
    ensures ErrorsOf(ErrorsVal(errors)) == errors
  {
    hide ErrorOf, ErrorVal;
    var back := ErrorsOf(ErrorsVal(errors));
    forall k | 0 <= k < |errors| ensures errors != [] && back[k] == errors[k] {
      ErrorComesBack(errors[k]);
    }
    assert |back| == |errors|;
  }

  lemma DetailComesBack(p: Detail)
    ensures DetailOf(ProblemVals(p)) == Some(p)
  {
    hide ErrorsOf, ErrorsVal;
    ErrorsComeBack(p.errors);
  }

  // --- Types and texts --------------------------------------------------------------------

  lemma {:induction false} StringsAreTyped(vs: seq<Val>)
    requires forall k | 0 <= k < |vs| :: vs[k].StringVal?
    ensures HaveType(SCHEMA, StringTy, vs) && AllWritable(SCHEMA, StringTy, vs) && AllStable(SCHEMA, StringTy, vs)
  {
    if vs != [] {
      StringsAreTyped(vs[1..]);
    }
  }

  /** A value that the serializer prints and the reader takes back. */
  predicate Sound(ty: Ty, v: Val) {
    HasType(SCHEMA, ty, v) && Writable(SCHEMA, ty, v) && Stable(SCHEMA, ty, v)
  }

  predicate FieldsSound(fields: seq<Field>, vs: seq<Val>) {
    FieldsHaveTypes(SCHEMA, fields, vs) && FieldsWritable(SCHEMA, fields, vs) && FieldsStable(SCHEMA, fields, vs)
  }

  lemma FieldsSoundCons(field: Field, fields: seq<Field>, v: Val, vs: seq<Val>)
    requires Sound(field.ty, v) && field.constraints == [] && FieldsSound(fields, vs)
    ensures FieldsSound([field] + fields, [v] + vs)
  {
    hide HasType, Writable, Stable;
    Cons(field, fields);
    Cons(v, vs);
  }

  lemma StringsAreSound(ty: Ty, vs: seq<Val>)
    requires ty == VectorTy(StringTy) && forall k | 0 <= k < |vs| :: vs[k].StringVal?
    ensures Sound(ty, ListVal(vs))
  {
    StringsAreTyped(vs);
  }

  lemma TextIsSound(text: seq<Byte>)
    ensures Sound(StringTy, StringVal(text)) && Sound(TEXT_TY, OptionalText(text))
  {
  }

  lemma ObjectIsSound(name: string, vs: seq<Val>)
    requires FieldsSound(FieldsOf(SCHEMA, name), vs)
    ensures Sound(ObjectTy(name), ObjectVal(vs))
  {
    hide FieldsHaveTypes, FieldsWritable, FieldsStable;
  }

  lemma SoundBefore(fields: seq<Field>, vs: seq<Val>, k: nat)
    requires k < |fields| == |vs| && FieldsSound(fields[k + 1..], vs[k + 1..])
    requires Sound(fields[k].ty, vs[k]) && fields[k].constraints == []
    ensures FieldsSound(fields[k..], vs[k..])
  {
    hide Sound, FieldsSound;
    FieldsSoundCons(fields[k], fields[k + 1..], vs[k], vs[k + 1..]);
    assert [fields[k]] + fields[k + 1..] == fields[k..] && [vs[k]] + vs[k + 1..] == vs[k..];
  }

  lemma ErrorIsSound(e: ValidationError)
    ensures FieldsSound(ERROR_FIELDS, ErrorVal(e).fields) && Sound(ERROR_TY, ErrorVal(e))
  {
    hide Sound, FieldsSound;
    var f, v := ERROR_FIELDS, ErrorVal(e).fields;
    StringsAreSound(f[0].ty, StringVals(e.location));
    TextIsSound(e.code);
    TextIsSound(e.message);
    NoFields();
    assert f[3..] == [] && v[3..] == [];
    SoundBefore(f, v, 2);
    SoundBefore(f, v, 1);
    SoundBefore(f, v, 0);
    assert f[0..] == f && v[0..] == v;
    ObjectIsSound("ValidationError", v);
  }

  lemma NoFields()
    ensures FieldsSound([], [])
  {
  }

  lemma {:induction false} ListIsSound(vs: seq<Val>)
    requires forall k | 0 <= k < |vs| :: Sound(ERROR_TY, vs[k])
    ensures HaveType(SCHEMA, ERROR_TY, vs) && AllWritable(SCHEMA, ERROR_TY, vs) && AllStable(SCHEMA, ERROR_TY, vs)
  {
    hide HasType, Writable, Stable;
    if vs != [] {
      assert Sound(ERROR_TY, vs[0]);
      ListIsSound(vs[1..]);
    }
  }

  lemma ErrorsAreSound(errors: seq<ValidationError>)
    ensures HaveType(SCHEMA, ERROR_TY, ErrorVals(errors)) && AllWritable(SCHEMA, ERROR_TY, ErrorVals(errors))
    ensures Sound(OptionalTy(VectorTy(ERROR_TY)), ErrorsVal(errors))
  {
    forall k | 0 <= k < |errors| ensures Sound(ERROR_TY, ErrorVals(errors)[k]) {
      ErrorIsSound(errors[k]);
    }
    hide Sound;
    ListIsSound(ErrorVals(errors));
    SoundList(ErrorVals(errors));
    NoneIsSound(VectorTy(ERROR_TY));
  }

  lemma SoundList(vs: seq<Val>)
    requires HaveType(SCHEMA, ERROR_TY, vs) && AllWritable(SCHEMA, ERROR_TY, vs) && AllStable(SCHEMA, ERROR_TY, vs)
    ensures Sound(OptionalTy(VectorTy(ERROR_TY)), SomeVal(ListVal(vs)))
  {
  }

  lemma NoneIsSound(of: Ty)
    ensures Sound(OptionalTy(of), NoneVal)
  {
  }

  lemma StatusIsSound(status: Status)
    ensures Sound(IntTy(0, 0xFFFF), IntVal(status))
  {
  }

  lemma ProblemFieldIsSound(p: Detail, k: nat)
    requires k < 7
    ensures |PROBLEM_FIELDS| == |ProblemVals(p)| == 7
    ensures Sound(PROBLEM_FIELDS[k].ty, ProblemVals(p)[k]) && PROBLEM_FIELDS[k].constraints == []
  {
    hide Sound;
    match k
    case 0 => TextIsSound(p.kind);
    case 1 => TextIsSound(p.title);
    case 2 => StatusIsSound(p.status);
    case 3 => TextIsSound(p.detail);
    case 4 => TextIsSound(p.instance);
    case 5 => ErrorsAreSound(p.errors);
    case _ => TextIsSound(p.requestId);
  }

  lemma {:induction false} ProblemSoundFrom(p: Detail, k: nat)
    requires k <= 7
    ensures |PROBLEM_FIELDS| == |ProblemVals(p)| == 7
    ensures FieldsSound(PROBLEM_FIELDS[k..], ProblemVals(p)[k..])
    decreases 7 - k
  {
    hide Sound, FieldsSound;
    if k == 7 {
      NoFields();
      assert PROBLEM_FIELDS[7..] == [] && ProblemVals(p)[7..] == [];
    } else {
      ProblemFieldIsSound(p, k);
      ProblemSoundFrom(p, k + 1);
      SoundBefore(PROBLEM_FIELDS, ProblemVals(p), k);
    }
  }

  lemma ProblemIsSound(p: Detail)
    ensures FieldsSound(PROBLEM_FIELDS, ProblemVals(p))
  {
    hide FieldsSound;
    ProblemSoundFrom(p, 0);
    assert PROBLEM_FIELDS[0..] == PROBLEM_FIELDS && ProblemVals(p)[0..] == ProblemVals(p);
  }

  // --- The text ---------------------------------------------------------------------------

  function ProblemText(p: Detail): seq<Byte> {
    ProblemIsSound(p);
    [OPEN_BRACE] + (KeptText(SCHEMA, PROBLEM_FIELDS, ProblemVals(p), true) + [CLOSE_BRACE])
  }

  /** The document within the limits of a reader: its texts are UTF-8, and nothing is too long or too deep. */
  predicate ProblemFits(limits: Limits, p: Detail) {
    ProblemIsSound(p);
    && 0 < limits.depth
    && |KeptMembers(SCHEMA, PROBLEM_FIELDS, ProblemVals(p))| <= limits.objectMembers
    && KeptFit(limits, SCHEMA, PROBLEM_FIELDS, ProblemVals(p), 1)
    && |ProblemText(p)| <= limits.inputBytes
  }

  lemma SchemaIsOk()
    ensures SchemaOk(SCHEMA)
  {
    assert FieldsOk(ERROR_FIELDS) by {
      assert LOCATION != CODE && LOCATION != MESSAGE && CODE != MESSAGE by {
        assert |LOCATION| == 8 && |CODE| == 4 && |MESSAGE| == 7;
      }
    }
    ProblemNames();
  }

  lemma ProblemNames()
    ensures FieldsOk(PROBLEM_FIELDS)
  {
    var f := PROBLEM_FIELDS;
    assert |f[0].wire| == 4 && |f[1].wire| == 5 && |f[4].wire| == 8 && |f[6].wire| == 10;
    assert |f[2].wire| == |f[3].wire| == |f[5].wire| == 6;
    assert f[2].wire[0] == 's' as int && f[3].wire[0] == 'd' as int && f[5].wire[0] == 'e' as int;
  }

  lemma AbsentIsOptional(p: Detail)
    ensures forall k | 0 <= k < |ProblemVals(p)| && ProblemVals(p)[k].NoneVal? :: PROBLEM_FIELDS[k].ty.OptionalTy?
  {
  }

  lemma ProblemTree(limits: Limits, p: Detail) returns (e: Element)
    requires ProblemFits(limits, p)
    ensures ElementOk(limits, e, 0) && ElementText(e) == ProblemText(p)
    ensures Interp(SCHEMA, limits.rejectUnknown, PROBLEM_TY, e.value) == Some(ObjectVal(ProblemVals(p)))
  {
    hide KeptMembers, KeptText, KeptFit, FieldsHaveTypes, FieldsWritable, FieldsStable, Interp, Text, SchemaOk;
    ProblemIsSound(p);
    SchemaIsOk();
    AbsentIsOptional(p);
    assert FieldsOf(SCHEMA, "Problem") == PROBLEM_FIELDS;
    KeptObjectText(SCHEMA, PROBLEM_FIELDS, ProblemVals(p));
    KeptMembersFit(limits, SCHEMA, PROBLEM_FIELDS, ProblemVals(p), 1);
    KeptObjectMeaning(SCHEMA, limits.rejectUnknown, "Problem", ProblemVals(p));
    var t := ObjectTree([], KeptMembers(SCHEMA, PROBLEM_FIELDS, ProblemVals(p)));
    e := Element([], t, []);
    BareElement(t);
  }

  /** The document is one JSON text, for any number of errors and locations. */
  lemma ProblemIsJson(limits: Limits, p: Detail)
    requires ProblemFits(limits, p)
    ensures SkipAccepts(ProblemText(p), limits)
  {
    hide ProblemText, ElementOk, ElementText, ProblemFits, Interp, SkipAccepts;
    var e := ProblemTree(limits, p);
    JsonTextIsAccepted(ProblemText(p), limits, e);
  }

  /** Reading the document back gives every field: the texts, the status, and the errors with their locations. */
  lemma ProblemReadsBack(limits: Limits, p: Detail)
    requires ProblemFits(limits, p)
    ensures var r := Read(ProblemText(p), limits, SCHEMA, PROBLEM_TY);
            r.Ok? && r.value.ObjectVal? && DetailOf(r.value.fields) == Some(p)
  {
    hide ProblemText, ElementOk, ElementText, Interp, Read, ProblemVals, DetailOf, KeptFit;
    var e := ProblemTree(limits, p);
    TreeIsRead(ProblemText(p), limits, SCHEMA, PROBLEM_TY, e);
    DetailComesBack(p);
  }
}
