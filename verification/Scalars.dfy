/** Binding scalar parameters: from the text a client sends to the value the endpoint is given. */
module Scalars {
  import opened Bytes
  import opened Decimal
  import opened Route
  import opened RouteMatch
  import opened Matcher
  import opened Percent
  import opened Query
  import opened Binding
  import opened JsonTypes
  import opened JsonConstraints

  datatype Failure =
    | BadPercentEncoding | EscapedView | BadBoolean | IntegerOutOfRange | BadInteger | BadEnumerator
    | MissingParameter | RepeatedParameter | ConstraintViolated

  datatype Bound = Given(value: Val) | Refused(failure: Failure)

  const ONE_TEXT: seq<Byte> := ['1' as int]
  const ZERO_TEXT: seq<Byte> := ['0' as int]

  /** The types of scalars; floating point is not part of this model. */
  predicate ScalarTy(ty: Ty) {
    ty.StringTy? || ty.ViewTy? || ty.BoolTy? || ty.IntTy? || ty.EnumTy?
  }

  /** The type inside an optional, or the type itself. */
  function Contained(ty: Ty): Ty {
    if ty.OptionalTy? then ty.of else ty
  }

  /** A parameter is a scalar or an optional scalar. */
  predicate ParameterTy(ty: Ty) {
    ScalarTy(Contained(ty))
  }

  function ParseScalar(ty: Ty, text: seq<Byte>): Bound
    requires ScalarTy(ty)
  {
    match ty
    case StringTy => Given(StringVal(text))
    case ViewTy => Given(StringVal(text))
    case BoolTy =>
      if text == TRUE_TEXT || text == ONE_TEXT then Given(BoolVal(true))
      else if text == FALSE_TEXT || text == ZERO_TEXT then Given(BoolVal(false))
      else Refused(BadBoolean)
    case IntTy(lo, hi) =>
      var parsed := FromChars(text, lo, hi);
      if parsed.status.OutOfRange? then Refused(IntegerOutOfRange)
      else if !parsed.status.Converted? || parsed.used != |text| || text == [] then Refused(BadInteger)
      else Given(IntVal(parsed.value))
    case EnumTy(es) =>
      var value := EnumValue(es, text);
      if value.None? then Refused(BadEnumerator) else Given(EnumVal(value.value))
  }

  /** The raw text, or its absence, as a parameter of this type with this default and these constraints. */
  function BindRaw(ty: Ty, fallback: Option<Val>, constraints: seq<Constraint>, raw: Option<seq<Byte>>, plus: bool)
    : Bound
    requires ParameterTy(ty)
  {
    if raw.None? then
      if ty.OptionalTy? then Given(NoneVal)
      else if fallback.Some? then Given(fallback.value)
      else Refused(MissingParameter)
    else
      var decoded := Decode(raw.value, plus);
      if decoded.None? then Refused(BadPercentEncoding)
      else if Contained(ty).ViewTy? && RequiresDecoding(raw.value, plus) then Refused(EscapedView)
      else
        var parsed := ParseScalar(Contained(ty), decoded.value);
        if parsed.Refused? then parsed
        else if !SatisfiesAll(parsed.value, constraints) then Refused(ConstraintViolated)
        else Given(if ty.OptionalTy? then SomeVal(parsed.value) else parsed.value)
  }

  function BindLookup(ty: Ty, fallback: Option<Val>, constraints: seq<Constraint>, lookup: Lookup): Bound
    requires ParameterTy(ty)
  {
    match lookup
    case Value(raw) => BindRaw(ty, fallback, constraints, raw, true)
    case InvalidEncoding => Refused(BadPercentEncoding)
    case Duplicate => Refused(RepeatedParameter)
  }

  // --- Binding as it runs -----------------------------------------------------------------

  method BindText(ty: Ty, fallback: Option<Val>, constraints: seq<Constraint>, raw: Option<seq<Byte>>, plus: bool)
    returns (r: Bound)
    requires ParameterTy(ty)
    ensures r == BindRaw(ty, fallback, constraints, raw, plus)
  {
    hide ParseScalar, SatisfiesAll, Decode, RequiresDecoding;
    if raw.None? {
      if ty.OptionalTy? {
        return Given(NoneVal);
      }
      return if fallback.Some? then Given(fallback.value) else Refused(MissingParameter);
    }
    var decoded := PercentDecode(raw.value, plus);
    if decoded.None? {
      return Refused(BadPercentEncoding);
    }
    if Contained(ty).ViewTy? && decoded.value.ownsValue {
      return Refused(EscapedView);
    }
    var parsed := ParseScalar(Contained(ty), decoded.value.View());
    if parsed.Refused? {
      return parsed;
    }
    if !SatisfiesAll(parsed.value, constraints) {
      return Refused(ConstraintViolated);
    }
    return Given(if ty.OptionalTy? then SomeVal(parsed.value) else parsed.value);
  }

  method BindPathParameter(
    captures: seq<Capture>, name: seq<Byte>, ty: Ty, fallback: Option<Val>, constraints: seq<Constraint>)
    returns (r: Bound)
    requires ParameterTy(ty)
    ensures r == BindRaw(ty, fallback, constraints, PathValue(captures, name), false)
  {
    var raw := FindPathValue(captures, name);
    r := BindText(ty, fallback, constraints, raw, false);
  }

  method BindQueryParameter(
    query: seq<Byte>, name: seq<Byte>, ty: Ty, fallback: Option<Val>, constraints: seq<Constraint>)
    returns (r: Bound)
    requires ParameterTy(ty)
    ensures r == BindLookup(ty, fallback, constraints, Answer(query, name))
  {
    var raw := FindQueryValue(query, name);
    match raw {
      case Value(text) => r := BindText(ty, fallback, constraints, text, true);
      case InvalidEncoding => r := Refused(BadPercentEncoding);
      case Duplicate => r := Refused(RepeatedParameter);
    }
  }

  // --- What the texts denote --------------------------------------------------------------

  /** A run of decimal digits with this value. */
  predicate Digits(text: seq<Byte>, value: nat) {
    text != [] && AllDigits(text) && DecimalValue(text) == value
  }

  /** A decimal text: digits, behind a minus where the type is signed. */
  predicate DecimalText(text: seq<Byte>, value: int, signed: bool) {
    || (value >= 0 && Digits(text, value))
    || (signed && value <= 0 && text != [] && text[0] == MINUS && Digits(text[1..], -value))
  }

  /** The texts that stand for a value. */
  predicate Denotes(ty: Ty, text: seq<Byte>, v: Val) {
    match ty
    case StringTy => v == StringVal(text)
    case ViewTy => v == StringVal(text)
    case BoolTy =>
      || (v == BoolVal(true) && (text == TRUE_TEXT || text == ONE_TEXT))
      || (v == BoolVal(false) && (text == FALSE_TEXT || text == ZERO_TEXT))
    case IntTy(lo, hi) => v.IntVal? && lo <= v.number <= hi && DecimalText(text, v.number, lo < 0)
    case EnumTy(es) => v.EnumVal? && EnumValue(es, text) == Some(v.constant)
    case _ => false
  }

  lemma DigitsEndAll(text: seq<Byte>, start: nat)
    requires start <= |text|
    ensures DigitsEnd(text, start) == |text| <==> AllDigits(text[start..])
  {
    var e := DigitsEnd(text, start);
    if e < |text| {
      assert text[start..][e - start] == text[e];
    } else {
      assert text[start..e] == text[start..];
    }
  }

  lemma MinusIsNoDigit(text: seq<Byte>)
    requires text != [] && text[0] == MINUS
    ensures !AllDigits(text) && DigitsEnd(text, 0) == 0
  {
    assert !IsDigit(text[0]);
  }

  lemma IntegerDenotes(lo: int, hi: int, text: seq<Byte>, v: int)
    ensures ParseScalar(IntTy(lo, hi), text) == Given(IntVal(v))
            <==> lo <= v <= hi && DecimalText(text, v, lo < 0)
  {
    var negative := lo < 0 && At(text, 0) == MINUS;
    var start := if negative then 1 else 0;
    var end := DigitsEnd(text, start);
    assert text[0..] == text;
    if text != [] && text[0] == MINUS {
      MinusIsNoDigit(text);
    }
    if start <= |text| {
      DigitsEndAll(text, start);
      if end == |text| {
        assert text[start..end] == text[start..];
      }
    }
  }

  /** A scalar is parsed from a text if and only if the text denotes it. */
  lemma ParseScalarIff(ty: Ty, text: seq<Byte>, v: Val)
    requires ScalarTy(ty)
    ensures ParseScalar(ty, text) == Given(v) <==> Denotes(ty, text, v)
  {
    hide DecimalText;
    match ty
    case IntTy(lo, hi) =>
      if v.IntVal? {
        IntegerDenotes(lo, hi, text, v.number);
      }
    case BoolTy => TextsDiffer();
    case _ =>
  }

  /**
   The text starts with a decimal text, not continued by a digit, of a value outside the range. What stands
   behind it does not matter: a conversion reports the range before the rest of the text is looked at.
   */
  ghost predicate StartsOutOfRange(text: seq<Byte>, lo: int, hi: int) {
    exists n: nat, v: int :: RunOf(text, n, v, lo) && !(lo <= v <= hi)
  }

  /** The first `n` bytes are a decimal text of `v`, signed when `lo` is negative, and no digit follows. */
  predicate RunOf(text: seq<Byte>, n: nat, v: int, lo: int) {
    n <= |text| && DecimalText(text[..n], v, lo < 0) && !IsDigit(At(text, n))
  }

  /** Why a text that denotes no value of the type is refused. */
  ghost function Reason(ty: Ty, text: seq<Byte>): Failure
    requires ScalarTy(ty) && !ty.StringTy? && !ty.ViewTy?
  {
    match ty
    case BoolTy => BadBoolean
    case IntTy(lo, hi) => if StartsOutOfRange(text, lo, hi) then IntegerOutOfRange else BadInteger
    case EnumTy(_) => BadEnumerator
  }

  /** A conversion takes the run of digits that the text starts with. */
  lemma ConversionOfRun(text: seq<Byte>, n: nat, v: int, lo: int, hi: int)
    requires RunOf(text, n, v, lo)
    ensures FromChars(text, lo, hi)
         == if lo <= v <= hi then Conversion(Converted, n, v) else Conversion(OutOfRange, n, 0)
  {
    if lo < 0 && At(text, 0) == MINUS {
      MinusIsNoDigit(text);
      assert text[..n][0] == MINUS && !IsDigit(text[..n][0]);
      assert text[..n][1..] == text[1..n];
      DigitsEndIs(text, 1, text[1..n]);
    } else {
      assert text[..n][0] == text[0];
      assert text[0..n] == text[..n];
      DigitsEndIs(text, 0, text[..n]);
    }
  }

  lemma RunOfConversion(text: seq<Byte>, lo: int, hi: int) returns (v: int)
    requires !FromChars(text, lo, hi).status.InvalidArgument?
    ensures RunOf(text, FromChars(text, lo, hi).used, v, lo)
  {
    var negative := lo < 0 && At(text, 0) == MINUS;
    var start := if negative then 1 else 0;
    var end := DigitsEnd(text, start);
    var magnitude := DecimalValue(text[start..end]);
    v := if negative then -(magnitude as int) else magnitude;
    if negative {
      assert text[..end][1..] == text[1..end];
    } else {
      assert text[0..end] == text[..end];
    }
  }

  lemma IntegerRefused(lo: int, hi: int, text: seq<Byte>)
    requires forall v :: !Denotes(IntTy(lo, hi), text, v)
    ensures ParseScalar(IntTy(lo, hi), text) == Refused(Reason(IntTy(lo, hi), text))
  {
    hide Denotes, DecimalText, FromChars, RunOf;
    var r := FromChars(text, lo, hi);
    if r.status.OutOfRange? {
      var v := RunOfConversion(text, lo, hi);
      if lo <= v <= hi {
        ConversionOfRun(text, r.used, v, lo, hi);
      }
      assert StartsOutOfRange(text, lo, hi);
    } else {
      if StartsOutOfRange(text, lo, hi) {
        var n: nat, v: int :| RunOf(text, n, v, lo) && !(lo <= v <= hi);
        ConversionOfRun(text, n, v, lo, hi);
      }
      if r.status.Converted? && r.used == |text| && text != [] {
        assert !Denotes(IntTy(lo, hi), text, IntVal(r.value));
        ParseScalarIff(IntTy(lo, hi), text, IntVal(r.value));
      }
    }
  }

  /** A text that denotes no value of the type is refused, and this is the failure. Every text denotes a string. */
  lemma ParseScalarRefused(ty: Ty, text: seq<Byte>)
    requires ScalarTy(ty) && forall v :: !Denotes(ty, text, v)
    ensures !ty.StringTy? && !ty.ViewTy? && ParseScalar(ty, text) == Refused(Reason(ty, text))
  {
    assert Denotes(StringTy, text, StringVal(text)) && Denotes(ViewTy, text, StringVal(text));
    match ty
    case StringTy => assert false;
    case ViewTy => assert false;
    case BoolTy => assert !Denotes(ty, text, BoolVal(true)) && !Denotes(ty, text, BoolVal(false));
    case IntTy(lo, hi) => IntegerRefused(lo, hi, text);
    case EnumTy(es) =>
      if EnumValue(es, text).Some? {
        assert Denotes(ty, text, EnumVal(EnumValue(es, text).value));
      }
  }

  lemma TextsDiffer()
    ensures TRUE_TEXT != FALSE_TEXT && TRUE_TEXT != ZERO_TEXT && ONE_TEXT != FALSE_TEXT && ONE_TEXT != ZERO_TEXT
  {
    assert |TRUE_TEXT| == 4 && |FALSE_TEXT| == 5 && |ONE_TEXT| == 1 && |ZERO_TEXT| == 1;
    assert ONE_TEXT[0] != ZERO_TEXT[0];
  }

  // --- From the client to the endpoint ----------------------------------------------------

  /** The value of the parameter's type that the text means. */
  function Wrapped(ty: Ty, v: Val): Val {
    if ty.OptionalTy? then SomeVal(v) else v
  }

  /**
   What a parameter becomes when the client sends this text, encoded or as it is: its value, or the failure of a text
   without one. A view takes only what was sent as it is, for it borrows from the request.
   */
  ghost predicate BoundTo(ty: Ty, constraints: seq<Constraint>, text: seq<Byte>, encoded: bool, r: Bound)
    requires ParameterTy(ty)
  {
    if Contained(ty).ViewTy? && encoded then r == Refused(EscapedView)
    else
      && (forall v | Denotes(Contained(ty), text, v) ::
            r == if ObeysAll(v, constraints) then Given(Wrapped(ty, v)) else Refused(ConstraintViolated))
      && ((forall v :: !Denotes(Contained(ty), text, v)) ==>
            !Contained(ty).StringTy? && !Contained(ty).ViewTy? && r == Refused(Reason(Contained(ty), text)))
  }

  /** Something in the encoding is not the byte it stands for. */
  predicate Encoded(us: seq<Unit>) {
    exists k | 0 <= k < |us| :: !us[k].Plain?
  }

  /** An encoding has to be decoded exactly when one of its units is not plain. */
  lemma {:induction false} EncodedNeedsDecoding(us: seq<Unit>, plus: bool)
    requires UnitsOk(us, plus)
    ensures RequiresDecoding(UnitsText(us), plus) <==> Encoded(us)
  {
    if us != [] {
      var text, rest := UnitText(us[0]), UnitsText(us[1..]);
      EncodedNeedsDecoding(us[1..], plus);
      assert RequiresDecoding(text + rest, plus) <==> RequiresDecoding(text, plus) || RequiresDecoding(rest, plus);
      assert RequiresDecoding(text, plus) <==> !us[0].Plain? by {
        assert text[0] in text;
      }
      assert forall k | 1 <= k < |us| :: us[k] == us[1..][k - 1];
      assert Encoded(us) <==> !us[0].Plain? || Encoded(us[1..]);
    }
  }

  lemma BindDecoded(
    ty: Ty, fallback: Option<Val>, constraints: seq<Constraint>, raw: seq<Byte>, plus: bool, text: seq<Byte>)
    requires ParameterTy(ty) && Decode(raw, plus) == Some(text)
    ensures BoundTo(
              ty, constraints, text, RequiresDecoding(raw, plus), BindRaw(ty, fallback, constraints, Some(raw), plus))
  {
    hide Decode, RequiresDecoding, ParseScalar, Denotes, SatisfiesAll, ObeysAll, Reason;
    forall v | Denotes(Contained(ty), text, v)
      ensures ParseScalar(Contained(ty), text) == Given(v)
      ensures SatisfiesAll(v, constraints) <==> ObeysAll(v, constraints)
    {
      ParseScalarIff(Contained(ty), text, v);
      SatisfiesAllIff(v, constraints);
    }
    if forall v :: !Denotes(Contained(ty), text, v) {
      ParseScalarRefused(Contained(ty), text);
    }
  }

  /**
   A path parameter of a checked endpoint is never missing, and is given the value denoted by the text that the
   client percent-encoded into its placeholder, exactly when the value obeys the constraints; a text that denotes
   no value of the type is refused, with the failure of the type.
   */
  lemma PathParameterIsBound(
    segments: seq<Segment>, verb: Method, formals: seq<Formal>, i: nat, values: seq<seq<Byte>>,
    encoded: seq<seq<Unit>>, ty: Ty, fallback: Option<Val>, constraints: seq<Constraint>)
    returns (k: nat)
    requires RouteOk(segments) && BindingValid(segments, verb, formals)
    requires i < |formals| && SourceOf(segments, verb, formals[i]).FromPath?
    requires ValuesOk(segments, values) && |encoded| == |values|
    requires forall j | 0 <= j < |values| :: UnitsOk(encoded[j], false) && values[j] == UnitsText(encoded[j])
    requires ParameterTy(ty)
    ensures k < |values| == |Placeholders(segments)| && Placeholders(segments)[k] == WireName(formals[i])
    ensures Matches(segments, Instance(segments, values))
    ensures var raw := PathValue(MatchPath(segments, Instance(segments, values)).value, WireName(formals[i]));
            var r := BindRaw(ty, fallback, constraints, raw, false);
            && raw == Some(values[k])
            && r != Refused(MissingParameter)
            && BoundTo(ty, constraints, UnitsValue(encoded[k], false), Encoded(encoded[k]), r)
  {
    hide RouteOk, MatchPath, ValuesOk, Decode, UnitsText, UnitsValue, ParseScalar, BoundTo, Encoded, RequiresDecoding;
    k := PathParameterFindsItsValue(segments, verb, formals, i, values);
    ParsedIsNotMissing(ty, fallback, constraints, values[k], false);
    DecodeInvertsEncoding(encoded[k], false);
    EncodedNeedsDecoding(encoded[k], false);
    BindDecoded(ty, fallback, constraints, values[k], false, UnitsValue(encoded[k], false));
  }

  lemma ParsedIsNotMissing(ty: Ty, fallback: Option<Val>, constraints: seq<Constraint>, raw: seq<Byte>, plus: bool)
    requires ParameterTy(ty)
    ensures BindRaw(ty, fallback, constraints, Some(raw), plus) != Refused(MissingParameter)
  {
  }

  /**
   A query parameter is given the value denoted by the text that the client encoded under its name, and is refused
   with the failure of its type when the text denotes none; a repeated name is refused, and one that does not occur
   leaves it empty, defaulted or missing.
   */
  lemma QueryParameterIsBound(
    ps: seq<Pair>, name: seq<Byte>, ty: Ty, fallback: Option<Val>, constraints: seq<Constraint>)
    requires PairsOk(ps) && ParameterTy(ty)
    ensures var r := BindLookup(ty, fallback, constraints, Answer(QueryText(ps), name));
            var us := Named(ps, name);
            if |us| == 0 then
              r == if ty.OptionalTy? then Given(NoneVal)
                   else if fallback.Some? then Given(fallback.value)
                   else Refused(MissingParameter)
            else if |us| > 1 then r == Refused(RepeatedParameter)
            else BoundTo(ty, constraints, UnitsValue(us[0], true), Encoded(us[0]), r)
  {
    hide Decode, ParseScalar, BoundTo, Answer, Scan, PairOk, Encoded, RequiresDecoding;
    QueryRoundTrip(ps, name);
    var r, us := Answer(QueryText(ps), name), Named(ps, name);
    if |us| == 1 {
      assert us[0] in us;
      EncodedNeedsDecoding(us[0], true);
      BindDecoded(ty, fallback, constraints, r.value.value, true, UnitsValue(us[0], true));
    }
  }

  // --- Requests that are not well encoded -------------------------------------------------

  /** A raw text that does not decode is refused as such, whatever its type, default and constraints. */
  lemma MalformedIsRefused(ty: Ty, fallback: Option<Val>, constraints: seq<Constraint>, raw: seq<Byte>, plus: bool)
    requires ParameterTy(ty) && Decode(raw, plus).None?
    ensures BindRaw(ty, fallback, constraints, Some(raw), plus) == Refused(BadPercentEncoding)
  {
  }

  /** A raw text gives a value only if it decodes to a text that denotes the value, which obeys the constraints. */
  lemma GivenIsDenoted(
    ty: Ty, fallback: Option<Val>, constraints: seq<Constraint>, raw: seq<Byte>, plus: bool, v: Val)
    requires ParameterTy(ty) && BindRaw(ty, fallback, constraints, Some(raw), plus) == Given(v)
    ensures Decode(raw, plus).Some? && ObeysAll(v, constraints)
    ensures var w := if ty.OptionalTy? then SomeVal(Innermost(v)) else v;
            v == w && Denotes(Contained(ty), Decode(raw, plus).value, Innermost(v))
  {
    hide Decode, RequiresDecoding, ParseScalar, Denotes, SatisfiesAll, Satisfies;
    var text := Decode(raw, plus).value;
    var parsed := ParseScalar(Contained(ty), text).value;
    ParseScalarIff(Contained(ty), text, parsed);
    ParsedIsFlat(ty, text);
    SatisfiesAllIff(parsed, constraints);
    assert Innermost(v) == parsed;
    forall k | 0 <= k < |constraints| ensures Obeys(v, constraints[k]) {
      assert Obeys(parsed, constraints[k]);
    }
  }

  lemma ParsedIsFlat(ty: Ty, text: seq<Byte>)
    requires ParameterTy(ty) && ParseScalar(Contained(ty), text).Given?
    ensures Innermost(ParseScalar(Contained(ty), text).value) == ParseScalar(Contained(ty), text).value
  {
  }

  /** Before the name at `k`, every name decodes and at most one is the wanted one. */
  predicate CleanBefore(pairs: seq<seq<Byte>>, name: seq<Byte>, k: nat)
    requires k <= |pairs|
  {
    NamesDecode(pairs[..k]) && |ValuesNamed(pairs[..k], name)| <= 1
  }

  lemma {:induction false} ScanStops(pairs: seq<seq<Byte>>, name: seq<Byte>, found: Option<seq<Byte>>, k: nat)
    requires k < |pairs| && NamesDecode(pairs[..k])
    requires |FoundSeq(found) + ValuesNamed(pairs[..k], name)| <= 1
    ensures Name(pairs[k]).None? ==> Scan(pairs, name, found) == InvalidEncoding
    ensures Name(pairs[k]) == Some(name) && |FoundSeq(found) + ValuesNamed(pairs[..k], name)| == 1 ==>
              Scan(pairs, name, found) == Duplicate
    decreases k
  {
    hide Name, RawValue;
    if k > 0 {
      var front := pairs[..k];
      assert front[0] == pairs[0] && front[1..] == pairs[1..][..k - 1] && pairs[1..][k - 1] == pairs[k];
      NamesDecodeCons(front);
      if Name(pairs[0]) == Some(name) {
        ScanStops(pairs[1..], name, Some(RawValue(pairs[0])), k - 1);
      } else {
        EmptyLeft(ValuesNamed(front[1..], name));
        ScanStops(pairs[1..], name, found, k - 1);
      }
    } else {
      assert pairs[..0] == [];
    }
  }

  /** A name that does not decode is refused as such, unless the wanted name was repeated before it. */
  lemma MalformedNameIsRefused(
    query: seq<Byte>, name: seq<Byte>, ty: Ty, fallback: Option<Val>, constraints: seq<Constraint>, k: nat)
    requires ParameterTy(ty)
    requires k < |Pairs(query)| && CleanBefore(Pairs(query), name, k) && Name(Pairs(query)[k]).None?
    ensures BindLookup(ty, fallback, constraints, Answer(query, name)) == Refused(BadPercentEncoding)
  {
    hide Name;
    EmptyLeft(ValuesNamed(Pairs(query)[..k], name));
    ScanStops(Pairs(query), name, None, k);
  }

  /** A repeated name is refused as such, unless a name before it does not decode. */
  lemma RepeatedNameIsRefused(
    query: seq<Byte>, name: seq<Byte>, ty: Ty, fallback: Option<Val>, constraints: seq<Constraint>, k: nat)
    requires ParameterTy(ty)
    requires k < |Pairs(query)| && CleanBefore(Pairs(query), name, k)
    requires |ValuesNamed(Pairs(query)[..k], name)| == 1 && Name(Pairs(query)[k]) == Some(name)
    ensures BindLookup(ty, fallback, constraints, Answer(query, name)) == Refused(RepeatedParameter)
  {
    hide Name;
    EmptyLeft(ValuesNamed(Pairs(query)[..k], name));
    ScanStops(Pairs(query), name, None, k);
  }

  /**
   Whatever the query: a parameter is given a value only if every name decodes, at most one is the wanted one, and
   its raw value, when there is one, decodes to a text that denotes the value; without one the value is the
   disengaged optional or the default.
   */
  lemma GivenFromQuery(
    query: seq<Byte>, name: seq<Byte>, ty: Ty, fallback: Option<Val>, constraints: seq<Constraint>, v: Val)
    requires ParameterTy(ty) && BindLookup(ty, fallback, constraints, Answer(query, name)) == Given(v)
    ensures NamesDecode(Pairs(query)) && |ValuesNamed(Pairs(query), name)| <= 1
    ensures if ValuesNamed(Pairs(query), name) == [] then
              if ty.OptionalTy? then v == NoneVal else fallback == Some(v)
            else
              var text := Decode(ValuesNamed(Pairs(query), name)[0], true);
              text.Some? && Denotes(Contained(ty), text.value, Innermost(v)) && ObeysAll(v, constraints)
  {
    hide Name, Scan, Decode, ParseScalar, Denotes, ObeysAll, SatisfiesAll, RequiresDecoding, Answer;
    LookupSucceedsIff(query, name);
    var r := Answer(query, name);
    if r.value.Some? {
      GivenIsDenoted(ty, fallback, constraints, r.value.value, true, v);
    }
  }

  /** A wanted value that does not decode is refused as such. */
  lemma MalformedValueIsRefused(
    query: seq<Byte>, name: seq<Byte>, ty: Ty, fallback: Option<Val>, constraints: seq<Constraint>)
    requires ParameterTy(ty) && NamesDecode(Pairs(query)) && |ValuesNamed(Pairs(query), name)| == 1
    requires Decode(ValuesNamed(Pairs(query), name)[0], true).None?
    ensures BindLookup(ty, fallback, constraints, Answer(query, name)) == Refused(BadPercentEncoding)
  {
    hide Name, Scan, Decode;
    LookupSucceedsIff(query, name);
    MalformedIsRefused(ty, fallback, constraints, ValuesNamed(Pairs(query), name)[0], true);
  }
}
