/** How the path parameters of an endpoint find the captures of its route. */
module Binding {
  import opened Bytes
  import opened Route
  import opened RouteMatch
  import opened Matcher
  import opened Percent

  datatype Source = Inferred | FromPath | FromQuery | FromHeader | FromCookie | FromBody | FromContext | FromState

  datatype SourceAnnotation = SourceAnnotation(source: Source, wireName: seq<Byte>)

  /** What the type of a parameter says about where it comes from. */
  datatype Storage = ContextStorage | StateStorage | AggregateStorage | ScalarStorage

  datatype Formal = Formal(identifier: seq<Byte>, annotations: seq<SourceAnnotation>, storage: Storage)

  /** The annotation of a parameter, or the default one. */
  function ExplicitSource(p: Formal): SourceAnnotation {
    if |p.annotations| == 1 then p.annotations[0] else SourceAnnotation(Inferred, [])
  }

  function WireName(p: Formal): seq<Byte> {
    if ExplicitSource(p).wireName != [] then ExplicitSource(p).wireName else p.identifier
  }

  function SourceOf(segments: seq<Segment>, verb: Method, p: Formal): Source {
    if !ExplicitSource(p).source.Inferred? then ExplicitSource(p).source
    else if NameTaken(segments, WireName(p)) then FromPath
    else
      match p.storage
      case ContextStorage => FromContext
      case StateStorage => FromState
      case AggregateStorage => if verb.Post? || verb.Put? || verb.Patch? then FromBody else FromQuery
      case ScalarStorage => FromQuery
  }

  // --- The endpoint checks ----------------------------------------------------------------

  /** The parameter is counted as a binding of the placeholder `name`. */
  predicate Binds(p: Formal, name: seq<Byte>) {
    if |p.annotations| == 1 then p.annotations[0].source.FromPath? && WireName(p) == name
    else p.annotations == [] && p.identifier == name
  }

  function Bindings(formals: seq<Formal>, name: seq<Byte>): nat {
    if formals == [] then 0
    else Bindings(formals[..|formals| - 1], name) + (if Binds(formals[|formals| - 1], name) then 1 else 0)
  }

  predicate AnnotationsUnique(formals: seq<Formal>) {
    forall k | 0 <= k < |formals| :: |formals[k].annotations| <= 1
  }

  predicate EveryPlaceholderIsBoundOnce(segments: seq<Segment>, formals: seq<Formal>) {
    forall k | 0 <= k < |segments| && !segments[k].kind.Literal? ::
      AnnotationsUnique(formals) && Bindings(formals, segments[k].text) == 1
  }

  predicate EveryExplicitPathExists(segments: seq<Segment>, verb: Method, formals: seq<Formal>) {
    forall k | 0 <= k < |formals| && SourceOf(segments, verb, formals[k]).FromPath? ::
      NameTaken(segments, WireName(formals[k]))
  }

  function BodyCount(segments: seq<Segment>, verb: Method, formals: seq<Formal>): nat {
    if formals == [] then 0
    else
      (if SourceOf(segments, verb, formals[0]).FromBody? then 1 else 0)
      + BodyCount(segments, verb, formals[1..])
  }

  predicate BindingValid(segments: seq<Segment>, verb: Method, formals: seq<Formal>) {
    && AnnotationsUnique(formals)
    && EveryPlaceholderIsBoundOnce(segments, formals)
    && EveryExplicitPathExists(segments, verb, formals)
    && BodyCount(segments, verb, formals) <= 1
  }

  method CheckPlaceholders(segments: seq<Segment>, formals: seq<Formal>) returns (ok: bool)
    ensures ok == EveryPlaceholderIsBoundOnce(segments, formals)
  {
    for index := 0 to |segments|
      invariant forall k | 0 <= k < index && !segments[k].kind.Literal? ::
                  AnnotationsUnique(formals) && Bindings(formals, segments[k].text) == 1
    {
      var segment := segments[index];
      if segment.kind.Literal? {
        continue;
      }
      var bindings := 0;
      for position := 0 to |formals|
        invariant AnnotationsUnique(formals[..position]) && bindings == Bindings(formals[..position], segment.text)
      {
        var parameter := formals[position];
        assert formals[..position + 1][..position] == formals[..position];
        if |parameter.annotations| > 1 {
          assert !AnnotationsUnique(formals);
          return false;
        }
        if |parameter.annotations| == 1 {
          var source := parameter.annotations[0];
          var name := if source.wireName == [] then parameter.identifier else source.wireName;
          if source.source.FromPath? && name == segment.text {
            bindings := bindings + 1;
          }
        } else if parameter.identifier == segment.text {
          bindings := bindings + 1;
        }
      }
      assert formals[..|formals|] == formals;
      if bindings != 1 {
        return false;
      }
    }
    return true;
  }

  method FindPathValue(captures: seq<Capture>, name: seq<Byte>) returns (value: Option<seq<Byte>>)
    ensures value == PathValue(captures, name)
  {
    var index := 0;
    assert captures[0..] == captures;
    while index < |captures|
      invariant index <= |captures| && PathValue(captures[index..], name) == PathValue(captures, name)
    {
      if captures[index].name == name {
        return Some(captures[index].value);
      }
      assert captures[index..][1..] == captures[index + 1..];
      index := index + 1;
    }
    return None;
  }

  /** The value of the first capture with this name. */
  function PathValue(captures: seq<Capture>, name: seq<Byte>): Option<seq<Byte>> {
    if captures == [] then None
    else if captures[0].name == name then Some(captures[0].value)
    else PathValue(captures[1..], name)
  }

  // --- Every path parameter finds its capture ---------------------------------------------

  lemma {:induction false} PathValueAt(captures: seq<Capture>, k: nat)
    requires k < |captures|
    requires forall j | 0 <= j < |captures| && j != k :: captures[j].name != captures[k].name
    ensures PathValue(captures, captures[k].name) == Some(captures[k].value)
  {
    if k > 0 {
      assert captures[0].name != captures[k].name;
      assert forall j | 0 <= j < |captures[1..]| :: captures[1..][j] == captures[j + 1];
      PathValueAt(captures[1..], k - 1);
    }
  }

  lemma CaptureNames(segments: seq<Segment>, path: seq<Byte>)
    requires RouteOk(segments) && Matches(segments, path)
    ensures var captures := MatchPath(segments, path).value;
            && |captures| == |Placeholders(segments)|
            && forall k | 0 <= k < |captures| :: captures[k].name == Placeholders(segments)[k]
  {
    MatchedIsInstance(segments, path);
    var captures := MatchPath(segments, path).value;
    forall k | 0 <= k < |captures| ensures captures[k].name == Placeholders(segments)[k] {
      CapturedNames(segments, ValuesOf(captures), k);
    }
  }

  /** The capture of a placeholder is the only one with its name, and the one that is found. */
  lemma PlaceholderIsFound(segments: seq<Segment>, path: seq<Byte>, k: nat)
    requires RouteOk(segments) && Matches(segments, path) && k < |Placeholders(segments)|
    ensures var captures := MatchPath(segments, path).value;
            && k < |captures| && captures[k].name == Placeholders(segments)[k]
            && PathValue(captures, Placeholders(segments)[k]) == Some(captures[k].value)
  {
    hide RouteOk, MatchPath;
    CaptureNames(segments, path);
    var captures := MatchPath(segments, path).value;
    forall j | 0 <= j < |captures| && j != k ensures captures[j].name != captures[k].name {
      PlaceholdersDistinct(segments, if j < k then j else k, if j < k then k else j);
    }
    PathValueAt(captures, k);
  }

  /**
   On every path its route matches, a path parameter of a checked endpoint is given the value that the path
   has in place of the parameter's own placeholder.
   */
  lemma PathParameterFindsItsValue(
    segments: seq<Segment>, verb: Method, formals: seq<Formal>, i: nat, values: seq<seq<Byte>>)
    returns (k: nat)
    requires RouteOk(segments) && BindingValid(segments, verb, formals)
    requires i < |formals| && SourceOf(segments, verb, formals[i]).FromPath?
    requires ValuesOk(segments, values)
    ensures k < |values| == |Placeholders(segments)| && Placeholders(segments)[k] == WireName(formals[i])
    ensures forall j | 0 <= j < |Placeholders(segments)| && j != k :: Placeholders(segments)[j] != WireName(formals[i])
    ensures Matches(segments, Instance(segments, values))
    ensures PathValue(MatchPath(segments, Instance(segments, values)).value, WireName(formals[i])) == Some(values[k])
  {
    hide RouteOk, MatchPath;
    var name := WireName(formals[i]);
    PlaceholdersAreTaken(segments, name);
    k :| 0 <= k < |Placeholders(segments)| && Placeholders(segments)[k] == name;
    InstanceMatches(segments, values);
    PlaceholderIsFound(segments, Instance(segments, values), k);
    CapturedNames(segments, values, k);
    forall j | 0 <= j < |Placeholders(segments)| && j != k ensures Placeholders(segments)[j] != name {
      PlaceholdersDistinct(segments, if j < k then j else k, if j < k then k else j);
    }
  }

  /** What a client percent-encodes into a placeholder is what the parameter decodes to. */
  lemma PathParameterRoundTrip(
    segments: seq<Segment>, verb: Method, formals: seq<Formal>, i: nat, values: seq<seq<Byte>>,
    encoded: seq<seq<Unit>>)
    returns (k: nat)
    requires RouteOk(segments) && BindingValid(segments, verb, formals)
    requires i < |formals| && SourceOf(segments, verb, formals[i]).FromPath?
    requires ValuesOk(segments, values) && |encoded| == |values|
    requires forall j | 0 <= j < |values| :: UnitsOk(encoded[j], false) && values[j] == UnitsText(encoded[j])
    ensures k < |values| == |Placeholders(segments)| && Placeholders(segments)[k] == WireName(formals[i])
    ensures Matches(segments, Instance(segments, values))
    ensures var found := PathValue(MatchPath(segments, Instance(segments, values)).value, WireName(formals[i]));
            && found.Some?
            && Decode(found.value, false) == Some(UnitsValue(encoded[k], false))
  {
    hide RouteOk, MatchPath, Decode, UnitsText, UnitsValue, ValuesOk;
    k := PathParameterFindsItsValue(segments, verb, formals, i, values);
    DecodeInvertsEncoding(encoded[k], false);
  }

  /** The parameters that are given the value of the placeholder `name`. */
  function Receivers(segments: seq<Segment>, verb: Method, formals: seq<Formal>, name: seq<Byte>): nat {
    if formals == [] then 0
    else
      var last := formals[|formals| - 1];
      Receivers(segments, verb, formals[..|formals| - 1], name)
      + (if SourceOf(segments, verb, last).FromPath? && WireName(last) == name then 1 else 0)
  }

  /** Annotated as inferred and named like the placeholder: given its value, but not counted as a binding. */
  predicate Uncounted(p: Formal, name: seq<Byte>) {
    |p.annotations| == 1 && p.annotations[0].source.Inferred? && WireName(p) == name
  }

  function UncountedAmong(formals: seq<Formal>, name: seq<Byte>): nat {
    if formals == [] then 0
    else UncountedAmong(formals[..|formals| - 1], name) + (if Uncounted(formals[|formals| - 1], name) then 1 else 0)
  }

  lemma {:induction false} ReceiversAre(segments: seq<Segment>, verb: Method, formals: seq<Formal>, name: seq<Byte>)
    requires AnnotationsUnique(formals) && NameTaken(segments, name)
    ensures Receivers(segments, verb, formals, name) == Bindings(formals, name) + UncountedAmong(formals, name)
  {
    hide NameTaken;
    if formals != [] {
      ReceiversAre(segments, verb, formals[..|formals| - 1], name);
    }
  }

  /**
   Each placeholder of a checked endpoint is given to exactly one parameter if and only if none is annotated
   with the inferred source under its name.
   */
  lemma PlaceholderHasOneReceiver(
    segments: seq<Segment>, verb: Method, formals: seq<Formal>, name: seq<Byte>)
    requires BindingValid(segments, verb, formals) && NameTaken(segments, name)
    ensures Receivers(segments, verb, formals, name) == 1
            <==> forall i | 0 <= i < |formals| :: !Uncounted(formals[i], name)
  {
    ReceiversAre(segments, verb, formals, name);
    NoneUncounted(formals, name);
  }

  lemma {:induction false} NoneUncounted(formals: seq<Formal>, name: seq<Byte>)
    ensures UncountedAmong(formals, name) == 0 <==> forall i | 0 <= i < |formals| :: !Uncounted(formals[i], name)
  {
    hide Uncounted;
    if formals != [] {
      NoneUncounted(formals[..|formals| - 1], name);
    }
  }

  /** An endpoint that passes the checks although two parameters are given the value of its one placeholder. */
  lemma PlaceholderWithTwoReceivers(verb: Method)
    ensures var id: seq<Byte> := ['i' as int, 'd' as int];
            var segments := [Segment(Parameter, id)];
            var formals := [Formal(id, [], ScalarStorage),
                            Formal(['x' as int], [SourceAnnotation(Inferred, id)], ScalarStorage)];
            && RouteOk(segments) && BindingValid(segments, verb, formals)
            && Receivers(segments, verb, formals, id) == 2
  {
    var id: seq<Byte> := ['i' as int, 'd' as int];
    var segments := [Segment(Parameter, id)];
    var formals := [Formal(id, [], ScalarStorage),
                    Formal(['x' as int], [SourceAnnotation(Inferred, id)], ScalarStorage)];
    assert segments[0].text == id && NameTaken(segments, id);
    assert formals[..1] == [formals[0]] && formals[..1][..0] == [];
    assert formals[1..] == [formals[1]] && formals[1..][1..] == [];
    assert WireName(formals[0]) == id && WireName(formals[1]) == id;
    assert Binds(formals[0], id) && !Binds(formals[1], id);
    assert formals[..|formals| - 1] == formals[..1] && formals[..1][..|formals[..1]| - 1] == [];
    assert Bindings([], id) == 0 && Bindings(formals[..1], id) == 1;
    assert Bindings(formals, id) == Bindings(formals[..1], id);
    assert Receivers(segments, verb, formals[..1], id) == 1;
    assert BodyCount(segments, verb, []) == 0 && BodyCount(segments, verb, formals[1..]) == 0;
  }

  // --- Sources ----------------------------------------------------------------------------

  /** The methods whose requests carry a body by default. */
  const BODY_METHODS: set<Method> := {Post, Put, Patch}

  /** The parameter says itself where it comes from. */
  predicate Stated(p: Formal) {
    |p.annotations| == 1 && p.annotations[0].source != Inferred
  }

  /**
   Where a parameter comes from: where it says; else from the path, if its name is a placeholder; else from the body,
   if it is an aggregate and the method carries one; and from the query otherwise.
   */
  lemma SourceMeaning(segments: seq<Segment>, verb: Method, p: Formal)
    ensures var source := SourceOf(segments, verb, p);
            var free := !Stated(p) && WireName(p) !in Placeholders(segments);
            && source != Inferred
            && (Stated(p) ==> source == p.annotations[0].source)
            && (!Stated(p) ==> (source == FromPath <==> WireName(p) in Placeholders(segments)))
            && (free ==> (source == FromBody <==> p.storage == AggregateStorage && verb in BODY_METHODS))
            && (free ==>
                (source == FromQuery
                 <==> p.storage == ScalarStorage || (p.storage == AggregateStorage && verb !in BODY_METHODS)))
            && (free ==> (source == FromContext <==> p.storage == ContextStorage))
            && (free ==> (source == FromState <==> p.storage == StateStorage))
  {
    PlaceholdersAreTaken(segments, WireName(p));
  }

  /** A parameter goes by the name in its annotation, or by its identifier when there is none. */
  lemma WireNameMeaning(p: Formal)
    ensures |p.annotations| == 1 && p.annotations[0].wireName != [] ==> WireName(p) == p.annotations[0].wireName
    ensures |p.annotations| != 1 || p.annotations[0].wireName == [] ==> WireName(p) == p.identifier
  {
  }

  lemma {:induction false} BodiesCounted(segments: seq<Segment>, verb: Method, formals: seq<Formal>, i: nat, j: nat)
    requires i < j < |formals|
    requires SourceOf(segments, verb, formals[i]).FromBody? && SourceOf(segments, verb, formals[j]).FromBody?
    ensures BodyCount(segments, verb, formals) >= 2
    decreases |formals|
  {
    hide SourceOf;
    if i > 0 {
      BodiesCounted(segments, verb, formals[1..], i - 1, j - 1);
    } else {
      BodyCounted(segments, verb, formals[1..], j - 1);
    }
  }

  lemma {:induction false} BodyCounted(segments: seq<Segment>, verb: Method, formals: seq<Formal>, j: nat)
    requires j < |formals| && SourceOf(segments, verb, formals[j]).FromBody?
    ensures BodyCount(segments, verb, formals) >= 1
    decreases |formals|
  {
    hide SourceOf;
    if j > 0 {
      BodyCounted(segments, verb, formals[1..], j - 1);
    }
  }

  /** An endpoint that passes the checks reads its body into one parameter at most. */
  lemma OneBodyAtMost(segments: seq<Segment>, verb: Method, formals: seq<Formal>, i: nat, j: nat)
    requires BindingValid(segments, verb, formals) && i < |formals| && j < |formals|
    requires SourceOf(segments, verb, formals[i]) == FromBody && SourceOf(segments, verb, formals[j]) == FromBody
    ensures i == j
  {
    hide SourceOf;
    if i != j {
      BodiesCounted(segments, verb, formals, if i < j then i else j, if i < j then j else i);
    }
  }
}
