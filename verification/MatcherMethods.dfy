/** Resolving a request as the scan over the endpoints does it. */
module MatcherMethods {
  import opened Bytes
  import opened Route
  import opened RouteMatch
  import opened RouteMethods
  import opened Matcher

  /** Whether no two endpoints are ambiguous. Shapes are compared only where their hashes agree. */
  method ValidateRoutePairs(es: seq<Endpoint>) returns (ok: bool)
    ensures ok == Validated(es)
  {
    hide ShapeHash, SameShape;
    var hashes := ShapeHashes(es);
    for left := 0 to |es|
      invariant forall i, j | 0 <= i < left && i < j < |es| :: !Ambiguous(es[i], es[j])
    {
      for right := left + 1 to |es|
        invariant forall i, j | 0 <= i < left && i < j < |es| :: !Ambiguous(es[i], es[j])
        invariant forall j | left < j < right :: !Ambiguous(es[left], es[j])
      {
        if SameShape(es[left].route.segments, es[right].route.segments) {
          SameShapeSameHash(es[left].route.segments, es[right].route.segments);
        }
        if es[left].verb == es[right].verb && hashes[left] == hashes[right] {
          var same := SameRouteShape(es[left].route, es[right].route);
          if same {
            return false;
          }
        }
      }
    }
    return true;
  }

  method ShapeHashes(es: seq<Endpoint>) returns (hashes: seq<bv64>)
    ensures |hashes| == |es| && forall k | 0 <= k < |es| :: hashes[k] == ShapeHash(es[k].route.segments)
  {
    hide ShapeHash;
    hashes := [];
    for index := 0 to |es|
      invariant |hashes| == index && forall k | 0 <= k < index :: hashes[k] == ShapeHash(es[k].route.segments)
    {
      var hash := RouteShapeHash(es[index].route);
      hashes := hashes + [hash];
    }
  }

  /** The state of the scan. */
  class ApiMatchState {
    var endpointIndex: nat
    var captures: seq<Capture>
    var allowMask: nat
    var headFallback: bool
    var bestPattern: Option<Pattern>
    var hasPathMatch: bool
    var hasMethodMatch: bool
    var bestIsExactMethod: bool
    var explicitOptions: bool

    /** The state after the first `k` endpoints. */
    ghost predicate Describes(es: seq<Endpoint>, k: nat, requested: Method, path: seq<Byte>)
      requires k <= |es|
      reads this
    {
      && hasPathMatch == HasPathMatch(es, k, path)
      && allowMask == Mask(es, k, path)
      && explicitOptions == HasExplicitOptions(es, k, requested, path)
      && DescribesBest(es, Best(es, k, requested, path), requested, path)
    }

    ghost predicate DescribesBest(es: seq<Endpoint>, best: Option<nat>, requested: Method, path: seq<Byte>)
      requires best.Some? ==> best.value < |es|
      reads `hasMethodMatch, `endpointIndex, `captures, `headFallback, `bestPattern, `bestIsExactMethod
    {
      && hasMethodMatch == best.Some?
      && match best {
           case None => endpointIndex == 0 && captures == [] && !headFallback
           case Some(b) =>
             && endpointIndex == b
             && bestPattern == Some(es[b].route)
             && bestIsExactMethod == (es[b].verb == requested)
             && headFallback == HeadFallback(es[b], requested)
             && MatchPath(es[b].route.segments, path) == Some(captures)
         }
    }

    constructor ()
      ensures forall es: seq<Endpoint>, requested, path :: Describes(es, 0, requested, path)
    {
      endpointIndex := 0;
      captures := [];
      allowMask := 0;
      headFallback := false;
      bestPattern := None;
      hasPathMatch := false;
      hasMethodMatch := false;
      bestIsExactMethod := false;
      explicitOptions := false;
    }

    method ConsiderRoutes(es: seq<Endpoint>, index: nat, requested: Method, path: seq<Byte>)
      requires index <= |es| && Describes(es, index, requested, path)
      requires forall k | 0 <= k < |es| :: es[k].route.Valid() && RouteOk(es[k].route.segments)
      modifies this
      ensures Describes(es, |es|, requested, path)
      decreases |es| - index
    {
      hide Describes;
      if index < |es| {
        ConsiderRoute(es, index, requested, path);
        ConsiderRoutes(es, index + 1, requested, path);
      }
    }

    method ConsiderRoute(es: seq<Endpoint>, index: nat, requested: Method, path: seq<Byte>)
      requires index < |es| && Describes(es, index, requested, path)
      requires es[index].route.Valid() && RouteOk(es[index].route.segments)
      modifies this
      ensures Describes(es, index + 1, requested, path)
    {
      hide RouteOk, MatchPath, Best, PathMatch, AddMethod, HasPathMatch, HasExplicitOptions, DescribesBest, Candidate,
           Mask, Beats, AddMethods;
      var declared := es[index].verb;
      var matched := MatchRoute(es[index].route, path);
      PathMatchIs(es[index], path);
      FlagsStep(es, index, requested, path);
      BestStep(es, index, requested, path);
      MaskStep(es, index, path);
      if matched.Some? {
        RecordPathMatch(declared, requested);
        ConsiderMethod(es, index, requested, path, matched.value);
      } else {
        NoCandidate(es[index], requested, path);
      }
    }

    method RecordPathMatch(declared: Method, requested: Method)
      modifies `hasPathMatch, `allowMask, `explicitOptions
      ensures hasPathMatch && allowMask == AddMethods(old(allowMask), declared)
      ensures explicitOptions == (old(explicitOptions) || (requested.Options? && declared.Options?))
    {
      hide AddMethod;
      hasPathMatch := true;
      allowMask := AddMethod(allowMask, declared);
      if declared.Get? {
        allowMask := AddMethod(allowMask, Head);
      }
      allowMask := AddMethod(allowMask, Options);
      if requested.Options? && declared == requested {
        explicitOptions := true;
      }
    }

    /** The declared method of a matching endpoint, and whether the endpoint replaces the best so far. */
    method ConsiderMethod(es: seq<Endpoint>, index: nat, requested: Method, path: seq<Byte>, matched: seq<Capture>)
      requires index < |es| && DescribesBest(es, Best(es, index, requested, path), requested, path)
      requires MatchPath(es[index].route.segments, path) == Some(matched)
      modifies `hasMethodMatch, `endpointIndex, `captures, `headFallback, `bestPattern, `bestIsExactMethod
      ensures DescribesBest(es, Best(es, index + 1, requested, path), requested, path)
    {
      hide MatchPath, MoreSpecific, Best;
      BestStep(es, index, requested, path);
      PathMatchIs(es[index], path);
      var declared := es[index].verb;
      var exact := declared == requested;
      var fallback := requested.Head? && declared.Get?;
      if exact || fallback {
        var replace := !hasMethodMatch || (exact && !bestIsExactMethod);
        if !replace && exact == bestIsExactMethod {
          replace := IsMoreSpecific(es[index].route, bestPattern.value);
        }
        if replace {
          hasMethodMatch := true;
          bestIsExactMethod := exact;
          bestPattern := Some(es[index].route);
          endpointIndex := index;
          captures := matched;
          headFallback := fallback;
        }
      }
    }
  }

  lemma BestStep(es: seq<Endpoint>, k: nat, requested: Method, path: seq<Byte>)
    requires k < |es|
    ensures var b := Best(es, k, requested, path);
            Best(es, k + 1, requested, path)
            == if Candidate(es[k], requested, path) && (b.None? || Beats(es[k], es[b.value], requested)) then Some(k)
               else b
  {
    hide Candidate, Beats;
  }

  lemma MaskStep(es: seq<Endpoint>, k: nat, path: seq<Byte>)
    requires k < |es|
    ensures Mask(es, k + 1, path)
         == if PathMatch(es[k], path) then AddMethods(Mask(es, k, path), es[k].verb) else Mask(es, k, path)
  {
    hide PathMatch, AddMethods;
  }

  lemma NoCandidate(e: Endpoint, requested: Method, path: seq<Byte>)
    requires !PathMatch(e, path)
    ensures !Candidate(e, requested, path)
  {
  }

  method ResolveApi(es: seq<Endpoint>, requested: Method, path: seq<Byte>) returns (r: ApiMatch)
    requires forall k | 0 <= k < |es| :: es[k].route.Valid() && RouteOk(es[k].route.segments)
    ensures r == MatchApi(es, requested, path)
  {
    hide RouteOk, MatchPath, Best, Mask, HasPathMatch, HasExplicitOptions, Candidate, Validated;
    var state := new ApiMatchState();
    assert state.Describes(es, 0, requested, path);
    state.ConsiderRoutes(es, 0, requested, path);
    var outcome := NotFound;
    if requested.Options? && state.hasPathMatch && !state.explicitOptions {
      outcome := AutomaticOptions;
    } else if state.hasMethodMatch {
      outcome := Found;
    } else if state.hasPathMatch {
      outcome := MethodNotAllowed;
    }
    return ApiMatch(outcome, state.endpointIndex, state.captures, state.allowMask, state.headFallback);
  }

  lemma PathMatchIs(e: Endpoint, path: seq<Byte>)
    ensures PathMatch(e, path) == MatchPath(e.route.segments, path).Some?
  {
  }

  lemma FlagsStep(es: seq<Endpoint>, k: nat, requested: Method, path: seq<Byte>)
    requires k < |es|
    ensures HasPathMatch(es, k + 1, path) == (HasPathMatch(es, k, path) || PathMatch(es[k], path))
    ensures HasExplicitOptions(es, k + 1, requested, path)
         == (HasExplicitOptions(es, k, requested, path)
             || (requested.Options? && PathMatch(es[k], path) && es[k].verb.Options?))
  {
    hide PathMatch;
  }

  // --- The Allow header -------------------------------------------------------------------

  function MethodName(m: Method): string {
    match m
    case Get => "GET"
    case Head => "HEAD"
    case Post => "POST"
    case Put => "PUT"
    case Patch => "PATCH"
    case Delete => "DELETE"
    case Options => "OPTIONS"
  }

  const PRINT_ORDER: seq<Method> := [Get, Head, Post, Put, Patch, Delete, Options]

  /** The names of the allowed methods among the first `k` in print order. */
  function AllowedNames(mask: nat, k: nat): seq<string>
    requires k <= |PRINT_ORDER|
  {
    if k == 0 then []
    else AllowedNames(mask, k - 1) + (if Allows(mask, PRINT_ORDER[k - 1]) then [MethodName(PRINT_ORDER[k - 1])] else [])
  }

  function Joined(names: seq<string>): string {
    if names == [] then ""
    else if |names| == 1 then names[0]
    else names[0] + ", " + Joined(names[1..])
  }

  method AllowHeader(mask: nat) returns (result: string)
    ensures result == Joined(AllowedNames(mask, |PRINT_ORDER|))
  {
    hide Allows, MethodName, Joined;
    result := "";
    JoinedEmpty();
    for index := 0 to |PRINT_ORDER|
      invariant result == Joined(AllowedNames(mask, index))
      invariant result == "" <==> AllowedNames(mask, index) == []
    {
      var m := PRINT_ORDER[index];
      ghost var names := AllowedNames(mask, index);
      if Allows(mask, m) {
        JoinedSnoc(names, MethodName(m));
        NameShape(m);
        if result != "" {
          result := result + ", ";
        }
        result := result + MethodName(m);
      } else {
        assert names + [] == names;
      }
    }
  }

  lemma JoinedEmpty()
    ensures Joined([]) == ""
  {
  }

  lemma NameShape(m: Method)
    ensures MethodName(m) != "" && ',' !in MethodName(m) && MethodName(m)[0] != ' '
  {
  }

  lemma {:induction false} JoinedSnoc(names: seq<string>, name: string)
    ensures Joined(names + [name]) == if names == [] then name else Joined(names) + ", " + name
  {
    if names == [] {
      EmptyLeft([name]);
    } else {
      ConsSplit(names, [name]);
      JoinedSnoc(names[1..], name);
      if |names| > 1 {
        var rest := Joined(names[1..]);
        assert names[0] + ", " + (rest + ", " + name) == names[0] + ", " + rest + ", " + name;
      }
    }
  }

  /** The elements of a comma-separated field value (RFC 9110, section 5.6.1). */
  function Elements(value: string): seq<string> {
    var end := CommaFrom(value, 0);
    if end == |value| then [value]
    else
      var rest := value[end + 1..];
      [value[..end]] + Elements(if rest != "" && rest[0] == ' ' then rest[1..] else rest)
  }

  function CommaFrom(value: string, i: nat): (e: nat)
    requires i <= |value|
    ensures i <= e <= |value|
    decreases |value| - i
  {
    if i == |value| || value[i] == ',' then i else CommaFrom(value, i + 1)
  }

  lemma {:induction false} CommaFromIs(value: string, i: nat, e: nat)
    requires i <= e <= |value| && ',' !in value[i..e] && (e < |value| ==> value[e] == ',')
    ensures CommaFrom(value, i) == e
    decreases e - i
  {
    if i < e {
      assert value[i] == value[i..e][0];
      assert forall c | c in value[i + 1..e] :: c in value[i..e];
      CommaFromIs(value, i + 1, e);
    }
  }

  predicate Plain(name: string) {
    name != "" && ',' !in name && name[0] != ' '
  }

  /** Joined names can be told apart again. */
  lemma {:induction false} ElementsOfJoined(names: seq<string>)
    requires names != [] && forall n | n in names :: Plain(n)
    ensures Elements(Joined(names)) == names
  {
    var text := Joined(names);
    var first := names[0];
    assert Plain(first);
    assert text[..|first|] == first;
    assert text[0..|first|] == first;
    CommaFromIs(text, 0, |first|);
    if |names| > 1 {
      assert text == first + ", " + Joined(names[1..]);
      assert text[|first| + 1..] == " " + Joined(names[1..]);
      assert (" " + Joined(names[1..]))[1..] == Joined(names[1..]);
      ElementsOfJoined(names[1..]);
    } else {
      assert names == [first];
    }
  }

  lemma {:induction false} AllowedNamesMeaning(mask: nat, k: nat, m: Method)
    requires k <= |PRINT_ORDER|
    ensures MethodName(m) in AllowedNames(mask, k) <==> Allows(mask, m) && m in PRINT_ORDER[..k]
    ensures forall n | n in AllowedNames(mask, k) :: Plain(n)
  {
    hide Allows;
    if k > 0 {
      var last := PRINT_ORDER[k - 1];
      AllowedNamesMeaning(mask, k - 1, m);
      assert PRINT_ORDER[..k] == PRINT_ORDER[..k - 1] + [last];
      NamesDiffer(m, last);
      NameShape(last);
    }
  }

  lemma NamesDiffer(a: Method, b: Method)
    ensures MethodName(a) == MethodName(b) <==> a == b
  {
    if MethodName(a) == MethodName(b) {
      assert MethodName(a)[..2] == MethodName(b)[..2];
      assert MethodName(a)[0] == MethodName(b)[0] && MethodName(a)[1] == MethodName(b)[1];
    }
  }

  lemma EveryMethodIsPrinted(m: Method)
    ensures m in PRINT_ORDER
  {
    match m
    case Get => assert PRINT_ORDER[0] == m;
    case Head => assert PRINT_ORDER[1] == m;
    case Post => assert PRINT_ORDER[2] == m;
    case Put => assert PRINT_ORDER[3] == m;
    case Patch => assert PRINT_ORDER[4] == m;
    case Delete => assert PRINT_ORDER[5] == m;
    case Options => assert PRINT_ORDER[6] == m;
  }

  /**
   The header sent for a path some route matches lists exactly the methods that are served there, or
   answered automatically.
   */
  lemma PrintedAllowIsTruthful(es: seq<Endpoint>, requested: Method, path: seq<Byte>, m: Method)
    requires HasPathMatch(es, |es|, path)
    ensures var mask := MatchApi(es, requested, path).allowMask;
            MethodName(m) in Elements(Joined(AllowedNames(mask, |PRINT_ORDER|)))
            <==> MatchApi(es, m, path).outcome in {Found, AutomaticOptions}
  {
    hide MatchApi, MethodName, AllowedNames, Elements, Joined, HasPathMatch, Allows;
    var mask := MatchApi(es, requested, path).allowMask;
    AllowIsTruthful(es, requested, path, m);
    AllowIsTruthful(es, requested, path, Options);
    AllowedNamesMeaning(mask, |PRINT_ORDER|, m);
    AllowedNamesMeaning(mask, |PRINT_ORDER|, Options);
    EveryMethodIsPrinted(m);
    EveryMethodIsPrinted(Options);
    OptionsAreAnswered(es, path);
    ElementsOfJoined(AllowedNames(mask, |PRINT_ORDER|));
  }

  lemma OptionsAreAnswered(es: seq<Endpoint>, path: seq<Byte>)
    requires HasPathMatch(es, |es|, path)
    ensures MatchApi(es, Options, path).outcome in {Found, AutomaticOptions}
  {
    hide PathMatch, Mask, Best;
    if HasExplicitOptions(es, |es|, Options, path) {
      var i :| 0 <= i < |es| && PathMatch(es[i], path) && es[i].verb.Options?;
      BestIsUnbeaten(es, |es|, Options, path, i);
    }
  }
}
