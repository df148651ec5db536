/** Resolving a request against the declared endpoints. */
module Matcher {
  import opened Bytes
  import opened Route
  import opened RouteMatch
  import opened Bits

  datatype Method = Get | Post | Put | Patch | Delete | Head | Options

  datatype Endpoint = Endpoint(verb: Method, route: Pattern)

  datatype Outcome = Found | NotFound | MethodNotAllowed | AutomaticOptions

  datatype ApiMatch = ApiMatch(
    outcome: Outcome, endpointIndex: nat, captures: seq<Capture>, allowMask: nat, headFallback: bool)

  /** Every endpoint's route has passed the parser. */
  predicate RoutesValid(es: seq<Endpoint>) {
    forall k | 0 <= k < |es| :: RouteOk(es[k].route.segments)
  }

  // --- Ambiguity --------------------------------------------------------------------------

  const FNV_OFFSET: bv64 := 14695981039346656037
  const FNV_PRIME: bv64 := 1099511628211
  const SEGMENT_END: Byte := 255

  function FnvStep(hash: bv64, b: Byte): bv64 {
    (hash ^ (b as bv64)) * FNV_PRIME
  }

  function Fnv(hash: bv64, bytes: seq<Byte>): bv64 {
    if bytes == [] then hash else FnvStep(Fnv(hash, bytes[..|bytes| - 1]), bytes[|bytes| - 1])
  }

  function KindByte(kind: Kind): Byte {
    match kind
    case Literal => 0
    case Parameter => 1
    case CatchAll => 2
  }

  function SegmentShapeBytes(segment: Segment): seq<Byte> {
    [KindByte(segment.kind)] + (if segment.kind.Literal? then segment.text else []) + [SEGMENT_END]
  }

  /** The bytes of the first `k` segments. */
  function SegmentsShapeBytes(segments: seq<Segment>, k: nat): seq<Byte>
    requires k <= |segments|
  {
    if k == 0 then [] else SegmentsShapeBytes(segments, k - 1) + SegmentShapeBytes(segments[k - 1])
  }

  /** The bytes that are hashed for the shape of a route. */
  function ShapeBytes(segments: seq<Segment>): seq<Byte> {
    [(|segments| % 256) as Byte] + SegmentsShapeBytes(segments, |segments|)
  }

  function ShapeHash(segments: seq<Segment>): bv64 {
    Fnv(FNV_OFFSET, ShapeBytes(segments))
  }

  lemma {:induction false} SameShapeBytes(a: seq<Segment>, b: seq<Segment>, k: nat)
    requires SameShape(a, b) && k <= |a|
    ensures SegmentsShapeBytes(a, k) == SegmentsShapeBytes(b, k)
  {
    if k > 0 {
      SameShapeBytes(a, b, k - 1);
      assert SameSegmentShape(a[k - 1], b[k - 1]);
    }
  }

  /** The prefilter never hides an ambiguity. */
  lemma SameShapeSameHash(a: seq<Segment>, b: seq<Segment>)
    requires SameShape(a, b)
    ensures ShapeHash(a) == ShapeHash(b)
  {
    SameShapeBytes(a, b, |a|);
  }

  predicate Ambiguous(a: Endpoint, b: Endpoint) {
    a.verb == b.verb && SameShape(a.route.segments, b.route.segments)
  }

  /** No two endpoints have the same method and the same shape. */
  predicate Validated(es: seq<Endpoint>) {
    forall i, j | 0 <= i < j < |es| :: !Ambiguous(es[i], es[j])
  }

  // --- Allowed methods --------------------------------------------------------------------

  /** The bit of a method: its position in the declaration of the enumeration. */
  function MethodBit(m: Method): nat {
    match m
    case Get => 0
    case Post => 1
    case Put => 2
    case Patch => 3
    case Delete => 4
    case Head => 5
    case Options => 6
  }

  const METHOD_COUNT: nat := 7

  predicate Allows(mask: nat, m: Method) {
    Has(mask, MethodBit(m))
  }

  /** The methods that a matching endpoint adds. */
  predicate Contributes(declared: Method, m: Method) {
    m == declared || (declared.Get? && m.Head?) || m.Options?
  }

  function AddMethod(mask: nat, m: Method): nat {
    With(mask, MethodBit(m))
  }

  function AddMethods(mask: nat, declared: Method): nat {
    var own := AddMethod(mask, declared);
    AddMethod(if declared.Get? then AddMethod(own, Head) else own, Options)
  }

  lemma AllowsEither(mask: nat, added: Method, m: Method)
    ensures Allows(AddMethod(mask, added), m) <==> Allows(mask, m) || m == added
  {
    HasWith(mask, MethodBit(added), MethodBit(m));
  }

  lemma AddMethodsAllows(mask: nat, declared: Method, m: Method)
    ensures Allows(AddMethods(mask, declared), m) <==> Allows(mask, m) || Contributes(declared, m)
  {
    hide Allows, AddMethod;
    var own := AddMethod(mask, declared);
    AllowsEither(mask, declared, m);
    AllowsEither(own, Head, m);
    AllowsEither(if declared.Get? then AddMethod(own, Head) else own, Options, m);
  }

  /** The mask fits the bits of the methods, so the 16-bit type of the source loses none. */
  predicate MethodBitsOnly(mask: nat) {
    mask < Power(METHOD_COUNT)
  }

  lemma AddMethodsBits(mask: nat, declared: Method)
    requires MethodBitsOnly(mask)
    ensures MethodBitsOnly(AddMethods(mask, declared))
  {
    hide With, Power;
    var own := AddMethod(mask, declared);
    WithBound(mask, MethodBit(declared), METHOD_COUNT);
    WithBound(own, MethodBit(Head), METHOD_COUNT);
    WithBound(if declared.Get? then AddMethod(own, Head) else own, MethodBit(Options), METHOD_COUNT);
  }

  function MethodAt(k: nat): (m: Method)
    requires k < METHOD_COUNT
    ensures MethodBit(m) == k
  {
    if k == 0 then Get else if k == 1 then Post else if k == 2 then Put else if k == 3 then Patch
    else if k == 4 then Delete else if k == 5 then Head else Options
  }

  /** A mask is determined by the methods it allows. */
  lemma MaskIsItsMethods(a: nat, b: nat)
    requires MethodBitsOnly(a) && MethodBitsOnly(b)
    requires forall m :: Allows(a, m) <==> Allows(b, m)
    ensures a == b
  {
    hide Has, Power;
    forall k | 0 <= k < METHOD_COUNT ensures Has(a, k) <==> Has(b, k) {
      assert Allows(a, MethodAt(k)) <==> Allows(b, MethodAt(k));
    }
    SameBits(a, b, METHOD_COUNT);
  }

  // --- Resolution -------------------------------------------------------------------------

  predicate PathMatch(e: Endpoint, path: seq<Byte>) {
    Matches(e.route.segments, path)
  }

  predicate HeadFallback(e: Endpoint, requested: Method) {
    requested.Head? && e.verb.Get?
  }

  predicate Candidate(e: Endpoint, requested: Method, path: seq<Byte>) {
    PathMatch(e, path) && (e.verb == requested || HeadFallback(e, requested))
  }

  /** The endpoint is preferred: exact methods first, then the more specific route. */
  predicate Beats(a: Endpoint, b: Endpoint, requested: Method) {
    var aExact, bExact := a.verb == requested, b.verb == requested;
    (aExact && !bExact) || (aExact == bExact && MoreSpecific(a.route.segments, b.route.segments))
  }

  /** The preferred one of the first `k` endpoints. */
  function Best(es: seq<Endpoint>, k: nat, requested: Method, path: seq<Byte>): (b: Option<nat>)
    requires k <= |es|
    ensures b.Some? ==> b.value < k
  {
    if k == 0 then None
    else
      var b := Best(es, k - 1, requested, path);
      if Candidate(es[k - 1], requested, path) && (b.None? || Beats(es[k - 1], es[b.value], requested)) then Some(k - 1)
      else b
  }

  /** The methods of the first `k` endpoints that match the path. */
  function Mask(es: seq<Endpoint>, k: nat, path: seq<Byte>): nat
    requires k <= |es|
  {
    if k == 0 then 0
    else if PathMatch(es[k - 1], path) then AddMethods(Mask(es, k - 1, path), es[k - 1].verb)
    else Mask(es, k - 1, path)
  }

  predicate HasPathMatch(es: seq<Endpoint>, k: nat, path: seq<Byte>)
    requires k <= |es|
  {
    exists i | 0 <= i < k :: PathMatch(es[i], path)
  }

  predicate HasExplicitOptions(es: seq<Endpoint>, k: nat, requested: Method, path: seq<Byte>)
    requires k <= |es|
  {
    requested.Options? && exists i | 0 <= i < k :: PathMatch(es[i], path) && es[i].verb.Options?
  }

  function OutcomeOf(requested: Method, pathMatch: bool, methodMatch: bool, explicitOptions: bool): Outcome {
    if requested.Options? && pathMatch && !explicitOptions then AutomaticOptions
    else if methodMatch then Found
    else if pathMatch then MethodNotAllowed
    else NotFound
  }

  function MatchApi(es: seq<Endpoint>, requested: Method, path: seq<Byte>): ApiMatch {
    var n := |es|;
    var best := Best(es, n, requested, path);
    var outcome := OutcomeOf(requested, HasPathMatch(es, n, path), best.Some?,
                             HasExplicitOptions(es, n, requested, path));
    if best.None? then ApiMatch(outcome, 0, [], Mask(es, n, path), false)
    else
      BestIsCandidate(es, n, requested, path);
      ApiMatch(outcome, best.value, MatchPath(es[best.value].route.segments, path).value, Mask(es, n, path),
               HeadFallback(es[best.value], requested))
  }

  lemma {:induction false} BestIsCandidate(es: seq<Endpoint>, k: nat, requested: Method, path: seq<Byte>)
    requires k <= |es|
    ensures var b := Best(es, k, requested, path); b.Some? ==> Candidate(es[b.value], requested, path)
  {
    if k > 0 {
      BestIsCandidate(es, k - 1, requested, path);
    }
  }

  // --- The best endpoint ------------------------------------------------------------------

  lemma BeatsIsStrict(a: Endpoint, b: Endpoint, requested: Method)
    requires Beats(a, b, requested)
    ensures !Beats(b, a, requested)
  {
    MoreSpecificIsStrict(a.route.segments, b.route.segments);
  }

  lemma BeatsIsTransitive(a: Endpoint, b: Endpoint, c: Endpoint, requested: Method)
    requires Beats(a, b, requested) && !Beats(c, b, requested)
    ensures Beats(a, c, requested)
  {
    var aExact, bExact, cExact := a.verb == requested, b.verb == requested, c.verb == requested;
    if aExact == bExact == cExact {
      MoreSpecificIsTransitive(a.route.segments, b.route.segments, c.route.segments);
    }
  }

  /** The scan ends with a candidate that no candidate beats, the first of those that tie. */
  lemma {:induction false} BestIsUnbeaten(es: seq<Endpoint>, k: nat, requested: Method, path: seq<Byte>, c: nat)
    requires c < k <= |es| && Candidate(es[c], requested, path)
    ensures var b := Best(es, k, requested, path);
            && b.Some?
            && !Beats(es[c], es[b.value], requested)
            && (c < b.value ==> Beats(es[b.value], es[c], requested))
  {
    hide Candidate, Beats;
    var before := Best(es, k - 1, requested, path);
    var after := Best(es, k, requested, path);
    if c < k - 1 {
      BestIsUnbeaten(es, k - 1, requested, path, c);
      if after != before {
        BeatsIsTransitive(es[k - 1], es[before.value], es[c], requested);
        BeatsIsStrict(es[k - 1], es[c], requested);
      }
    } else if after == Some(c) {
      NothingBeatsItself(es[c], requested);
    }
  }

  lemma NothingBeatsItself(e: Endpoint, requested: Method)
    ensures !Beats(e, e, requested)
  {
    MoreSpecificIsStrict(e.route.segments, e.route.segments);
  }

  /** Candidates of which neither beats the other have the same method and shape. */
  lemma TiedCandidatesAreAmbiguous(a: Endpoint, b: Endpoint, requested: Method, path: seq<Byte>)
    requires RouteOk(a.route.segments) && RouteOk(b.route.segments)
    requires Candidate(a, requested, path) && Candidate(b, requested, path)
    requires !Beats(a, b, requested) && !Beats(b, a, requested)
    ensures Ambiguous(a, b)
  {
    TiedMatchesHaveOneShape(a.route.segments, b.route.segments, path);
  }

  /** Two endpoints are ambiguous exactly when some request has both as candidates and prefers neither. */
  lemma AmbiguousIff(a: Endpoint, b: Endpoint)
    requires RouteOk(a.route.segments) && RouteOk(b.route.segments)
    ensures Ambiguous(a, b)
            <==> exists m, path ::
                   Candidate(a, m, path) && Candidate(b, m, path) && !Beats(a, b, m) && !Beats(b, a, m)
  {
    hide RouteOk, Matches, MoreSpecific;
    if Ambiguous(a, b) {
      var path := SampleOf(a.route.segments);
      SameShapeIff(a.route.segments, b.route.segments);
      SameShapeIsTied(a.route.segments, b.route.segments);
      assert Candidate(a, a.verb, path) && Candidate(b, a.verb, path);
    }
    if m, path :| Candidate(a, m, path) && Candidate(b, m, path) && !Beats(a, b, m) && !Beats(b, a, m) {
      TiedCandidatesAreAmbiguous(a, b, m, path);
    }
  }

  /** Among validated endpoints the chosen one beats every other candidate. */
  lemma BestBeatsAll(es: seq<Endpoint>, requested: Method, path: seq<Byte>, c: nat)
    requires RoutesValid(es) && Validated(es)
    requires c < |es| && Candidate(es[c], requested, path)
    ensures var b := Best(es, |es|, requested, path);
            b.Some? && (c != b.value ==> Beats(es[b.value], es[c], requested))
  {
    hide Candidate, Beats, RouteOk, Ambiguous;
    BestIsUnbeaten(es, |es|, requested, path, c);
    BestIsCandidate(es, |es|, requested, path);
    var b := Best(es, |es|, requested, path).value;
    if b < c && !Beats(es[b], es[c], requested) {
      TiedCandidatesAreAmbiguous(es[b], es[c], requested, path);
    }
  }

  // --- Declaration order ------------------------------------------------------------------

  /** `fs` lists the endpoints of `es` in the order `perm`. */
  predicate Reordered(es: seq<Endpoint>, fs: seq<Endpoint>, perm: seq<nat>) {
    && |perm| == |fs| == |es|
    && (forall j | 0 <= j < |fs| :: perm[j] < |es| && fs[j] == es[perm[j]])
    && (forall i | 0 <= i < |es| :: i in perm)
  }

  lemma PlaceOf(es: seq<Endpoint>, fs: seq<Endpoint>, perm: seq<nat>, i: nat) returns (j: nat)
    requires Reordered(es, fs, perm) && i < |es|
    ensures j < |fs| && perm[j] == i && fs[j] == es[i]
  {
    assert i in perm;
    j :| 0 <= j < |perm| && perm[j] == i;
  }

  /** The same endpoint is chosen in either order. */
  lemma BestInAnyOrder(es: seq<Endpoint>, fs: seq<Endpoint>, perm: seq<nat>, requested: Method, path: seq<Byte>)
    requires RoutesValid(es) && Validated(es) && Reordered(es, fs, perm)
    ensures var b, c := Best(es, |es|, requested, path), Best(fs, |fs|, requested, path);
            b.Some? == c.Some? && (b.Some? ==> perm[c.value] == b.value)
  {
    hide Candidate, Beats, RouteOk, Ambiguous;
    var b, c := Best(es, |es|, requested, path), Best(fs, |fs|, requested, path);
    BestIsCandidate(es, |es|, requested, path);
    BestIsCandidate(fs, |fs|, requested, path);
    if b.Some? {
      var j := PlaceOf(es, fs, perm, b.value);
      BestIsUnbeaten(fs, |fs|, requested, path, j);
    }
    if c.Some? {
      BestBeatsAll(es, requested, path, perm[c.value]);
    }
  }

  lemma {:induction false} MaskMeaning(es: seq<Endpoint>, k: nat, path: seq<Byte>, m: Method)
    requires k <= |es|
    ensures MethodBitsOnly(Mask(es, k, path))
    ensures Allows(Mask(es, k, path), m)
            <==> exists i | 0 <= i < k :: PathMatch(es[i], path) && Contributes(es[i].verb, m)
  {
    hide PathMatch, Contributes, AddMethods;
    if k == 0 {
      assert !Allows(0, m);
    } else {
      MaskMeaning(es, k - 1, path, m);
      AddMethodsAllows(Mask(es, k - 1, path), es[k - 1].verb, m);
      AddMethodsBits(Mask(es, k - 1, path), es[k - 1].verb);
    }
  }

  lemma MaskInAnyOrder(es: seq<Endpoint>, fs: seq<Endpoint>, perm: seq<nat>, path: seq<Byte>)
    requires Reordered(es, fs, perm)
    ensures Mask(es, |es|, path) == Mask(fs, |fs|, path)
  {
    hide Allows, PathMatch, Contributes, MethodBitsOnly;
    forall m ensures Allows(Mask(es, |es|, path), m) <==> Allows(Mask(fs, |fs|, path), m) {
      MaskMeaning(es, |es|, path, m);
      MaskMeaning(fs, |fs|, path, m);
      if i :| 0 <= i < |es| && PathMatch(es[i], path) && Contributes(es[i].verb, m) {
        var j := PlaceOf(es, fs, perm, i);
      }
    }
    MaskMeaning(es, |es|, path, Get);
    MaskMeaning(fs, |fs|, path, Get);
    MaskIsItsMethods(Mask(es, |es|, path), Mask(fs, |fs|, path));
  }

  lemma FlagsInAnyOrder(es: seq<Endpoint>, fs: seq<Endpoint>, perm: seq<nat>, requested: Method, path: seq<Byte>)
    requires Reordered(es, fs, perm)
    ensures HasPathMatch(es, |es|, path) == HasPathMatch(fs, |fs|, path)
    ensures HasExplicitOptions(es, |es|, requested, path) == HasExplicitOptions(fs, |fs|, requested, path)
  {
    hide PathMatch;
    if i :| 0 <= i < |es| && PathMatch(es[i], path) {
      var j := PlaceOf(es, fs, perm, i);
    }
    if i :| 0 <= i < |es| && PathMatch(es[i], path) && es[i].verb.Options? {
      var j := PlaceOf(es, fs, perm, i);
    }
  }

  /** The answer does not depend on the order in which validated endpoints are declared. */
  lemma RouteChoiceInAnyOrder(
    es: seq<Endpoint>, fs: seq<Endpoint>, perm: seq<nat>, requested: Method, path: seq<Byte>)
    requires RoutesValid(es) && Validated(es) && Reordered(es, fs, perm)
    ensures var r, q := MatchApi(es, requested, path), MatchApi(fs, requested, path);
            && q.outcome == r.outcome && q.captures == r.captures
            && q.allowMask == r.allowMask && q.headFallback == r.headFallback
            && (r.outcome.Found? ==> perm[q.endpointIndex] == r.endpointIndex)
            && (r.outcome.Found? ==> fs[q.endpointIndex] == es[r.endpointIndex])
  {
    hide PathMatch, Best, Mask, Candidate, HasPathMatch, HasExplicitOptions;
    BestInAnyOrder(es, fs, perm, requested, path);
    MaskInAnyOrder(es, fs, perm, path);
    FlagsInAnyOrder(es, fs, perm, requested, path);
  }

  // --- What the answer means --------------------------------------------------------------

  /** Some endpoint that matches the path is declared for the method. */
  predicate Declares(es: seq<Endpoint>, m: Method, path: seq<Byte>) {
    exists i | 0 <= i < |es| :: PathMatch(es[i], path) && es[i].verb == m
  }

  /** An endpoint serves its own method, and one for GET serves HEAD as well. */
  predicate Serves(es: seq<Endpoint>, m: Method, path: seq<Byte>) {
    Declares(es, m, path) || (m == Head && Declares(es, Get, path))
  }

  lemma BestIffServed(es: seq<Endpoint>, m: Method, path: seq<Byte>)
    ensures Best(es, |es|, m, path).Some? <==> Serves(es, m, path)
  {
    hide PathMatch, Best;
    BestIsCandidate(es, |es|, m, path);
    if i :| 0 <= i < |es| && PathMatch(es[i], path) && (es[i].verb == m || (m == Head && es[i].verb == Get)) {
      assert Candidate(es[i], m, path);
      BestIsUnbeaten(es, |es|, m, path, i);
    }
  }

  /**
   The four outcomes: no route matches the path; one does but none serves the method; OPTIONS is answered
   automatically where no endpoint declares it; and otherwise an endpoint is found.
   */
  lemma OutcomeMeaning(es: seq<Endpoint>, m: Method, path: seq<Byte>)
    ensures var outcome := MatchApi(es, m, path).outcome;
            var known := exists i | 0 <= i < |es| :: Matches(es[i].route.segments, path);
            && (outcome == NotFound <==> !known)
            && (outcome == AutomaticOptions <==> m == Options && known && !Declares(es, Options, path))
            && (outcome == MethodNotAllowed <==> m != Options && known && !Serves(es, m, path))
            && (outcome == Found <==> Serves(es, m, path))
  {
    hide Matches, Best, Mask;
    BestIffServed(es, m, path);
    assert HasPathMatch(es, |es|, path)
        <==> exists i | 0 <= i < |es| :: Matches(es[i].route.segments, path) by {
      if i :| 0 <= i < |es| && Matches(es[i].route.segments, path) {
        assert PathMatch(es[i], path);
      }
    }
  }

  /** The endpoint that is found matches the path and serves the method, its own one before HEAD for GET. */
  lemma FoundServes(es: seq<Endpoint>, m: Method, path: seq<Byte>)
    requires MatchApi(es, m, path).outcome == Found
    ensures var r := MatchApi(es, m, path);
            && r.endpointIndex < |es|
            && Some(r.captures) == MatchPath(es[r.endpointIndex].route.segments, path)
            && (if Declares(es, m, path) then es[r.endpointIndex].verb == m && !r.headFallback
                else m == Head && es[r.endpointIndex].verb == Get && r.headFallback)
  {
    hide MatchPath, Best, Mask;
    OutcomeMeaning(es, m, path);
    BestIffServed(es, m, path);
    BestIsCandidate(es, |es|, m, path);
    if i :| 0 <= i < |es| && PathMatch(es[i], path) && es[i].verb == m {
      BestIsUnbeaten(es, |es|, m, path, i);
    }
  }

  /** No endpoint of the same method whose paths are properly included in those of the chosen one matches the path. */
  lemma NarrowestIsChosen(es: seq<Endpoint>, m: Method, path: seq<Byte>, c: nat)
    requires RoutesValid(es) && MatchApi(es, m, path).outcome == Found
    requires c < |es| && MatchApi(es, m, path).endpointIndex < |es|
    requires var chosen := es[MatchApi(es, m, path).endpointIndex];
             && es[c].verb == chosen.verb
             && Included(es[c].route.segments, chosen.route.segments)
             && !SameShape(es[c].route.segments, chosen.route.segments)
    ensures !PathMatch(es[c], path)
  {
    hide PathMatch, Mask, RouteOk, Included, MoreSpecific, Matches;
    var b := MatchApi(es, m, path).endpointIndex;
    BestIffServed(es, m, path);
    OutcomeMeaning(es, m, path);
    BestIsCandidate(es, |es|, m, path);
    IncludedIsMoreSpecific(es[c].route.segments, es[b].route.segments);
    if PathMatch(es[c], path) {
      BestIsUnbeaten(es, |es|, m, path, c);
    }
  }

  // --- The Allow header -------------------------------------------------------------------

  /** The answer allows exactly the methods that would be served or answered automatically on that path. */
  lemma AllowIsTruthful(es: seq<Endpoint>, requested: Method, path: seq<Byte>, m: Method)
    requires HasPathMatch(es, |es|, path)
    ensures Allows(MatchApi(es, requested, path).allowMask, m)
            <==> MatchApi(es, m, path).outcome in {Found, AutomaticOptions}
  {
    hide PathMatch, Mask, Best, Allows;
    MaskMeaning(es, |es|, path, m);
    BestIsCandidate(es, |es|, m, path);
    var b := Best(es, |es|, m, path);
    if i :| 0 <= i < |es| && PathMatch(es[i], path) && (es[i].verb == m || HeadFallback(es[i], m)) {
      BestIsUnbeaten(es, |es|, m, path, i);
    }
    assert b.Some? ==> Contributes(es[b.value].verb, m);
    var i :| 0 <= i < |es| && PathMatch(es[i], path);
    assert m.Options? ==> Contributes(es[i].verb, m);
  }

  /** The mask is the same whichever method was requested. */
  lemma MaskIgnoresMethod(es: seq<Endpoint>, requested: Method, other: Method, path: seq<Byte>)
    ensures MatchApi(es, requested, path).allowMask == MatchApi(es, other, path).allowMask
  {
  }
}
