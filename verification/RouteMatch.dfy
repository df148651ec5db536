/** Matching a path against a route, the order between routes, and when two routes have the same shape. */
module RouteMatch {
  import opened Bytes
  import opened Route

  datatype Capture = Capture(name: seq<Byte>, value: seq<Byte>)

  // --- Matching ---------------------------------------------------------------------------

  /** The captures of the segments on a path tail, which starts with the slash before its next segment. */
  function MatchTail(segments: seq<Segment>, tail: seq<Byte>): (r: Option<seq<Capture>>)
    ensures r.Some? ==> |r.value| <= ParameterCount(segments)
    decreases |segments|
  {
    if segments == [] then if tail == [] then Some([]) else None
    else if tail == [] || tail[0] != SLASH then None
    else if segments[0].kind.CatchAll? then
      if |tail| == 1 then None else Some([Capture(segments[0].text, tail[1..])])
    else
      var end := SlashFrom(tail, 1);
      var actual := tail[1..end];
      if actual == [] || (segments[0].kind.Literal? && actual != segments[0].text) then None
      else
        var rest := MatchTail(segments[1..], tail[end..]);
        if rest.None? || segments[0].kind.Literal? then rest
        else Some([Capture(segments[0].text, actual)] + rest.value)
  }

  function MatchPath(segments: seq<Segment>, path: seq<Byte>): (r: Option<seq<Capture>>)
    ensures r.Some? ==> |r.value| <= ParameterCount(segments)
  {
    if path == [] || path[0] != SLASH then None
    else if segments == [] then if path == [SLASH] then Some([]) else None
    else if |path| > 1 && path[|path| - 1] == SLASH then None
    else MatchTail(segments, path)
  }

  predicate Matches(segments: seq<Segment>, path: seq<Byte>) {
    MatchPath(segments, path).Some?
  }

  // --- Instances --------------------------------------------------------------------------

  /** What a placeholder may stand for. */
  predicate ValueOk(kind: Kind, value: seq<Byte>) {
    value != [] && if kind.CatchAll? then value[|value| - 1] != SLASH else SLASH !in value
  }

  /** One value for each placeholder, in order. */
  predicate ValuesOk(segments: seq<Segment>, values: seq<seq<Byte>>) {
    if segments == [] then values == []
    else if segments[0].kind.Literal? then ValuesOk(segments[1..], values)
    else values != [] && ValueOk(segments[0].kind, values[0]) && ValuesOk(segments[1..], values[1..])
  }

  /** The segments with their placeholders replaced, each behind a slash. */
  function Fill(segments: seq<Segment>, values: seq<seq<Byte>>): seq<Byte>
    requires ValuesOk(segments, values)
  {
    if segments == [] then []
    else if segments[0].kind.Literal? then [SLASH] + segments[0].text + Fill(segments[1..], values)
    else [SLASH] + values[0] + Fill(segments[1..], values[1..])
  }

  /** The path a route stands for at these values. */
  function Instance(segments: seq<Segment>, values: seq<seq<Byte>>): seq<Byte>
    requires ValuesOk(segments, values)
  {
    if segments == [] then [SLASH] else Fill(segments, values)
  }

  /** The placeholders with their values. */
  function Captures(segments: seq<Segment>, values: seq<seq<Byte>>): (cs: seq<Capture>)
    requires ValuesOk(segments, values)
    ensures |cs| == |values| == ParameterCount(segments)
  {
    if segments == [] then []
    else if segments[0].kind.Literal? then Captures(segments[1..], values)
    else [Capture(segments[0].text, values[0])] + Captures(segments[1..], values[1..])
  }

  function ValuesOf(captures: seq<Capture>): (vs: seq<seq<Byte>>)
    ensures |vs| == |captures| && forall k | 0 <= k < |vs| :: vs[k] == captures[k].value
  {
    seq(|captures|, k requires 0 <= k < |captures| => captures[k].value)
  }

  /** Literals are not empty and hold no slash, and only the last segment is a catch-all. */
  predicate Simple(segments: seq<Segment>) {
    segments == []
    || (&& (segments[0].kind.Literal? ==> segments[0].text != [] && SLASH !in segments[0].text)
        && (segments[0].kind.CatchAll? ==> |segments| == 1)
        && Simple(segments[1..]))
  }

  lemma {:induction false} RoutesAreSimple(segments: seq<Segment>)
    requires RouteOk(segments)
    ensures Simple(segments)
  {
    if segments != [] {
      RouteTail(segments);
      RoutesAreSimple(segments[1..]);
      assert segments[0].kind.CatchAll? ==> |segments| == 1;
    }
  }

  lemma FirstPiece(piece: seq<Byte>, rest: seq<Byte>)
    requires piece != [] && SLASH !in piece && (rest != [] ==> rest[0] == SLASH)
    ensures var tail := [SLASH] + piece + rest;
            && SlashFrom(tail, 1) == 1 + |piece|
            && tail[1..1 + |piece|] == piece
            && tail[1 + |piece|..] == rest
  {
    var tail := [SLASH] + piece + rest;
    assert tail[1..1 + |piece|] == piece;
    assert tail[1 + |piece|..] == rest;
    SlashFromIs(tail, 1, 1 + |piece|);
  }

  lemma FillStart(segments: seq<Segment>, values: seq<seq<Byte>>)
    requires ValuesOk(segments, values)
    ensures var f := Fill(segments, values); if segments == [] then f == [] else f != [] && f[0] == SLASH
  {
  }

  lemma CatchAllFilled(segments: seq<Segment>, values: seq<seq<Byte>>)
    requires Simple(segments) && ValuesOk(segments, values) && segments != [] && segments[0].kind.CatchAll?
    ensures Fill(segments, values) == [SLASH] + values[0] && values == [values[0]]
    ensures Captures(segments, values) == [Capture(segments[0].text, values[0])]
  {
    assert segments[1..] == [] && values[1..] == [];
  }

  /** A filled route matches, and captures the values it was filled with. */
  lemma {:induction false} FillMatches(segments: seq<Segment>, values: seq<seq<Byte>>)
    requires Simple(segments) && ValuesOk(segments, values)
    ensures MatchTail(segments, Fill(segments, values)) == Some(Captures(segments, values))
  {
    hide ValueOk, SlashFrom;
    if segments == [] {
    } else if segments[0].kind.CatchAll? {
      CatchAllFilled(segments, values);
      PieceOk(segments[0].kind, values[0]);
      assert ([SLASH] + values[0])[1..] == values[0];
    } else {
      var literal := segments[0].kind.Literal?;
      var piece := if literal then segments[0].text else values[0];
      var rest := if literal then values else values[1..];
      PieceOk(segments[0].kind, piece);
      FillStart(segments[1..], rest);
      FirstPiece(piece, Fill(segments[1..], rest));
      FillMatches(segments[1..], rest);
    }
  }

  lemma PieceOk(kind: Kind, piece: seq<Byte>)
    ensures ValueOk(kind, piece) ==> piece != [] && (!kind.CatchAll? ==> SLASH !in piece)
  {
  }

  lemma {:induction false} FillEnd(segments: seq<Segment>, values: seq<seq<Byte>>)
    requires Simple(segments) && ValuesOk(segments, values) && segments != []
    ensures var f := Fill(segments, values); |f| > 1 && f[|f| - 1] != SLASH
  {
    var literal := segments[0].kind.Literal?;
    var piece := if literal then segments[0].text else values[0];
    var rest := if literal then values else values[1..];
    assert piece[|piece| - 1] in piece;
    if |segments| > 1 {
      FillEnd(segments[1..], rest);
    } else {
      assert Fill(segments[1..], rest) == [];
    }
  }

  /** `captures` are what the route captures on `tail`, and filling it with their values gives `tail` back. */
  predicate Fills(segments: seq<Segment>, tail: seq<Byte>, captures: seq<Capture>) {
    var values := ValuesOf(captures);
    ValuesOk(segments, values) && Fill(segments, values) == tail && Captures(segments, values) == captures
  }

  lemma {:induction false} FillsCatchAll(segments: seq<Segment>, tail: seq<Byte>)
    requires Simple(segments) && segments != [] && segments[0].kind.CatchAll?
    requires |tail| > 1 && tail[0] == SLASH && tail[|tail| - 1] != SLASH
    ensures Fills(segments, tail, [Capture(segments[0].text, tail[1..])])
  {
    var captures := [Capture(segments[0].text, tail[1..])];
    assert segments[1..] == [] && ValuesOf(captures) == [tail[1..]];
    assert tail == [SLASH] + tail[1..] + [];
    assert captures == captures + [];
  }

  lemma {:induction false} FillsParameter(
    segments: seq<Segment>, piece: seq<Byte>, rest: seq<Byte>, captures: seq<Capture>)
    requires segments != [] && segments[0].kind.Parameter? && ValueOk(Parameter, piece)
    requires Fills(segments[1..], rest, captures)
    ensures Fills(segments, [SLASH] + piece + rest, [Capture(segments[0].text, piece)] + captures)
  {
    assert ValuesOf([Capture(segments[0].text, piece)] + captures) == [piece] + ValuesOf(captures);
    Cons(piece, ValuesOf(captures));
  }

  lemma {:induction false} FillsLiteral(segments: seq<Segment>, rest: seq<Byte>, captures: seq<Capture>)
    requires segments != [] && segments[0].kind.Literal?
    requires Fills(segments[1..], rest, captures)
    ensures Fills(segments, [SLASH] + segments[0].text + rest, captures)
  {
  }

  lemma FillsNothing()
    ensures Fills([], [], [])
  {
  }

  /** A tail that matches is the route filled with the captured values. */
  lemma {:induction false} MatchFills(segments: seq<Segment>, tail: seq<Byte>)
    requires MatchTail(segments, tail).Some?
    requires Simple(segments) && (tail != [] ==> tail[|tail| - 1] != SLASH)
    ensures Fills(segments, tail, MatchTail(segments, tail).value)
  {
    hide Fills, SlashFrom;
    if segments == [] {
      FillsNothing();
    } else if segments[0].kind.CatchAll? {
      FillsCatchAll(segments, tail);
    } else {
      var end := SlashFrom(tail, 1);
      var rest := MatchTail(segments[1..], tail[end..]).value;
      MatchFills(segments[1..], tail[end..]);
      assert tail == [SLASH] + tail[1..end] + tail[end..];
      if segments[0].kind.Literal? {
        FillsLiteral(segments, tail[end..], rest);
      } else {
        FillsParameter(segments, tail[1..end], tail[end..], rest);
      }
    }
  }

  /** Matching inverts instantiation: from the path to the values. */
  lemma MatchedIsInstance(segments: seq<Segment>, path: seq<Byte>)
    requires RouteOk(segments) && Matches(segments, path)
    ensures var captures := MatchPath(segments, path).value;
            var values := ValuesOf(captures);
            && ValuesOk(segments, values)
            && path == Instance(segments, values)
            && captures == Captures(segments, values)
            && |captures| == ParameterCount(segments) <= MAX_PARAMETERS
  {
    RoutesAreSimple(segments);
    if segments != [] {
      MatchFills(segments, path);
    }
  }

  /** Matching inverts instantiation: from the values to the path. */
  lemma InstanceMatches(segments: seq<Segment>, values: seq<seq<Byte>>)
    requires RouteOk(segments) && ValuesOk(segments, values)
    ensures MatchPath(segments, Instance(segments, values)) == Some(Captures(segments, values))
  {
    RoutesAreSimple(segments);
    if segments != [] {
      FillMatches(segments, values);
      FillEnd(segments, values);
      FillStart(segments, values);
    }
  }

  /** A route matches exactly its instances. */
  lemma MatchesIff(segments: seq<Segment>, path: seq<Byte>)
    requires RouteOk(segments)
    ensures Matches(segments, path)
            <==> exists values :: ValuesOk(segments, values) && path == Instance(segments, values)
  {
    if Matches(segments, path) {
      MatchedIsInstance(segments, path);
    }
    if values :| ValuesOk(segments, values) && path == Instance(segments, values) {
      InstanceMatches(segments, values);
    }
  }

  /** The names of the placeholders, in order. */
  function Placeholders(segments: seq<Segment>): (names: seq<seq<Byte>>)
    ensures |names| == ParameterCount(segments)
  {
    if segments == [] then []
    else if segments[0].kind.Literal? then Placeholders(segments[1..])
    else [segments[0].text] + Placeholders(segments[1..])
  }

  lemma {:induction false} CapturedNames(segments: seq<Segment>, values: seq<seq<Byte>>, k: nat)
    requires ValuesOk(segments, values) && k < |values|
    ensures Captures(segments, values)[k] == Capture(Placeholders(segments)[k], values[k])
  {
    if segments[0].kind.Literal? {
      CapturedNames(segments[1..], values, k);
    } else if k > 0 {
      CapturedNames(segments[1..], values[1..], k - 1);
    }
  }

  lemma {:induction false} PlaceholdersAreTaken(segments: seq<Segment>, name: seq<Byte>)
    ensures name in Placeholders(segments) <==> NameTaken(segments, name)
  {
    if segments != [] {
      PlaceholdersAreTaken(segments[1..], name);
      NameTakenCons(segments, name);
    }
  }

  lemma NameTakenCons(segments: seq<Segment>, name: seq<Byte>)
    requires segments != []
    ensures NameTaken(segments, name)
            <==> (!segments[0].kind.Literal? && segments[0].text == name) || NameTaken(segments[1..], name)
  {
    if k :| 0 <= k < |segments| && !segments[k].kind.Literal? && segments[k].text == name {
      if k > 0 {
        assert segments[1..][k - 1] == segments[k];
      }
    }
    if k :| 0 <= k < |segments[1..]| && !segments[1..][k].kind.Literal? && segments[1..][k].text == name {
      assert segments[k + 1] == segments[1..][k];
    }
  }

  /** No name is captured twice. */
  lemma {:induction false} PlaceholdersDistinct(segments: seq<Segment>, i: nat, j: nat)
    requires RouteOk(segments) && i < j < |Placeholders(segments)|
    ensures Placeholders(segments)[i] != Placeholders(segments)[j]
  {
    RouteTail(segments);
    if segments[0].kind.Literal? {
      PlaceholdersDistinct(segments[1..], i, j);
    } else if i > 0 {
      PlaceholdersDistinct(segments[1..], i - 1, j - 1);
    } else {
      var rest := Placeholders(segments[1..]);
      PlaceholdersAreTaken(segments[1..], rest[j - 1]);
      assert rest[j - 1] in rest;
    }
  }

  // --- Shapes -----------------------------------------------------------------------------

  predicate SameSegmentShape(a: Segment, b: Segment) {
    a.kind == b.kind && (a.kind.Literal? ==> a.text == b.text)
  }

  predicate SameShape(a: seq<Segment>, b: seq<Segment>) {
    |a| == |b| && forall k | 0 <= k < |a| :: SameSegmentShape(a[k], b[k])
  }

  lemma SameShapeCons(a: seq<Segment>, b: seq<Segment>)
    requires a != [] && b != []
    ensures SameShape(a, b) <==> SameSegmentShape(a[0], b[0]) && SameShape(a[1..], b[1..])
  {
    if SameSegmentShape(a[0], b[0]) && SameShape(a[1..], b[1..]) {
      forall k | 0 <= k < |a| ensures SameSegmentShape(a[k], b[k]) {
        if k > 0 {
          assert SameSegmentShape(a[1..][k - 1], b[1..][k - 1]);
        }
      }
    }
  }

  lemma {:induction false} SameShapeSameTails(a: seq<Segment>, b: seq<Segment>, tail: seq<Byte>)
    requires SameShape(a, b)
    ensures MatchTail(a, tail).Some? <==> MatchTail(b, tail).Some?
    decreases |a|
  {
    if a != [] && tail != [] && tail[0] == SLASH && !a[0].kind.CatchAll? {
      SameShapeCons(a, b);
      SameShapeSameTails(a[1..], b[1..], tail[SlashFrom(tail, 1)..]);
    }
  }

  const LETTER: Byte := 'a' as int

  /** Some values for the placeholders. */
  function Samples(segments: seq<Segment>): (values: seq<seq<Byte>>)
    ensures ValuesOk(segments, values)
  {
    if segments == [] then []
    else if segments[0].kind.Literal? then Samples(segments[1..])
    else [[LETTER]] + Samples(segments[1..])
  }

  /** A tail that exactly one of the two routes matches. */
  predicate Separates(a: seq<Segment>, b: seq<Segment>, tail: seq<Byte>) {
    && (MatchTail(a, tail).Some? <==> MatchTail(b, tail).None?)
    && (tail != [] ==> tail[0] == SLASH && tail[|tail| - 1] != SLASH)
  }

  lemma MatchOneMore(segments: seq<Segment>, piece: seq<Byte>, tail: seq<Byte>)
    requires segments != [] && !segments[0].kind.CatchAll?
    requires piece != [] && SLASH !in piece && (tail != [] ==> tail[0] == SLASH)
    ensures MatchTail(segments, [SLASH] + piece + tail).Some?
            <==> (segments[0].kind.Literal? ==> piece == segments[0].text) && MatchTail(segments[1..], tail).Some?
  {
    hide SlashFrom;
    FirstPiece(piece, tail);
  }

  /** The route in front matches a sample that the route behind cannot match. */
  lemma SampleTail(segments: seq<Segment>) returns (tail: seq<Byte>)
    requires Simple(segments)
    ensures MatchTail(segments, tail).Some?
    ensures tail != [] ==> tail[0] == SLASH && tail[|tail| - 1] != SLASH
  {
    tail := Fill(segments, Samples(segments));
    FillMatches(segments, Samples(segments));
    FillStart(segments, Samples(segments));
    if segments != [] {
      FillEnd(segments, Samples(segments));
    }
  }

  lemma EndsWell(piece: seq<Byte>, tail: seq<Byte>)
    requires piece != [] && SLASH !in piece && (tail != [] ==> tail[|tail| - 1] != SLASH)
    ensures var whole := [SLASH] + piece + tail; whole[0] == SLASH && whole[|whole| - 1] != SLASH
  {
    assert piece[|piece| - 1] in piece;
  }

  /** Two first segments of different shape, neither of them a catch-all. */
  lemma SeparateHeads(a: seq<Segment>, b: seq<Segment>) returns (tail: seq<Byte>)
    requires Simple(a) && Simple(b) && a != [] && b != []
    requires a[0].kind.Literal? && !b[0].kind.CatchAll? && !SameSegmentShape(a[0], b[0])
    ensures Separates(a, b, tail)
  {
    if b[0].kind.Literal? {
      var rest := SampleTail(a[1..]);
      tail := [SLASH] + a[0].text + rest;
      MatchOneMore(a, a[0].text, rest);
      MatchOneMore(b, a[0].text, rest);
      EndsWell(a[0].text, rest);
    } else {
      var rest := SampleTail(b[1..]);
      var piece := a[0].text + [LETTER];
      tail := [SLASH] + piece + rest;
      MatchOneMore(a, piece, rest);
      MatchOneMore(b, piece, rest);
      EndsWell(piece, rest);
    }
  }

  /** A catch-all against a first segment of another kind. */
  lemma SeparateCatchAll(a: seq<Segment>, b: seq<Segment>) returns (tail: seq<Byte>)
    requires Simple(a) && Simple(b) && a != [] && b != []
    requires !a[0].kind.CatchAll? && b[0].kind.CatchAll?
    ensures Separates(a, b, tail)
  {
    hide SlashFrom;
    var piece := if a[0].kind.Literal? then a[0].text + [LETTER] else [LETTER];
    var rest: seq<Byte> := if a[0].kind.Parameter? && |a| == 1 then [SLASH, LETTER] else [];
    tail := [SLASH] + piece + rest;
    MatchOneMore(a, piece, rest);
    EndsWell(piece, rest);
    assert a[0].kind.Parameter? ==> MatchTail(a[1..], rest).None?;
  }

  lemma SeparateSymmetric(a: seq<Segment>, b: seq<Segment>, tail: seq<Byte>)
    requires Separates(a, b, tail)
    ensures Separates(b, a, tail)
  {
  }

  /** Routes of different shape are told apart by some path. */
  lemma {:induction false} Separate(a: seq<Segment>, b: seq<Segment>) returns (tail: seq<Byte>)
    requires Simple(a) && Simple(b) && !SameShape(a, b)
    ensures Separates(a, b, tail)
  {
    hide Separates, Simple;
    if a == [] || b == [] {
      tail := [];
      SeparateEnd(a, b);
    } else if !SameSegmentShape(a[0], b[0]) {
      if a[0].kind.CatchAll? {
        tail := SeparateCatchAll(b, a);
        SeparateSymmetric(b, a, tail);
      } else if b[0].kind.CatchAll? {
        tail := SeparateCatchAll(a, b);
      } else if a[0].kind.Literal? {
        tail := SeparateHeads(a, b);
      } else {
        tail := SeparateHeads(b, a);
        SeparateSymmetric(b, a, tail);
      }
    } else {
      SameShapeCons(a, b);
      SimpleTail(a);
      SimpleTail(b);
      tail := Separate(a[1..], b[1..]);
      tail := SeparateBehind(a, b, tail);
    }
  }

  lemma SimpleTail(a: seq<Segment>)
    requires Simple(a) && a != []
    ensures Simple(a[1..]) && (a[0].kind.CatchAll? ==> a[1..] == [])
    ensures a[0].kind.Literal? ==> a[0].text != [] && SLASH !in a[0].text
  {
  }

  lemma SeparateEnd(a: seq<Segment>, b: seq<Segment>)
    requires !SameShape(a, b) && (a == [] || b == [])
    ensures Separates(a, b, [])
  {
  }

  lemma SeparateBehind(a: seq<Segment>, b: seq<Segment>, rest: seq<Byte>) returns (tail: seq<Byte>)
    requires Simple(a) && Simple(b) && a != [] && b != []
    requires SameSegmentShape(a[0], b[0]) && Separates(a[1..], b[1..], rest)
    ensures Separates(a, b, tail)
  {
    var piece := if a[0].kind.Literal? then a[0].text else [LETTER];
    tail := [SLASH] + piece + rest;
    MatchOneMore(a, piece, rest);
    MatchOneMore(b, piece, rest);
    EndsWell(piece, rest);
  }

  /** Two routes have the same shape exactly when they match the same paths. */
  lemma SameShapeIff(a: seq<Segment>, b: seq<Segment>)
    requires RouteOk(a) && RouteOk(b)
    ensures SameShape(a, b) <==> forall path :: Matches(a, path) <==> Matches(b, path)
  {
    RoutesAreSimple(a);
    RoutesAreSimple(b);
    if SameShape(a, b) {
      forall path ensures Matches(a, path) <==> Matches(b, path) {
        SameShapeSameTails(a, b, path);
      }
    } else {
      var tail := Separate(a, b);
      var path := if tail == [] then [SLASH] else tail;
      assert Matches(a, path) != Matches(b, path) by {
        if tail == [] {
          assert MatchTail(a, []).Some? ==> a == [];
          assert MatchTail(b, []).Some? ==> b == [];
        } else {
          assert a == [] || b == [] ==> tail != [];
        }
      }
    }
  }

  // --- The order between routes -----------------------------------------------------------

  function Precedence(kind: Kind): nat {
    match kind
    case Literal => 3
    case Parameter => 2
    case CatchAll => 1
  }

  predicate MoreSpecific(candidate: seq<Segment>, current: seq<Segment>) {
    if candidate == [] then false
    else if current == [] then true
    else if candidate[0].kind != current[0].kind then
      Precedence(candidate[0].kind) > Precedence(current[0].kind)
    else MoreSpecific(candidate[1..], current[1..])
  }

  predicate Tied(a: seq<Segment>, b: seq<Segment>) {
    !MoreSpecific(a, b) && !MoreSpecific(b, a)
  }

  lemma {:induction false} MoreSpecificIsStrict(a: seq<Segment>, b: seq<Segment>)
    ensures !(MoreSpecific(a, b) && MoreSpecific(b, a))
  {
    if a != [] && b != [] && a[0].kind == b[0].kind {
      MoreSpecificIsStrict(a[1..], b[1..]);
    }
  }

  lemma {:induction false} MoreSpecificIsTransitive(a: seq<Segment>, b: seq<Segment>, c: seq<Segment>)
    requires MoreSpecific(a, b) && !MoreSpecific(c, b)
    ensures MoreSpecific(a, c)
  {
    if b != [] && c != [] && a[0].kind == b[0].kind == c[0].kind {
      MoreSpecificIsTransitive(a[1..], b[1..], c[1..]);
    }
  }

  lemma {:induction false} SameShapeIsTied(a: seq<Segment>, b: seq<Segment>)
    requires SameShape(a, b)
    ensures Tied(a, b)
  {
    if a != [] {
      SameShapeCons(a, b);
      SameShapeIsTied(a[1..], b[1..]);
    }
  }

  /** Routes that match a common path and are tied have the same shape. */
  lemma {:induction false} TiedTails(a: seq<Segment>, b: seq<Segment>, tail: seq<Byte>)
    requires Simple(a) && Simple(b) && Tied(a, b)
    requires MatchTail(a, tail).Some? && MatchTail(b, tail).Some?
    ensures SameShape(a, b)
  {
    hide SlashFrom;
    if a != [] && b != [] {
      SameShapeCons(a, b);
      if !a[0].kind.CatchAll? {
        TiedTails(a[1..], b[1..], tail[SlashFrom(tail, 1)..]);
      }
    }
  }

  lemma TiedMatchesHaveOneShape(a: seq<Segment>, b: seq<Segment>, path: seq<Byte>)
    requires RouteOk(a) && RouteOk(b) && Tied(a, b)
    requires Matches(a, path) && Matches(b, path)
    ensures SameShape(a, b)
  {
    RoutesAreSimple(a);
    RoutesAreSimple(b);
    if a != [] && b != [] {
      TiedTails(a, b, path);
    }
  }

  // --- Narrower routes --------------------------------------------------------------------

  /** A tail of a path that some route may match. */
  predicate TailOk(tail: seq<Byte>) {
    tail != [] ==> tail[0] == SLASH && tail[|tail| - 1] != SLASH
  }

  ghost predicate TailsIncluded(a: seq<Segment>, b: seq<Segment>) {
    forall tail | TailOk(tail) && MatchTail(a, tail).Some? :: MatchTail(b, tail).Some?
  }

  /** Every path that `a` matches is matched by `b`. */
  ghost predicate Included(a: seq<Segment>, b: seq<Segment>) {
    forall path | Matches(a, path) :: Matches(b, path)
  }

  /** A path that `a` matches and `b` does not, when their first segments differ and `a` does not rank higher. */
  lemma WiderHead(a: seq<Segment>, b: seq<Segment>) returns (tail: seq<Byte>)
    requires Simple(a) && Simple(b) && a != [] && b != [] && a[0].kind != b[0].kind
    requires a[0].kind.CatchAll? || b[0].kind.Literal?
    ensures TailOk(tail) && MatchTail(a, tail).Some? && MatchTail(b, tail).None?
  {
    hide SlashFrom;
    if a[0].kind.CatchAll? {
      tail := SeparateCatchAll(b, a);
      assert tail != [];
    } else {
      var piece := b[0].text + [LETTER];
      var rest := SampleTail(a[1..]);
      tail := [SLASH] + piece + rest;
      MatchOneMore(a, piece, rest);
      MatchOneMore(b, piece, rest);
      EndsWell(piece, rest);
    }
  }

  lemma OneTailBehind(a: seq<Segment>, b: seq<Segment>, piece: seq<Byte>, tail: seq<Byte>)
    requires a != [] && b != [] && !a[0].kind.CatchAll? && !b[0].kind.CatchAll? && TailsIncluded(a, b)
    requires piece != [] && SLASH !in piece && (a[0].kind.Literal? ==> piece == a[0].text)
    requires TailOk(tail) && MatchTail(a[1..], tail).Some?
    ensures b[0].kind.Literal? ==> piece == b[0].text
    ensures MatchTail(b[1..], tail).Some?
  {
    hide MatchTail, SlashFrom;
    MatchOneMore(a, piece, tail);
    MatchOneMore(b, piece, tail);
    EndsWell(piece, tail);
    assert TailOk([SLASH] + piece + tail);
  }

  /** Where the first segments are of one kind, inclusion carries over to the tails. */
  lemma IncludedBehind(a: seq<Segment>, b: seq<Segment>)
    requires Simple(a) && Simple(b) && a != [] && b != [] && TailsIncluded(a, b)
    requires a[0].kind == b[0].kind && !a[0].kind.CatchAll?
    ensures SameSegmentShape(a[0], b[0]) && TailsIncluded(a[1..], b[1..])
  {
    hide MatchTail, Simple;
    SimpleTail(a);
    var piece := if a[0].kind.Literal? then a[0].text else [LETTER];
    var sample := SampleTail(a[1..]);
    OneTailBehind(a, b, piece, sample);
    forall tail | TailOk(tail) && MatchTail(a[1..], tail).Some? ensures MatchTail(b[1..], tail).Some? {
      OneTailBehind(a, b, piece, tail);
    }
  }

  lemma NothingIncluded(b: seq<Segment>)
    requires TailsIncluded([], b)
    ensures b == []
  {
    assert TailOk([]) && MatchTail([], []).Some?;
  }

  lemma {:induction false} IncludedTailIsMoreSpecific(a: seq<Segment>, b: seq<Segment>)
    requires Simple(a) && Simple(b) && TailsIncluded(a, b) && !SameShape(a, b)
    ensures MoreSpecific(a, b)
    decreases |a|
  {
    hide SlashFrom;
    if a == [] {
      NothingIncluded(b);
    } else if b != [] && a[0].kind != b[0].kind {
      if a[0].kind.CatchAll? || b[0].kind.Literal? {
        var tail := WiderHead(a, b);
      }
    } else if b != [] && !a[0].kind.CatchAll? {
      IncludedBehind(a, b);
      SameShapeCons(a, b);
      SimpleTail(a);
      SimpleTail(b);
      IncludedTailIsMoreSpecific(a[1..], b[1..]);
    }
  }

  lemma PathsAndTails(segments: seq<Segment>, path: seq<Byte>)
    requires Simple(segments) && segments != []
    ensures Matches(segments, path) ==> TailOk(path) && MatchTail(segments, path).Some?
    ensures TailOk(path) && MatchTail(segments, path).Some? ==> Matches(segments, path)
  {
  }

  /** A route whose paths are properly included in those of another is the more specific of the two. */
  lemma IncludedIsMoreSpecific(a: seq<Segment>, b: seq<Segment>)
    requires RouteOk(a) && RouteOk(b) && Included(a, b) && !SameShape(a, b)
    ensures MoreSpecific(a, b)
  {
    hide SlashFrom, Simple, Matches;
    RoutesAreSimple(a);
    RoutesAreSimple(b);
    var sample := SampleOf(a);
    OnlyTheRoot(a, sample);
    OnlyTheRoot(b, sample);
    if a != [] && b != [] {
      forall tail | TailOk(tail) && MatchTail(a, tail).Some? ensures MatchTail(b, tail).Some? {
        PathsAndTails(a, tail);
        PathsAndTails(b, tail);
      }
      IncludedTailIsMoreSpecific(a, b);
    }
  }

  /** Every route matches some path. */
  lemma SampleOf(segments: seq<Segment>) returns (path: seq<Byte>)
    requires RouteOk(segments)
    ensures Matches(segments, path)
  {
    path := Instance(segments, Samples(segments));
    InstanceMatches(segments, Samples(segments));
  }

  /** The root is matched by the route without segments, and that route matches nothing else. */
  lemma OnlyTheRoot(segments: seq<Segment>, path: seq<Byte>)
    requires Matches(segments, path)
    ensures path == [SLASH] <==> segments == []
  {
    if segments != [] && path == [SLASH] {
      assert SlashFrom(path, 1) == 1;
    }
  }
}
