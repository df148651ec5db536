/** Parsing, matching and comparing routes as the loops that do it. */
module RouteMethods {
  import opened Bytes
  import opened Route
  import opened RouteMatch
  import opened Matcher

  method ValidParameterName(value: seq<Byte>) returns (ok: bool)
    ensures ok == NameOk(value)
  {
    if value == [] {
      return false;
    }
    for index := 0 to |value|
      invariant forall k | 0 <= k < index :: NameByte(value[k])
    {
      if !NameByte(value[index]) {
        return false;
      }
    }
    return true;
  }

  method FindSlash(source: seq<Byte>, offset: nat) returns (separator: nat)
    requires offset <= |source|
    ensures separator == SlashFrom(source, offset)
  {
    separator := offset;
    while separator < |source| && source[separator] != SLASH
      invariant offset <= separator <= |source|
      invariant SlashFrom(source, separator) == SlashFrom(source, offset)
    {
      separator := separator + 1;
    }
  }

  method ParseRoute(source: seq<Byte>) returns (result: Pattern)
    ensures result == ParsePattern(source)
  {
    hide ScanSegment, SlashFrom;
    if source == [] || source[0] != SLASH {
      return Pattern(source, [], 0, MissingLeadingSlash);
    }
    if source == [SLASH] {
      return Pattern(source, [], 0, NoError);
    }
    if source[|source| - 1] == SLASH {
      return Pattern(source, [], 0, TrailingSlash);
    }
    var segments: seq<Segment> := [];
    var parameterCount := 0;
    var offset := 1;
    while offset <= |source|
      invariant 1 <= offset <= |source|
      invariant |segments| <= MAX_SEGMENTS && parameterCount == ParameterCount(segments)
      invariant ParseFrom(source, offset, segments) == ParsePattern(source)
      decreases |source| - offset
    {
      if |segments| == MAX_SEGMENTS {
        return Pattern(source, segments, parameterCount, TooManySegments);
      }
      var separator := FindSlash(source, offset);
      var scanned := ParseSegment(source[offset..separator], separator == |source|, segments, parameterCount);
      if scanned.Bad? {
        return Pattern(source, segments, parameterCount, scanned.error);
      }
      ParameterCountSnoc(segments, scanned.segment);
      segments := segments + [scanned.segment];
      if !scanned.segment.kind.Literal? {
        parameterCount := parameterCount + 1;
      }
      if separator == |source| {
        return Pattern(source, segments, parameterCount, NoError);
      }
      offset := separator + 1;
    }
    assert false;
  }

  method ParseSegment(text: seq<Byte>, last: bool, prior: seq<Segment>, parameterCount: nat) returns (r: Scanned)
    requires parameterCount == ParameterCount(prior)
    ensures r == ScanSegment(text, last, prior)
  {
    if text == [] {
      return Bad(EmptySegment);
    }
    if text[0] == OPEN_BRACE || text[|text| - 1] == CLOSE_BRACE {
      if |text| < 3 || text[0] != OPEN_BRACE || text[|text| - 1] != CLOSE_BRACE {
        return Bad(UnmatchedBrace);
      }
      var name := text[1..|text| - 1];
      var kind := Parameter;
      if name[0] == STAR {
        kind := CatchAll;
        name := name[1..];
        if !last {
          return Bad(CatchAllNotFinal);
        }
      }
      var valid := ValidParameterName(name);
      if !valid {
        return Bad(InvalidParameterName);
      }
      if parameterCount == MAX_PARAMETERS {
        return Bad(TooManyParameters);
      }
      for index := 0 to |prior|
        invariant forall k | 0 <= k < index :: prior[k].kind.Literal? || prior[k].text != name
      {
        if !prior[index].kind.Literal? && prior[index].text == name {
          return Bad(DuplicateParameterName);
        }
      }
      return Good(Segment(kind, name));
    }
    if OPEN_BRACE in text || CLOSE_BRACE in text {
      return Bad(UnmatchedBrace);
    }
    return Good(Segment(Literal, text));
  }

  /** `done`, and behind it what the rest of the route captures. */
  function Prefixed(done: seq<Capture>, rest: Option<seq<Capture>>): Option<seq<Capture>> {
    if rest.None? then None else Some(done + rest.value)
  }

  method MatchRoute(pattern: Pattern, path: seq<Byte>) returns (result: Option<seq<Capture>>)
    requires pattern.Valid() ==> RouteOk(pattern.segments)
    ensures result == if pattern.Valid() then MatchPath(pattern.segments, path) else None
  {
    if !pattern.Valid() || path == [] || path[0] != SLASH {
      return None;
    }
    var segments := pattern.segments;
    if |segments| == 0 {
      return if path == [SLASH] then Some([]) else None;
    }
    if |path| > 1 && path[|path| - 1] == SLASH {
      return None;
    }
    result := MatchSegments(segments, path);
  }

  method MatchSegments(segments: seq<Segment>, path: seq<Byte>) returns (result: Option<seq<Capture>>)
    requires RouteOk(segments) && segments != []
    requires path != [] && path[0] == SLASH
    ensures result == MatchTail(segments, path)
  {
    hide SlashFrom, RouteOk, MatchTail, ParameterCount;
    RouteParameters(segments);
    var captures := new Capture[MAX_PARAMETERS];
    var captureCount := 0;
    var offset := 1;
    var index := 0;
    MatchStart(segments, path);
    assert captures[..0] == [];
    while index < |segments|
      invariant index < |segments| && 1 <= offset <= |path| && path[offset - 1] == SLASH
      invariant captureCount + ParameterCount(segments[index..]) == ParameterCount(segments)
      invariant captureCount <= captures.Length
      invariant Prefixed(captures[..captureCount], MatchTail(segments[index..], path[offset - 1..]))
             == MatchTail(segments, path)
      decreases |segments| - index
    {
      var expected := segments[index];
      MatchStep(segments, index, path, offset);
      if expected.kind.CatchAll? {
        if offset >= |path| {
          return None;
        }
        captures[captureCount] := Capture(expected.text, path[offset..]);
        captureCount := captureCount + 1;
        assert captures[..captureCount] == captures[..captureCount - 1] + [captures[captureCount - 1]];
        return Some(captures[..captureCount]);
      }
      var separator := FindSlash(path, offset);
      var actual := path[offset..separator];
      if actual == [] {
        return None;
      }
      if expected.kind.Literal? {
        if actual != expected.text {
          return None;
        }
      } else {
        ghost var before := captures[..captureCount];
        captures[captureCount] := Capture(expected.text, actual);
        captureCount := captureCount + 1;
        assert captures[..captureCount] == before + [Capture(expected.text, actual)];
        PrefixedSnoc(before, Capture(expected.text, actual), MatchTail(segments[index + 1..], path[separator..]));
      }
      index := index + 1;
      if index == |segments| {
        if separator != |path| {
          return None;
        }
        break;
      }
      if separator == |path| {
        return None;
      }
      offset := separator + 1;
    }
    assert captures[..captureCount] + [] == captures[..captureCount];
    return Some(captures[..captureCount]);
  }

  method SameRouteShape(left: Pattern, right: Pattern) returns (same: bool)
    ensures same == SameShape(left.segments, right.segments)
  {
    if |left.segments| != |right.segments| {
      return false;
    }
    for index := 0 to |left.segments|
      invariant forall k | 0 <= k < index :: SameSegmentShape(left.segments[k], right.segments[k])
    {
      var a, b := left.segments[index], right.segments[index];
      if a.kind != b.kind {
        return false;
      }
      if a.kind.Literal? && a.text != b.text {
        return false;
      }
    }
    return true;
  }

  method AppendBytes(hash: bv64, bytes: seq<Byte>, ghost done: seq<Byte>) returns (r: bv64)
    requires hash == Fnv(FNV_OFFSET, done)
    ensures r == Fnv(FNV_OFFSET, done + bytes)
  {
    hide FnvStep;
    r := hash;
    assert done + bytes[..0] == done;
    for index := 0 to |bytes|
      invariant r == Fnv(FNV_OFFSET, done + bytes[..index])
    {
      r := FnvStep(r, bytes[index]);
      assert done + bytes[..index + 1] == done + bytes[..index] + [bytes[index]];
    }
    assert done + bytes[..|bytes|] == done + bytes;
  }

  method RouteShapeHash(route: Pattern) returns (hash: bv64)
    ensures hash == ShapeHash(route.segments)
  {
    hide FnvStep, Fnv;
    var segments := route.segments;
    hash := AppendFirst([(|segments| % 256) as Byte]);
    ghost var first: seq<Byte> := [(|segments| % 256) as Byte];
    assert first + SegmentsShapeBytes(segments, 0) == first;
    for index := 0 to |segments|
      invariant hash == Fnv(FNV_OFFSET, first + SegmentsShapeBytes(segments, index))
    {
      var segment := segments[index];
      ghost var done := first + SegmentsShapeBytes(segments, index);
      hash := AppendBytes(hash, [KindByte(segment.kind)], done);
      ghost var text: seq<Byte> := if segment.kind.Literal? then segment.text else [];
      if segment.kind.Literal? {
        hash := AppendBytes(hash, segment.text, done + [KindByte(segment.kind)]);
      } else {
        assert done + [KindByte(segment.kind)] + [] == done + [KindByte(segment.kind)];
      }
      hash := AppendBytes(hash, [SEGMENT_END], done + [KindByte(segment.kind)] + text);
      assert done + [KindByte(segment.kind)] + text + [SEGMENT_END]
          == first + SegmentsShapeBytes(segments, index + 1);
    }
  }

  method AppendFirst(bytes: seq<Byte>) returns (hash: bv64)
    ensures hash == Fnv(FNV_OFFSET, bytes)
  {
    EmptyLeft(bytes);
    hash := AppendBytes(FNV_OFFSET, bytes, []);
  }

  method IsMoreSpecific(candidate: Pattern, current: Pattern) returns (more: bool)
    ensures more == MoreSpecific(candidate.segments, current.segments)
  {
    var a, b := candidate.segments, current.segments;
    var common := if |a| < |b| then |a| else |b|;
    for index := 0 to common
      invariant MoreSpecific(a[index..], b[index..]) == MoreSpecific(a, b)
    {
      var candidateRank, currentRank := Precedence(a[index].kind), Precedence(b[index].kind);
      if candidateRank != currentRank {
        return candidateRank > currentRank;
      }
      assert a[index..][1..] == a[index + 1..] && b[index..][1..] == b[index + 1..];
    }
    return |a| > |b|;
  }

  // --- Facts the loops use ----------------------------------------------------------------

  lemma RouteParameters(segments: seq<Segment>)
    requires RouteOk(segments)
    ensures ParameterCount(segments) <= MAX_PARAMETERS
  {
  }

  lemma MatchStart(segments: seq<Segment>, path: seq<Byte>)
    ensures segments[0..] == segments && path[0..] == path
    ensures Prefixed([], MatchTail(segments, path)) == MatchTail(segments, path)
  {
    if MatchTail(segments, path).Some? {
      EmptyLeft(MatchTail(segments, path).value);
    }
  }

  lemma PrefixedSnoc(done: seq<Capture>, c: Capture, rest: Option<seq<Capture>>)
    ensures rest.Some? ==> Prefixed(done, Some([c] + rest.value)) == Prefixed(done + [c], rest)
    ensures rest.None? ==> Prefixed(done + [c], rest) == None
  {
    if rest.Some? {
      Assoc(done, [c], rest.value);
    }
  }

  lemma TailSlash(path: seq<Byte>, offset: nat)
    requires 1 <= offset <= |path| && path[offset - 1] == SLASH
    ensures var tail := path[offset - 1..];
            var end := SlashFrom(path, offset);
            && tail != [] && tail[0] == SLASH
            && SlashFrom(tail, 1) == end - (offset - 1)
            && tail[1..SlashFrom(tail, 1)] == path[offset..end]
            && tail[SlashFrom(tail, 1)..] == path[end..]
            && tail[1..] == path[offset..]
  {
    hide SlashFrom;
    var tail := path[offset - 1..];
    var end := SlashFrom(path, offset);
    assert tail[1..end - (offset - 1)] == path[offset..end];
    SlashFromIs(tail, 1, end - (offset - 1));
  }

  /** One round of matching, spelled out. */
  lemma MatchStep(segments: seq<Segment>, index: nat, path: seq<Byte>, offset: nat)
    requires index < |segments| && 1 <= offset <= |path| && path[offset - 1] == SLASH
    ensures var all := MatchTail(segments[index..], path[offset - 1..]);
            var expected := segments[index];
            var end := SlashFrom(path, offset);
            if expected.kind.CatchAll? then
              all == if offset == |path| then None else Some([Capture(expected.text, path[offset..])])
            else if path[offset..end] == [] || (expected.kind.Literal? && path[offset..end] != expected.text) then
              all == None
            else
              var rest := MatchTail(segments[index + 1..], path[end..]);
              && (all == if rest.None? || expected.kind.Literal? then rest
                         else Some([Capture(expected.text, path[offset..end])] + rest.value))
              && (index + 1 == |segments| ==> rest == if end == |path| then Some([]) else None)
              && (index + 1 < |segments| && end == |path| ==> rest == None)
    ensures ParameterCount(segments[index..])
         == ParameterCount(segments[index + 1..]) + (if segments[index].kind.Literal? then 0 else 1)
  {
    hide SlashFrom;
    TailSlash(path, offset);
    assert segments[index..][0] == segments[index] && segments[index..][1..] == segments[index + 1..];
  }
}
