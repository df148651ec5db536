/** Route patterns: the grammar of their sources, and the parser. */
module Route {
  import opened Bytes
  import opened Decimal

  const MAX_SEGMENTS := 32
  const MAX_PARAMETERS := 16
  const STAR: Byte := '*' as int
  const UNDERSCORE: Byte := '_' as int

  datatype Kind = Literal | Parameter | CatchAll

  datatype Segment = Segment(kind: Kind, text: seq<Byte>)

  datatype RouteError =
    | NoError | MissingLeadingSlash | TrailingSlash | EmptySegment | UnmatchedBrace
    | InvalidParameterName | DuplicateParameterName | CatchAllNotFinal | TooManySegments | TooManyParameters

  datatype Pattern = Pattern(source: seq<Byte>, segments: seq<Segment>, parameterCount: nat, error: RouteError) {
    predicate Valid() {
      error == NoError
    }
  }

  // --- The grammar ------------------------------------------------------------------------

  predicate NameByte(b: Byte) {
    || 'a' as int <= b <= 'z' as int
    || 'A' as int <= b <= 'Z' as int
    || IsDigit(b)
    || b == UNDERSCORE || b == MINUS
  }

  predicate NameOk(name: seq<Byte>) {
    name != [] && forall k | 0 <= k < |name| :: NameByte(name[k])
  }

  predicate LiteralOk(text: seq<Byte>) {
    text != [] && SLASH !in text && OPEN_BRACE !in text && CLOSE_BRACE !in text
  }

  predicate SegmentOk(segment: Segment) {
    if segment.kind.Literal? then LiteralOk(segment.text) else NameOk(segment.text)
  }

  function SegmentText(segment: Segment): seq<Byte> {
    match segment.kind
    case Literal => segment.text
    case Parameter => [OPEN_BRACE] + segment.text + [CLOSE_BRACE]
    case CatchAll => [OPEN_BRACE, STAR] + segment.text + [CLOSE_BRACE]
  }

  /** Each segment behind a slash. */
  function SegmentsText(segments: seq<Segment>): seq<Byte> {
    if segments == [] then [] else [SLASH] + SegmentText(segments[0]) + SegmentsText(segments[1..])
  }

  function SourceText(segments: seq<Segment>): seq<Byte> {
    if segments == [] then [SLASH] else SegmentsText(segments)
  }

  function ParameterCount(segments: seq<Segment>): (n: nat)
    ensures n <= |segments|
  {
    if segments == [] then 0
    else ParameterCount(segments[1..]) + (if segments[0].kind.Literal? then 0 else 1)
  }

  predicate NamesDistinct(segments: seq<Segment>) {
    forall i, j | 0 <= i < j < |segments| && !segments[i].kind.Literal? && !segments[j].kind.Literal? ::
      segments[i].text != segments[j].text
  }

  predicate CatchAllFinal(segments: seq<Segment>) {
    forall i | 0 <= i < |segments| - 1 :: !segments[i].kind.CatchAll?
  }

  /** The segment lists that routes consist of. */
  predicate RouteOk(segments: seq<Segment>) {
    && |segments| <= MAX_SEGMENTS
    && ParameterCount(segments) <= MAX_PARAMETERS
    && (forall i | 0 <= i < |segments| :: SegmentOk(segments[i]))
    && NamesDistinct(segments)
    && CatchAllFinal(segments)
  }

  // --- Parsing ----------------------------------------------------------------------------

  /** The first slash at or behind `i`, or the end. */
  function SlashFrom(s: seq<Byte>, i: nat): (e: nat)
    requires i <= |s|
    ensures i <= e <= |s| && SLASH !in s[i..e] && (e < |s| ==> s[e] == SLASH)
    decreases |s| - i
  {
    if i == |s| || s[i] == SLASH then i
    else
      var e := SlashFrom(s, i + 1);
      assert s[i..e] == [s[i]] + s[i + 1..e];
      e
  }

  predicate NameTaken(prior: seq<Segment>, name: seq<Byte>) {
    exists k | 0 <= k < |prior| :: !prior[k].kind.Literal? && prior[k].text == name
  }

  datatype Scanned = Good(segment: Segment) | Bad(error: RouteError)

  /** One segment of a source, behind those in `prior`. */
  function ScanSegment(text: seq<Byte>, last: bool, prior: seq<Segment>): (r: Scanned)
    ensures r.Bad? ==> r.error != NoError
  {
    if text == [] then Bad(EmptySegment)
    else if text[0] == OPEN_BRACE || text[|text| - 1] == CLOSE_BRACE then
      if |text| < 3 || text[0] != OPEN_BRACE || text[|text| - 1] != CLOSE_BRACE then Bad(UnmatchedBrace)
      else
        var inner := text[1..|text| - 1];
        var catchAll := inner[0] == STAR;
        var name := if catchAll then inner[1..] else inner;
        if catchAll && !last then Bad(CatchAllNotFinal)
        else if !NameOk(name) then Bad(InvalidParameterName)
        else if ParameterCount(prior) == MAX_PARAMETERS then Bad(TooManyParameters)
        else if NameTaken(prior, name) then Bad(DuplicateParameterName)
        else Good(Segment(if catchAll then CatchAll else Parameter, name))
    else if OPEN_BRACE in text || CLOSE_BRACE in text then Bad(UnmatchedBrace)
    else Good(Segment(Literal, text))
  }

  /** The segments from `offset`, behind those in `prior`. */
  function ParseFrom(source: seq<Byte>, offset: nat, prior: seq<Segment>): Pattern
    requires offset <= |source|
    decreases |source| - offset
  {
    if |prior| == MAX_SEGMENTS then Pattern(source, prior, ParameterCount(prior), TooManySegments)
    else
      var end := SlashFrom(source, offset);
      var scanned := ScanSegment(source[offset..end], end == |source|, prior);
      if scanned.Bad? then Pattern(source, prior, ParameterCount(prior), scanned.error)
      else
        var segments := prior + [scanned.segment];
        if end == |source| then Pattern(source, segments, ParameterCount(segments), NoError)
        else ParseFrom(source, end + 1, segments)
  }

  function ParsePattern(source: seq<Byte>): Pattern {
    if source == [] || source[0] != SLASH then Pattern(source, [], 0, MissingLeadingSlash)
    else if source == [SLASH] then Pattern(source, [], 0, NoError)
    else if source[|source| - 1] == SLASH then Pattern(source, [], 0, TrailingSlash)
    else ParseFrom(source, 1, [])
  }

  // --- The parser accepts exactly the grammar ---------------------------------------------

  lemma {:induction false} ParameterCountSnoc(prior: seq<Segment>, segment: Segment)
    ensures ParameterCount(prior + [segment]) == ParameterCount(prior) + (if segment.kind.Literal? then 0 else 1)
  {
    if prior == [] {
      EmptyLeft([segment]);
    } else {
      ConsSplit(prior, [segment]);
      ParameterCountSnoc(prior[1..], segment);
    }
  }

  lemma {:induction false} ParameterCountConcat(a: seq<Segment>, b: seq<Segment>)
    ensures ParameterCount(a + b) == ParameterCount(a) + ParameterCount(b)
  {
    if a == [] {
      EmptyLeft(b);
    } else {
      ConsSplit(a, b);
      ParameterCountConcat(a[1..], b);
    }
  }

  lemma {:induction false} SegmentsTextConcat(a: seq<Segment>, b: seq<Segment>)
    ensures SegmentsText(a + b) == SegmentsText(a) + SegmentsText(b)
  {
    if a == [] {
      EmptyLeft(b);
      EmptyLeft(SegmentsText(b));
    } else {
      ConsSplit(a, b);
      SegmentsTextConcat(a[1..], b);
      Assoc([SLASH] + SegmentText(a[0]), SegmentsText(a[1..]), SegmentsText(b));
    }
  }

  /** What may follow the segments in `prior`. */
  predicate Extends(prior: seq<Segment>, segment: Segment, last: bool) {
    && SegmentOk(segment)
    && (segment.kind.CatchAll? ==> last)
    && (!segment.kind.Literal? ==> ParameterCount(prior) < MAX_PARAMETERS && !NameTaken(prior, segment.text))
  }

  lemma NameWithoutSlash(name: seq<Byte>)
    requires NameOk(name)
    ensures SLASH !in name && OPEN_BRACE !in name && CLOSE_BRACE !in name && STAR !in name
  {
    forall b | b in name ensures NameByte(b) {
      var k :| 0 <= k < |name| && name[k] == b;
    }
  }

  /** A segment is scanned from its own text, and only from it. */
  lemma ScanInverts(text: seq<Byte>, last: bool, prior: seq<Segment>, segment: Segment)
    requires SLASH !in text && ParameterCount(prior) <= MAX_PARAMETERS
    ensures ScanSegment(text, last, prior) == Good(segment)
            <==> text == SegmentText(segment) && Extends(prior, segment, last)
  {
    if ScanSegment(text, last, prior) == Good(segment) && !segment.kind.Literal? {
      var inner := text[1..|text| - 1];
      assert text == [OPEN_BRACE] + inner + [CLOSE_BRACE];
      if inner[0] == STAR {
        assert inner == [STAR] + inner[1..];
        assert text == [OPEN_BRACE, STAR] + inner[1..] + [CLOSE_BRACE];
      } else {
        assert segment.kind.Parameter?;
      }
    }
    if text == SegmentText(segment) && Extends(prior, segment, last) {
      ScanPrinted(last, prior, segment);
    }
  }

  lemma ScanPrinted(last: bool, prior: seq<Segment>, segment: Segment)
    requires Extends(prior, segment, last)
    ensures ScanSegment(SegmentText(segment), last, prior) == Good(segment)
  {
    var text := SegmentText(segment);
    match segment.kind
    case Literal =>
    case Parameter =>
      NameWithoutSlash(segment.text);
      assert text[1..|text| - 1] == segment.text;
      assert segment.text[0] in segment.text;
    case CatchAll =>
      assert text[1..|text| - 1] == [STAR] + segment.text;
      assert text[1..|text| - 1][1..] == segment.text;
  }

  lemma ExtendRoute(prior: seq<Segment>, segment: Segment, last: bool)
    requires RouteOk(prior) && |prior| < MAX_SEGMENTS && Extends(prior, segment, last)
    requires forall i | 0 <= i < |prior| :: !prior[i].kind.CatchAll?
    ensures RouteOk(prior + [segment])
    ensures !last ==> forall i | 0 <= i < |prior| + 1 :: !(prior + [segment])[i].kind.CatchAll?
  {
    ParameterCountSnoc(prior, segment);
  }

  /** One parser step: the segment scanned, and what it adds to the text. */
  lemma ParseStep(source: seq<Byte>, offset: nat, prior: seq<Segment>) returns (segment: Segment, end: nat)
    requires 0 < offset <= |source| && source[offset - 1] == SLASH
    requires RouteOk(prior) && forall i | 0 <= i < |prior| :: !prior[i].kind.CatchAll?
    requires ParseFrom(source, offset, prior).Valid()
    ensures offset <= end <= |source| && (end < |source| ==> source[end] == SLASH)
    ensures RouteOk(prior + [segment])
    ensures SegmentsText(prior + [segment]) == SegmentsText(prior) + source[offset - 1..end]
    ensures if end < |source| then
              && (forall i | 0 <= i < |prior| + 1 :: !(prior + [segment])[i].kind.CatchAll?)
              && ParseFrom(source, offset, prior) == ParseFrom(source, end + 1, prior + [segment])
            else
              ParseFrom(source, offset, prior)
              == Pattern(source, prior + [segment], ParameterCount(prior + [segment]), NoError)
  {
    hide ScanSegment, RouteOk, SegmentText;
    end := SlashFrom(source, offset);
    var last := end == |source|;
    segment := ScanSegment(source[offset..end], last, prior).segment;
    RouteBounds(prior);
    ScanInverts(source[offset..end], last, prior, segment);
    ExtendRoute(prior, segment, last);
    TextSnoc(prior, segment);
    assert source[offset - 1..end] == [SLASH] + source[offset..end];
  }

  lemma {:induction false} ParseFromSound(source: seq<Byte>, offset: nat, prior: seq<Segment>)
    requires 0 < offset <= |source| && source[offset - 1] == SLASH
    requires RouteOk(prior) && forall i | 0 <= i < |prior| :: !prior[i].kind.CatchAll?
    requires ParseFrom(source, offset, prior).Valid()
    ensures var p := ParseFrom(source, offset, prior);
            && RouteOk(p.segments) && p.segments != []
            && SegmentsText(p.segments) == SegmentsText(prior) + source[offset - 1..]
            && p.source == source && p.parameterCount == ParameterCount(p.segments)
    decreases |source| - offset
  {
    hide ScanSegment, RouteOk, SegmentText, SegmentsText, ParseFrom;
    var segment, end := ParseStep(source, offset, prior);
    assert source[offset - 1..] == source[offset - 1..end] + source[end..];
    if end < |source| {
      ParseFromSound(source, end + 1, prior + [segment]);
      Assoc(SegmentsText(prior), source[offset - 1..end], source[end..]);
    } else {
      assert source[offset - 1..end] == source[offset - 1..];
    }
  }

  lemma RouteBounds(segments: seq<Segment>)
    requires RouteOk(segments)
    ensures |segments| <= MAX_SEGMENTS && ParameterCount(segments) <= MAX_PARAMETERS
  {
  }

  lemma TextSnoc(prior: seq<Segment>, segment: Segment)
    ensures SegmentsText(prior + [segment]) == SegmentsText(prior) + ([SLASH] + SegmentText(segment))
  {
    SegmentsTextConcat(prior, [segment]);
    assert SegmentsText([segment]) == [SLASH] + SegmentText(segment) + [];
  }

  lemma {:induction false} SlashFromIs(s: seq<Byte>, i: nat, e: nat)
    requires i <= e <= |s| && SLASH !in s[i..e] && (e < |s| ==> s[e] == SLASH)
    ensures SlashFrom(s, i) == e
    decreases e - i
  {
    if i < e {
      assert s[i] == s[i..e][0];
      assert forall b | b in s[i + 1..e] :: b in s[i..e];
      SlashFromIs(s, i + 1, e);
    }
  }

  lemma SegmentTextWithoutSlash(segment: Segment)
    requires SegmentOk(segment)
    ensures SegmentText(segment) != [] && SLASH !in SegmentText(segment)
  {
    if !segment.kind.Literal? {
      NameWithoutSlash(segment.text);
    }
  }

  lemma RoutePrefix(prior: seq<Segment>, rest: seq<Segment>)
    requires RouteOk(prior + rest) && rest != []
    ensures |prior| < MAX_SEGMENTS && Extends(prior, rest[0], |rest| == 1)
    ensures ParameterCount(prior) <= MAX_PARAMETERS
  {
    var all := prior + rest;
    ParameterCountConcat(prior, rest);
    assert all[|prior|] == rest[0];
    assert forall k | 0 <= k < |prior| :: all[k] == prior[k];
  }

  /** Where the first of the printed segments stands in the source. */
  lemma FirstSegment(source: seq<Byte>, offset: nat, rest: seq<Segment>)
    requires 0 < offset <= |source| && rest != []
    requires SegmentOk(rest[0]) && source[offset - 1..] == SegmentsText(rest)
    ensures var end := offset + |SegmentText(rest[0])|;
            && end <= |source|
            && SlashFrom(source, offset) == end
            && source[offset..end] == SegmentText(rest[0])
            && source[end..] == SegmentsText(rest[1..])
            && (end < |source| <==> |rest| > 1)
  {
    hide SegmentText, SlashFrom;
    var text := SegmentText(rest[0]);
    var end := offset + |text|;
    SegmentTextWithoutSlash(rest[0]);
    assert SegmentsText(rest) == [SLASH] + text + SegmentsText(rest[1..]);
    assert source[offset..end] == source[offset - 1..][1..1 + |text|] == text;
    assert source[end..] == source[offset - 1..][1 + |text|..] == SegmentsText(rest[1..]);
    if |rest| > 1 {
      assert SegmentsText(rest[1..])[0] == SLASH;
      assert source[end] == source[end..][0];
    }
    SlashFromIs(source, offset, end);
  }

  lemma {:induction false} ParseFromComplete(
    source: seq<Byte>, offset: nat, prior: seq<Segment>, rest: seq<Segment>)
    requires 0 < offset <= |source|
    requires rest != [] && RouteOk(prior + rest)
    requires source[offset - 1..] == SegmentsText(rest)
    ensures ParseFrom(source, offset, prior)
         == Pattern(source, prior + rest, ParameterCount(prior + rest), NoError)
    decreases |rest|
  {
    hide ScanSegment, RouteOk, SegmentText, SlashFrom, SegmentsText;
    RoutePrefix(prior, rest);
    FirstSegment(source, offset, rest);
    var end := offset + |SegmentText(rest[0])|;
    SegmentTextWithoutSlash(rest[0]);
    ScanInverts(SegmentText(rest[0]), end == |source|, prior, rest[0]);
    assert prior + [rest[0]] + rest[1..] == prior + rest;
    if |rest| == 1 {
      assert prior + [rest[0]] == prior + rest;
    } else {
      NextSegment(source, end, rest[1..]);
      ParseFromComplete(source, end + 1, prior + [rest[0]], rest[1..]);
    }
  }

  lemma NextSegment(source: seq<Byte>, end: nat, rest: seq<Segment>)
    requires end < |source| && rest != [] && source[end..] == SegmentsText(rest)
    ensures source[end + 1 - 1..] == SegmentsText(rest)
  {
  }

  lemma RouteTextEnds(segments: seq<Segment>)
    requires RouteOk(segments) && segments != []
    ensures var s := SegmentsText(segments); |s| > 1 && s[0] == SLASH && s[|s| - 1] != SLASH
    decreases |segments|
  {
    SegmentTextWithoutSlash(segments[0]);
    var text := SegmentText(segments[0]);
    assert text[|text| - 1] in text;
    if |segments| > 1 {
      RouteTail(segments);
      RouteTextEnds(segments[1..]);
    }
  }

  lemma RouteTail(segments: seq<Segment>)
    requires RouteOk(segments) && segments != []
    ensures RouteOk(segments[1..])
    ensures forall i | 1 <= i < |segments| :: segments[i] == segments[1..][i - 1]
  {
  }

  /** A source is accepted exactly when it is the text of a route, and the parsed segments print back to it. */
  lemma ParseIff(source: seq<Byte>)
    ensures ParsePattern(source).Valid() <==> exists segments :: RouteOk(segments) && source == SourceText(segments)
    ensures ParsePattern(source).Valid() ==>
              && RouteOk(ParsePattern(source).segments)
              && SourceText(ParsePattern(source).segments) == source
              && ParsePattern(source).parameterCount == ParameterCount(ParsePattern(source).segments)
  {
    if ParsePattern(source).Valid() && source != [SLASH] {
      ParseFromSound(source, 1, []);
      assert source[0..] == source;
      EmptyLeft(source);
    }
    if segments :| RouteOk(segments) && source == SourceText(segments) {
      ParseInvertsPrint(segments);
    }
    if source == [SLASH] {
      assert RouteOk([]) && SourceText([]) == source;
    }
  }

  /** Parsing the text of a route gives back its segments. */
  lemma ParseInvertsPrint(segments: seq<Segment>)
    requires RouteOk(segments)
    ensures ParsePattern(SourceText(segments))
         == Pattern(SourceText(segments), segments, ParameterCount(segments), NoError)
  {
    if segments != [] {
      var source := SegmentsText(segments);
      RouteTextEnds(segments);
      assert source[0..] == source;
      EmptyLeft(segments);
      ParseFromComplete(source, 1, [], segments);
    }
  }
}
