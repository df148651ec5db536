/** What the error of a refused route source says about it. */
module RouteErrors {
  import opened Bytes
  import opened Route

  /** The text stands in braces with something between them. */
  predicate Enclosed(text: seq<Byte>) {
    |text| >= 3 && text[0] == '{' as int && text[|text| - 1] == '}' as int
  }

  /** The name in the braces, behind the star of a catch-all. */
  function NameIn(text: seq<Byte>): seq<Byte>
    requires Enclosed(text)
  {
    if text[1] == '*' as int then text[2..|text| - 1] else text[1..|text| - 1]
  }

  /** Why a segment cannot stand behind those in `prior`. */
  predicate Because(error: RouteError, text: seq<Byte>, last: bool, prior: seq<Segment>) {
    match error
    case EmptySegment => text == []
    case UnmatchedBrace => ('{' as int in text || '}' as int in text) && !Enclosed(text)
    case CatchAllNotFinal => Enclosed(text) && text[1] == '*' as int && !last
    case InvalidParameterName => Enclosed(text) && (text[1] == '*' as int ==> last) && !NameOk(NameIn(text))
    case TooManyParameters => Enclosed(text) && NameOk(NameIn(text)) && ParameterCount(prior) == 16
    case DuplicateParameterName => Enclosed(text) && ParameterCount(prior) != 16 && NameTaken(prior, NameIn(text))
    case TooManySegments => |prior| == 32
    case _ => false
  }

  /** The segment between `from` and `to` is the first that fails, behind the segments in `prior`. */
  predicate Blames(source: seq<Byte>, prior: seq<Segment>, error: RouteError, from: nat, to: nat) {
    && 0 < from <= to <= |source|
    && source[..from] == SegmentsText(prior) + ['/' as int]
    && '/' as int !in source[from..to] && (to < |source| ==> source[to] == '/' as int)
    && Because(error, source[from..to], to == |source|, prior)
  }

  lemma ScanError(text: seq<Byte>, last: bool, prior: seq<Segment>)
    requires ScanSegment(text, last, prior).Bad?
    ensures Because(ScanSegment(text, last, prior).error, text, last, prior)
  {
    hide ParameterCount, NameTaken, NameOk;
    if text != [] && (text[0] == OPEN_BRACE || text[|text| - 1] == CLOSE_BRACE) && Enclosed(text) {
      var inner := text[1..|text| - 1];
      assert inner[0] == text[1];
      assert inner[1..] == text[2..|text| - 1];
    }
  }

  lemma {:induction false} ParseFromError(source: seq<Byte>, offset: nat, prior: seq<Segment>)
    returns (from: nat, to: nat)
    requires 0 < offset <= |source| && source[..offset] == SegmentsText(prior) + [SLASH]
    requires ParameterCount(prior) <= MAX_PARAMETERS
    requires !ParseFrom(source, offset, prior).Valid()
    ensures var p := ParseFrom(source, offset, prior); Blames(source, p.segments, p.error, from, to)
    decreases |source| - offset
  {
    hide ScanSegment, SegmentText, SegmentsText, NameTaken, Because;
    var end := SlashFrom(source, offset);
    var last := end == |source|;
    from, to := offset, end;
    if |prior| == MAX_SEGMENTS {
      assert Because(TooManySegments, source[from..to], last, prior) by { TooMany(source[from..to], last, prior); }
    } else {
      var scanned := ScanSegment(source[offset..end], last, prior);
      if scanned.Bad? {
        ScanError(source[offset..end], last, prior);
      } else {
        ScanInverts(source[offset..end], last, prior, scanned.segment);
        ParameterCountSnoc(prior, scanned.segment);
        TextSnoc(prior, scanned.segment);
        if !last {
          NextOffset(source, offset, end, SegmentsText(prior), SegmentsText(prior + [scanned.segment]));
          from, to := ParseFromError(source, end + 1, prior + [scanned.segment]);
        }
      }
    }
  }

  lemma TooMany(text: seq<Byte>, last: bool, prior: seq<Segment>)
    requires |prior| == MAX_SEGMENTS
    ensures Because(TooManySegments, text, last, prior)
  {
  }

  lemma NextOffset(source: seq<Byte>, offset: nat, end: nat, before: seq<Byte>, after: seq<Byte>)
    requires offset <= end < |source| && source[..offset] == before + [SLASH] && source[end] == SLASH
    requires after == before + ([SLASH] + source[offset..end])
    ensures source[..end + 1] == after + [SLASH]
  {
    assert source[..end + 1] == source[..offset] + source[offset..end] + [source[end]];
  }

  /**
   The error of a refused source: it does not start with a slash; it ends with one; or it names what is wrong with the
   first segment that fails, behind the segments that were accepted.
   */
  lemma ErrorNamesFirstBadSegment(source: seq<Byte>) returns (from: nat, to: nat)
    ensures var p := ParsePattern(source);
            && (p.error == MissingLeadingSlash <==> source == [] || source[0] != '/' as int)
            && (p.error == TrailingSlash
                <==> |source| > 1 && source[0] == '/' as int && source[|source| - 1] == '/' as int)
            && (p.error != NoError && p.error != MissingLeadingSlash && p.error != TrailingSlash ==>
                Blames(source, p.segments, p.error, from, to))
  {
    hide ParseFrom, Because;
    from, to := 0, 0;
    var p := ParsePattern(source);
    if |source| > 1 && source[0] == SLASH && source[|source| - 1] != SLASH {
      assert source[..1] == [] + [SLASH];
      if !p.Valid() {
        from, to := ParseFromError(source, 1, []);
        NotLeading(source, p.segments, p.error, from, to);
      }
    }
  }

  lemma NotLeading(source: seq<Byte>, prior: seq<Segment>, error: RouteError, from: nat, to: nat)
    requires Blames(source, prior, error, from, to)
    ensures error != MissingLeadingSlash && error != TrailingSlash && error != NoError
  {
  }
}
