/**
 The JSON string token: what the scanner accepts, what it decodes to, and what the
 serializer prints.
 */
module JsonString {
  import opened Bytes
  import opened Hex
  import opened Utf8

  /** One unit of a string token (RFC 8259, section 7). */
  datatype Piece =
    | Raw(b: Byte)                            // an unescaped byte
    | Short(e: Byte)                          // \" \\ \/ \b \f \n \r \t
    | Unicode(h: seq<Byte>)                   // \uXXXX, not a surrogate
    | Pair(hi: seq<Byte>, lo: seq<Byte>)      // \uD8XX\uDCXX

  const LOWER_U: Byte := 'u' as int

  predicate HexQuad(h: seq<Byte>) {
    |h| == 4 && forall k | 0 <= k < 4 :: HexValue(h[k]) >= 0
  }

  function QuadValue(h: seq<Byte>): (v: nat)
    requires HexQuad(h)
    ensures v <= 0xFFFF
  {
    ((HexValue(h[0]) * 16 + HexValue(h[1])) * 16 + HexValue(h[2])) * 16 + HexValue(h[3])
  }

  predicate HighSurrogate(v: nat) {
    0xD800 <= v <= 0xDBFF
  }

  predicate LowSurrogate(v: nat) {
    0xDC00 <= v <= 0xDFFF
  }

  /** The byte a two-character escape stands for. */
  function ShortValue(e: Byte): Option<Byte> {
    if e == QUOTE || e == BACKSLASH || e == SLASH then Some(e)
    else if e == 'b' as int then Some(8)
    else if e == 'f' as int then Some(12)
    else if e == 'n' as int then Some(10)
    else if e == 'r' as int then Some(13)
    else if e == 't' as int then Some(9)
    else None
  }

  predicate PieceOk(p: Piece) {
    match p
    case Raw(b) => b >= 0x20 && b != QUOTE && b != BACKSLASH
    case Short(e) => ShortValue(e).Some?
    case Unicode(h) => HexQuad(h) && !HighSurrogate(QuadValue(h)) && !LowSurrogate(QuadValue(h))
    case Pair(hi, lo) =>
      HexQuad(hi) && HexQuad(lo) && HighSurrogate(QuadValue(hi)) && LowSurrogate(QuadValue(lo))
  }

  function PieceText(p: Piece): seq<Byte> {
    match p
    case Raw(b) => [b]
    case Short(e) => [BACKSLASH, e]
    case Unicode(h) => [BACKSLASH, LOWER_U] + h
    case Pair(hi, lo) => [BACKSLASH, LOWER_U] + hi + [BACKSLASH, LOWER_U] + lo
  }

  /** The scalar an escape denotes. */
  function PieceScalar(p: Piece): Scalar
    requires PieceOk(p) && !p.Raw?
  {
    match p
    case Short(e) => ShortValue(e).value
    case Unicode(h) => QuadValue(h)
    case Pair(hi, lo) => 0x10000 + (QuadValue(hi) - 0xD800) * 1024 + (QuadValue(lo) - 0xDC00)
  }

  /** The bytes a unit decodes to. */
  function PieceValue(p: Piece): seq<Byte>
    requires PieceOk(p)
  {
    if p.Raw? then [p.b] else EncodeScalar(PieceScalar(p))
  }

  predicate AllOk(ps: seq<Piece>) {
    ps == [] || (PieceOk(ps[0]) && AllOk(ps[1..]))
  }

  function PiecesText(ps: seq<Piece>): seq<Byte> {
    if ps == [] then [] else PieceText(ps[0]) + PiecesText(ps[1..])
  }

  function PiecesValue(ps: seq<Piece>): seq<Byte>
    requires AllOk(ps)
  {
    if ps == [] then [] else PieceValue(ps[0]) + PiecesValue(ps[1..])
  }

  /** Only unescaped bytes: what is decoded is the piece of the text between the quotes. */
  predicate AllRaw(ps: seq<Piece>) {
    ps == [] || (ps[0].Raw? && AllRaw(ps[1..]))
  }

  /** A string is without escapes exactly when no backslash stands in its text. */
  lemma {:induction false} RawIffNoBackslash(ps: seq<Piece>)
    requires AllOk(ps)
    ensures AllRaw(ps) <==> BACKSLASH !in PiecesText(ps)
  {
    if ps != [] {
      RawIffNoBackslash(ps[1..]);
      var text := PieceText(ps[0]);
      assert !ps[0].Raw? ==> text[0] == BACKSLASH;
    }
  }

  lemma {:induction false} AllOkParts(ps: seq<Piece>, qs: seq<Piece>)
    ensures AllOk(ps + qs) <==> AllOk(ps) && AllOk(qs)
  {
    if ps == [] {
      EmptyLeft(qs);
    } else {
      ConsSplit(ps, qs);
      AllOkParts(ps[1..], qs);
    }
  }

  lemma {:induction false} PiecesValueConcat(ps: seq<Piece>, qs: seq<Piece>)
    requires AllOk(ps) && AllOk(qs)
    ensures AllOk(ps + qs) && PiecesValue(ps + qs) == PiecesValue(ps) + PiecesValue(qs)
  {
    AllOkParts(ps, qs);
    if ps == [] {
      EmptyLeft(qs);
      EmptyLeft(PiecesValue(qs));
    } else {
      ConsSplit(ps, qs);
      PiecesValueConcat(ps[1..], qs);
      Assoc(PieceValue(ps[0]), PiecesValue(ps[1..]), PiecesValue(qs));
    }
  }

  lemma {:induction false} PiecesTextConcat(ps: seq<Piece>, qs: seq<Piece>)
    ensures PiecesText(ps + qs) == PiecesText(ps) + PiecesText(qs)
  {
    if ps == [] {
      EmptyLeft(qs);
      EmptyLeft(PiecesText(qs));
    } else {
      ConsSplit(ps, qs);
      PiecesTextConcat(ps[1..], qs);
      Assoc(PieceText(ps[0]), PiecesText(ps[1..]), PiecesText(qs));
    }
  }

  // --- The scanner ------------------------------------------------------------------------

  /** Four hexadecimal digits at `i`, of which `k` have been read. */
  function QuadFrom(s: seq<Byte>, i: nat, k: nat): (r: Parse<seq<Byte>>)
    requires i + 4 <= |s| && k <= 4
    requires forall j | i <= j < i + k :: HexValue(s[j]) >= 0
    ensures r.Ok? <==> HexQuad(s[i..i + 4])
    ensures r.Ok? ==> r == Ok(s[i..i + 4], i + 4)
    ensures r.Err? ==> r.code == InvalidUnicode && r.offset <= |s|
    decreases 4 - k
  {
    if k == 4 then Ok(s[i..i + 4], i + 4)
    else if HexValue(s[i + k]) < 0 then
      assert s[i..i + 4][k] == s[i + k];
      Err(InvalidUnicode, i + k + 1)
    else QuadFrom(s, i, k + 1)
  }

  function ParseQuad(s: seq<Byte>, i: nat): (r: Parse<seq<Byte>>)
    requires i <= |s|
    ensures r.Ok? <==> i + 4 <= |s| && HexQuad(s[i..i + 4])
    ensures r.Ok? ==> r == Ok(s[i..i + 4], i + 4)
    ensures r.Err? ==> r.code == InvalidUnicode && r.offset <= |s|
  {
    if |s| - i < 4 then Err(InvalidUnicode, i) else QuadFrom(s, i, 0)
  }

  /** The escape whose backslash is at `i`. */
  function ParseEscape(s: seq<Byte>, i: nat): (r: Parse<Piece>)
    requires i < |s| && s[i] == BACKSLASH
    ensures r.Ok? ==> i < r.next <= |s| && !r.value.Raw? && PieceOk(r.value)
    ensures r.Err? ==> r.offset <= |s|
  {
    if i + 1 == |s| then Err(InvalidEscape, i + 1)
    else if s[i + 1] == LOWER_U then ParseUnicode(s, i + 2)
    else if ShortValue(s[i + 1]).Some? then Ok(Short(s[i + 1]), i + 2)
    else Err(InvalidEscape, i + 2)
  }

  /** The digits of a \u escape, and the low half of a surrogate pair. */
  function ParseUnicode(s: seq<Byte>, i: nat): (r: Parse<Piece>)
    requires i <= |s|
    ensures r.Ok? ==> i < r.next <= |s| && !r.value.Raw? && PieceOk(r.value)
    ensures r.Err? ==> r.offset <= |s|
  {
    var first := ParseQuad(s, i);
    if first.Err? then first.Fail()
    else if HighSurrogate(QuadValue(first.value)) then
      if !HasAt(s, first.next, [BACKSLASH, LOWER_U]) then Err(InvalidUnicode, first.next)
      else
        var second := ParseQuad(s, first.next + 2);
        if second.Err? then second.Fail()
        else if !LowSurrogate(QuadValue(second.value)) then Err(InvalidUnicode, second.next)
        else Ok(Pair(first.value, second.value), second.next)
    else if LowSurrogate(QuadValue(first.value)) then Err(InvalidUnicode, first.next)
    else Ok(Unicode(first.value), first.next)
  }

  /** The parts of a surrogate pair stand behind each other. */
  lemma PairTextSplit(s: seq<Byte>, i: nat, hi: seq<Byte>, lo: seq<Byte>)
    requires |hi| == 4
    ensures HasAt(s, i, PieceText(Pair(hi, lo))) <==>
            && HasAt(s, i, [BACKSLASH, LOWER_U]) && HasAt(s, i + 2, hi)
            && HasAt(s, i + 6, [BACKSLASH, LOWER_U]) && HasAt(s, i + 8, lo)
  {
    hide HasAt;
    var second := [BACKSLASH, LOWER_U] + lo;
    assert PieceText(Pair(hi, lo)) == [BACKSLASH, LOWER_U] + (hi + second);
    HasAtConcat(s, i, [BACKSLASH, LOWER_U], hi + second);
    HasAtConcat(s, i + 2, hi, second);
    HasAtConcat(s, i + 6, [BACKSLASH, LOWER_U], lo);
  }

  /** An accepted escape is the text of its unit. */
  lemma EscapeSound(s: seq<Byte>, i: nat)
    requires i < |s| && s[i] == BACKSLASH && ParseEscape(s, i).Ok?
    ensures var r := ParseEscape(s, i);
            HasAt(s, i, PieceText(r.value)) && r.next == i + |PieceText(r.value)|
  {
    var r := ParseEscape(s, i);
    if r.value.Short? {
      assert s[i..i + 2] == [s[i], s[i + 1]];
    } else {
      assert s[i..i + 2] == [s[i], s[i + 1]];
      UnicodeSound(s, i);
    }
  }

  lemma UnicodeSound(s: seq<Byte>, i: nat)
    requires i + 2 <= |s| && HasAt(s, i, [BACKSLASH, LOWER_U]) && ParseUnicode(s, i + 2).Ok?
    ensures var r := ParseUnicode(s, i + 2);
            HasAt(s, i, PieceText(r.value)) && r.next == i + |PieceText(r.value)|
  {
    var first := ParseQuad(s, i + 2);
    if HighSurrogate(QuadValue(first.value)) {
      var second := ParseQuad(s, i + 8);
      PairTextSplit(s, i, first.value, second.value);
    } else {
      HasAtConcat(s, i, [BACKSLASH, LOWER_U], first.value);
    }
  }

  /** The rest of a string token from `i`, after the units in `done`. */
  function StringRest(s: seq<Byte>, limits: Limits, i: nat, done: seq<Piece>): (r: Parse<seq<Piece>>)
    requires i <= |s| && AllOk(done)
    ensures r.Ok? ==> i < r.next <= |s| && AllOk(r.value)
    ensures r.Err? ==> r.offset <= |s|
    decreases |s| - i
  {
    if i == |s| then Err(UnterminatedString, i)
    else if s[i] == QUOTE then
      if |PiecesValue(done)| > limits.stringBytes then Err(StringTooLarge, i + 1)
      else if !ValidUtf8(PiecesValue(done)) then Err(InvalidUtf8, i + 1)
      else Ok(done, i + 1)
    else if s[i] < 0x20 then Err(InvalidString, i + 1)
    else if s[i] != BACKSLASH then
      AllOkParts(done, [Raw(s[i])]);
      StringRest(s, limits, i + 1, done + [Raw(s[i])])
    else
      var escape := ParseEscape(s, i);
      if escape.Err? then escape.Fail()
      else
        AllOkParts(done, [escape.value]);
        if |PiecesValue(done + [escape.value])| > limits.stringBytes then Err(StringTooLarge, escape.next)
        else StringRest(s, limits, escape.next, done + [escape.value])
  }

  function ParseString(s: seq<Byte>, limits: Limits, p: nat): (r: Parse<seq<Piece>>)
    requires p <= |s|
    ensures r.Ok? ==> p < r.next <= |s| && AllOk(r.value)
    ensures r.Err? ==> r.offset <= |s|
  {
    if At(s, p) != QUOTE then Err(ExpectedString, p) else StringRest(s, limits, p + 1, [])
  }

  // --- Soundness and completeness ---------------------------------------------------------

  /** String units the limits and the UTF-8 check let through. */
  predicate StringOk(limits: Limits, ps: seq<Piece>) {
    AllOk(ps) && |PiecesValue(ps)| <= limits.stringBytes && ValidUtf8(PiecesValue(ps))
  }

  function StringText(ps: seq<Piece>): seq<Byte> {
    [QUOTE] + PiecesText(ps) + [QUOTE]
  }

  lemma PiecesTextSnoc(p: Piece, rest: seq<Piece>)
    ensures PiecesText([p] + rest) == PieceText(p) + PiecesText(rest)
  {
    Cons(p, rest);
  }

  /** One scanner step: the unit at `i` and the offset behind it. */
  lemma StringStepSound(s: seq<Byte>, limits: Limits, i: nat, done: seq<Piece>)
    returns (p: Piece, next: nat)
    requires i < |s| && AllOk(done) && s[i] != QUOTE
    requires StringRest(s, limits, i, done).Ok?
    ensures PieceOk(p) && HasAt(s, i, PieceText(p)) && next == i + |PieceText(p)| <= |s| && i < next
    ensures AllOk(done + [p]) && StringRest(s, limits, i, done) == StringRest(s, limits, next, done + [p])
  {
    p, next := Raw(s[i]), i + 1;
    if s[i] == BACKSLASH {
      EscapeSound(s, i);
      var escape := ParseEscape(s, i);
      p, next := escape.value, escape.next;
    }
    AllOkParts(done, [p]);
  }

  lemma TextSplit(s: seq<Byte>, i: nat, p: Piece, tail: seq<Piece>)
    ensures HasAt(s, i, PiecesText([p] + tail) + [QUOTE])
            <==> HasAt(s, i, PieceText(p)) && HasAt(s, i + |PieceText(p)|, PiecesText(tail) + [QUOTE])
    ensures |PiecesText([p] + tail)| == |PieceText(p)| + |PiecesText(tail)|
  {
    hide HasAt, PieceText, PiecesText;
    PiecesTextSnoc(p, tail);
    assert PiecesText([p] + tail) + [QUOTE] == PieceText(p) + (PiecesText(tail) + [QUOTE]);
    HasAtConcat(s, i, PieceText(p), PiecesText(tail) + [QUOTE]);
  }

  /** The scan ends at a quote. */
  lemma StringRestEnd(s: seq<Byte>, limits: Limits, i: nat, done: seq<Piece>)
    requires i < |s| && s[i] == QUOTE && AllOk(done) && StringRest(s, limits, i, done).Ok?
    ensures StringRest(s, limits, i, done) == Ok(done + [], i + 1)
    ensures StringOk(limits, done)
    ensures HasAt(s, i, PiecesText([]) + [QUOTE]) && PiecesText([]) == []
  {
    assert done + [] == done;
    assert [] + [QUOTE] == [QUOTE];
  }

  lemma StringRestNotEmpty(s: seq<Byte>, limits: Limits, i: nat, done: seq<Piece>)
    requires i <= |s| && AllOk(done) && StringRest(s, limits, i, done).Ok?
    ensures i < |s|
  {
  }

  lemma {:induction false} StringRestText(s: seq<Byte>, limits: Limits, i: nat, done: seq<Piece>)
    returns (rest: seq<Piece>)
    requires i <= |s| && AllOk(done)
    requires StringRest(s, limits, i, done).Ok?
    ensures StringRest(s, limits, i, done).value == done + rest
    ensures HasAt(s, i, PiecesText(rest) + [QUOTE])
    ensures StringRest(s, limits, i, done).next == i + |PiecesText(rest)| + 1
    decreases |s| - i
  {
    hide StringRest, PiecesText, PieceText, HasAt, AllOk, PieceOk;
    StringRestNotEmpty(s, limits, i, done);
    if s[i] == QUOTE {
      rest := [];
      StringRestEnd(s, limits, i, done);
    } else {
      var p, next := StringStepSound(s, limits, i, done);
      var tail := StringRestText(s, limits, next, done + [p]);
      rest := [p] + tail;
      Assoc(done, [p], tail);
      TextSplit(s, i, p, tail);
    }
  }

  lemma {:induction false} StringRestOk(s: seq<Byte>, limits: Limits, i: nat, done: seq<Piece>)
    requires i <= |s| && AllOk(done)
    requires StringRest(s, limits, i, done).Ok?
    ensures StringOk(limits, StringRest(s, limits, i, done).value)
    decreases |s| - i
  {
    hide StringRest, PieceText, HasAt, AllOk, PieceOk, StringOk;
    StringRestNotEmpty(s, limits, i, done);
    if s[i] == QUOTE {
      StringRestEnd(s, limits, i, done);
      assert done + [] == done;
    } else {
      var p, next := StringStepSound(s, limits, i, done);
      StringRestOk(s, limits, next, done + [p]);
    }
  }

  /** An accepted string token is the text of its units, and obeys the limits. */
  lemma ParseStringSound(s: seq<Byte>, limits: Limits, p: nat)
    requires p <= |s| && ParseString(s, limits, p).Ok?
    ensures var r := ParseString(s, limits, p);
            && StringOk(limits, r.value)
            && HasAt(s, p, StringText(r.value))
            && r.next == p + |StringText(r.value)|
  {
    var r := ParseString(s, limits, p);
    StringRestOk(s, limits, p + 1, []);
    var rest := StringRestText(s, limits, p + 1, []);
    assert [] + rest == rest;
    HasAtConcat(s, p, [QUOTE], PiecesText(rest) + [QUOTE]);
    assert StringText(rest) == [QUOTE] + (PiecesText(rest) + [QUOTE]);
  }

  lemma EscapeComplete(s: seq<Byte>, i: nat, p: Piece)
    requires PieceOk(p) && !p.Raw? && HasAt(s, i, PieceText(p))
    ensures i < |s| && s[i] == BACKSLASH && ParseEscape(s, i) == Ok(p, i + |PieceText(p)|)
  {
    HasAtIndex(s, i, PieceText(p), 0);
    HasAtIndex(s, i, PieceText(p), 1);
    if p.Unicode? {
      HasAtConcat(s, i, [BACKSLASH, LOWER_U], p.h);
    } else if p.Pair? {
      PairTextSplit(s, i, p.hi, p.lo);
    }
  }

  lemma RawComplete(s: seq<Byte>, i: nat, b: Byte)
    requires PieceOk(Raw(b)) && HasAt(s, i, PieceText(Raw(b)))
    ensures i < |s| && s[i] == b && b >= 0x20 && b != QUOTE && b != BACKSLASH
  {
    HasAtIndex(s, i, PieceText(Raw(b)), 0);
  }

  /** What has been read so far is not larger than what the whole token decodes to. */
  lemma ValueSoFar(done: seq<Piece>, p: Piece, tail: seq<Piece>)
    requires AllOk(done) && PieceOk(p) && AllOk(tail)
    ensures AllOk(done + [p]) && AllOk(done + [p] + tail)
    ensures |PiecesValue(done + [p])| <= |PiecesValue(done + [p] + tail)|
  {
    hide PiecesValue, PieceOk;
    SingleOk(p);
    AllOkParts(done, [p]);
    PiecesValueConcat(done + [p], tail);
  }

  lemma SingleOk(p: Piece)
    requires PieceOk(p)
    ensures AllOk([p])
  {
  }

  /** One scanner step over a unit that is there. */
  lemma StringStepComplete(
    s: seq<Byte>, limits: Limits, i: nat, done: seq<Piece>, p: Piece, tail: seq<Piece>, all: seq<Piece>)
    requires i <= |s| && AllOk(done) && PieceOk(p) && AllOk(tail)
    requires all == done + [p] + tail && AllOk(all) && |PiecesValue(all)| <= limits.stringBytes
    requires HasAt(s, i, PieceText(p))
    ensures AllOk(done + [p]) && i + |PieceText(p)| <= |s|
    ensures StringRest(s, limits, i, done) == StringRest(s, limits, i + |PieceText(p)|, done + [p])
  {
    hide PiecesValue, ParseEscape, AllOk, ValidUtf8, EncodeScalar;
    ValueSoFar(done, p, tail);
    if p.Raw? {
      RawComplete(s, i, p.b);
    } else {
      EscapeComplete(s, i, p);
    }
  }

  lemma StringEndComplete(s: seq<Byte>, limits: Limits, i: nat, all: seq<Piece>)
    requires StringOk(limits, all) && HasAt(s, i, PiecesText([]) + [QUOTE])
    ensures i <= |s| && StringRest(s, limits, i, all) == Ok(all, i + 1)
  {
    HasAtIndex(s, i, PiecesText([]) + [QUOTE], 0);
  }

  lemma {:induction false} StringRestComplete(
    s: seq<Byte>, limits: Limits, i: nat, done: seq<Piece>, rest: seq<Piece>, all: seq<Piece>)
    requires i <= |s| && AllOk(done) && AllOk(rest)
    requires all == done + rest && StringOk(limits, all)
    requires HasAt(s, i, PiecesText(rest) + [QUOTE])
    ensures StringRest(s, limits, i, done) == Ok(all, i + |PiecesText(rest)| + 1)
    decreases |rest|
  {
    hide StringRest, HasAt, PieceText, PieceOk, PiecesValue, ValidUtf8;
    if rest == [] {
      assert done == all;
      StringEndComplete(s, limits, i, all);
    } else {
      var p, tail := rest[0], rest[1..];
      assert rest == [p] + tail;
      Assoc(done, [p], tail);
      assert all == done + [p] + tail;
      TextSplit(s, i, p, tail);
      StringStepComplete(s, limits, i, done, p, tail, all);
      StringRestComplete(s, limits, i + |PieceText(p)|, done + [p], tail, all);
    }
  }

  /** The scanner reads back the units of any text that obeys the limits. */
  lemma ParseStringComplete(s: seq<Byte>, limits: Limits, p: nat, ps: seq<Piece>)
    requires StringOk(limits, ps) && HasAt(s, p, StringText(ps))
    ensures p <= |s| && ParseString(s, limits, p) == Ok(ps, p + |StringText(ps)|)
  {
    assert StringText(ps) == [QUOTE] + (PiecesText(ps) + [QUOTE]);
    HasAtConcat(s, p, [QUOTE], PiecesText(ps) + [QUOTE]);
    HasAtIndex(s, p, [QUOTE], 0);
    assert [] + ps == ps;
    StringRestComplete(s, limits, p + 1, [], ps, ps);
  }

  // --- The single UTF-8 check -------------------------------------------------------------

  lemma EscapeTextIsAscii(p: Piece)
    requires PieceOk(p) && !p.Raw?
    ensures forall b | b in PieceText(p) :: b <= 0x7F
    ensures PieceText(p)[0] == BACKSLASH
  {
  }

  lemma EscapedScalarLead(p: Piece)
    requires PieceOk(p) && !p.Raw?
    ensures PieceValue(p) != [] && !Continuation(PieceValue(p)[0])
  {
  }

  /** An escape separates what is before it from what is behind it, decoded or not. */
  lemma EscapeSeparates(acc: seq<Byte>, p: Piece, value: seq<Byte>, text: seq<Byte>)
    requires PieceOk(p) && !p.Raw?
    ensures ValidUtf8(acc + (PieceValue(p) + value)) <==> ValidUtf8(acc) && ValidUtf8(value)
    ensures ValidUtf8(acc + (PieceText(p) + text)) <==> ValidUtf8(acc) && ValidUtf8(text)
  {
    EscapedScalarLead(p);
    EscapeTextIsAscii(p);
    SplitAtBoundary(acc, PieceValue(p) + value);
    StripScalar(PieceScalar(p), value);
    SplitAtBoundary(acc, PieceText(p) + text);
    StripAscii(PieceText(p), text);
  }

  lemma MoveRaw(acc: seq<Byte>, b: Byte, rest: seq<Byte>)
    ensures acc + ([b] + rest) == acc + [b] + rest
  {
  }

  lemma {:induction false} Utf8CheckFrom(acc: seq<Byte>, ps: seq<Piece>)
    requires AllOk(ps)
    ensures ValidUtf8(acc + PiecesValue(ps)) <==> ValidUtf8(acc + PiecesText(ps))
    decreases |ps|, 1
  {
    if ps != [] && ps[0].Raw? {
      var p, rest := ps[0], ps[1..];
      MoveRaw(acc, p.b, PiecesValue(rest));
      MoveRaw(acc, p.b, PiecesText(rest));
      Utf8CheckFrom(acc + [p.b], rest);
    } else if ps != [] {
      Utf8CheckBehindEscape(acc, ps[0], ps[1..]);
    }
  }

  lemma {:induction false} Utf8CheckBehindEscape(acc: seq<Byte>, p: Piece, rest: seq<Piece>)
    requires PieceOk(p) && !p.Raw? && AllOk(rest)
    ensures ValidUtf8(acc + (PieceValue(p) + PiecesValue(rest)))
            <==> ValidUtf8(acc + (PieceText(p) + PiecesText(rest)))
    decreases |rest| + 1, 0
  {
    EscapeSeparates(acc, p, PiecesValue(rest), PiecesText(rest));
    Utf8CheckFrom([], rest);
    assert [] + PiecesValue(rest) == PiecesValue(rest) && [] + PiecesText(rest) == PiecesText(rest);
  }

  /** Checking the decoded string once is the same as checking the bytes between the quotes. */
  lemma Utf8CheckOnDecodedIsEnough(ps: seq<Piece>)
    requires AllOk(ps)
    ensures ValidUtf8(PiecesValue(ps)) <==> ValidUtf8(PiecesText(ps))
  {
    Utf8CheckFrom([], ps);
    assert [] + PiecesValue(ps) == PiecesValue(ps) && [] + PiecesText(ps) == PiecesText(ps);
  }

  // --- The serializer ---------------------------------------------------------------------

  /** What one byte is printed as inside a string. */
  function Escaped(b: Byte): seq<Byte> {
    if b == QUOTE then [BACKSLASH, QUOTE]
    else if b == BACKSLASH then [BACKSLASH, BACKSLASH]
    else if b == 8 then [BACKSLASH, 'b' as int]
    else if b == 12 then [BACKSLASH, 'f' as int]
    else if b == 10 then [BACKSLASH, 'n' as int]
    else if b == 13 then [BACKSLASH, 'r' as int]
    else if b == 9 then [BACKSLASH, 't' as int]
    else if b < 0x20 then
      [BACKSLASH, LOWER_U, '0' as int, '0' as int, HexDigit(b / 16), HexDigit(b % 16)]
    else [b]
  }

  function EscapedBody(v: seq<Byte>): seq<Byte> {
    if v == [] then [] else Escaped(v[0]) + EscapedBody(v[1..])
  }

  function EscapedString(v: seq<Byte>): seq<Byte> {
    [QUOTE] + EscapedBody(v) + [QUOTE]
  }

  /** The unit the serializer uses for a byte. */
  function PieceOf(b: Byte): (p: Piece)
    ensures PieceOk(p) && PieceText(p) == Escaped(b) && PieceValue(p) == [b]
  {
    if b == QUOTE || b == BACKSLASH then Short(b)
    else if b == 8 then Short('b' as int)
    else if b == 12 then Short('f' as int)
    else if b == 10 then Short('n' as int)
    else if b == 13 then Short('r' as int)
    else if b == 9 then Short('t' as int)
    else if b < 0x20 then
      HexDigitValue(b / 16);
      HexDigitValue(b % 16);
      Unicode(['0' as int, '0' as int, HexDigit(b / 16), HexDigit(b % 16)])
    else Raw(b)
  }

  function PiecesOf(v: seq<Byte>): (ps: seq<Piece>)
    ensures AllOk(ps)
  {
    if v == [] then [] else [PieceOf(v[0])] + PiecesOf(v[1..])
  }

  /** The printed string is the text of units that decode to exactly the printed bytes. */
  lemma {:induction false} PrintedUnits(v: seq<Byte>)
    ensures PiecesText(PiecesOf(v)) == EscapedBody(v)
    ensures PiecesValue(PiecesOf(v)) == v
  {
    if v != [] {
      hide PieceOf, PieceText, Escaped, PieceOk;
      var p, rest := PieceOf(v[0]), PiecesOf(v[1..]);
      PrintedUnits(v[1..]);
      Cons(p, rest);
      assert PiecesValue([p] + rest) == [v[0]] + v[1..];
    }
  }

  /** Bytes that are printed as they are. */
  predicate PrintsRaw(v: seq<Byte>) {
    forall k | 0 <= k < |v| :: v[k] >= 0x20 && v[k] != QUOTE && v[k] != BACKSLASH
  }

  lemma {:induction false} PrintedRaw(v: seq<Byte>)
    ensures AllRaw(PiecesOf(v)) <==> PrintsRaw(v)
  {
    if v != [] {
      Cons(PieceOf(v[0]), PiecesOf(v[1..]));
      PrintedRaw(v[1..]);
      assert forall k | 1 <= k < |v| :: v[k] == v[1..][k - 1];
      assert PrintsRaw(v) <==> PieceOf(v[0]).Raw? && PrintsRaw(v[1..]);
    }
  }

  /** What is decoded without escapes is printed without escapes. */
  lemma {:induction false} RawPrintsRaw(ps: seq<Piece>)
    requires AllOk(ps) && AllRaw(ps)
    ensures PrintsRaw(PiecesValue(ps))
  {
    if ps != [] {
      RawPrintsRaw(ps[1..]);
    }
  }

  lemma {:induction false} EscapedBodyConcat(v: seq<Byte>, w: seq<Byte>)
    ensures EscapedBody(v + w) == EscapedBody(v) + EscapedBody(w)
  {
    if v == [] {
      EmptyLeft(w);
      EmptyLeft(EscapedBody(w));
    } else {
      ConsSplit(v, w);
      EscapedBodyConcat(v[1..], w);
      Assoc(Escaped(v[0]), EscapedBody(v[1..]), EscapedBody(w));
    }
  }

  /** Printing what a unit decodes to never takes more bytes than the unit did. */
  lemma PieceNeverGrows(p: Piece)
    requires PieceOk(p)
    ensures |EscapedBody(PieceValue(p))| <= |PieceText(p)|
  {
    var v := PieceValue(p);
    if |v| == 1 {
      assert EscapedBody(v) == Escaped(v[0]) + EscapedBody(v[1..]);
    } else {
      HighBytesPrintRaw(v);
    }
  }

  lemma {:induction false} HighBytesPrintRaw(v: seq<Byte>)
    requires forall b | b in v :: b >= 0x80
    ensures EscapedBody(v) == v
  {
    if v != [] {
      assert v[0] in v;
      assert forall b | b in v[1..] :: b in v;
      HighBytesPrintRaw(v[1..]);
      assert Escaped(v[0]) == [v[0]];
      assert [v[0]] + v[1..] == v;
    }
  }

  lemma {:induction false} StringNeverGrows(ps: seq<Piece>)
    requires AllOk(ps)
    ensures |EscapedString(PiecesValue(ps))| <= |StringText(ps)|
  {
    if ps != [] {
      var p, rest := ps[0], ps[1..];
      PieceNeverGrows(p);
      StringNeverGrows(rest);
      EscapedBodyConcat(PieceValue(p), PiecesValue(rest));
    }
  }
}
