/** The cursor that scans JSON text, with its position updated in place. */
module JsonCursor {
  import opened Bytes
  import opened Hex
  import opened Utf8
  import opened Decimal
  import opened JsonString
  import opened JsonNumber
  import opened JsonTree

  /** A decoded string: owned when an escape had to be decoded, a piece of the input otherwise. */
  datatype ParsedString = ParsedString(owned: seq<Byte>, borrowed: seq<Byte>, ownsValue: bool) {
    function View(): seq<Byte> {
      if ownsValue then owned else borrowed
    }
  }

  class Cursor {
    const input: seq<Byte>
    const limits: Limits
    var position: nat

    ghost predicate Valid()
      reads this`position
    {
      position <= |input|
    }

    constructor (input: seq<Byte>, limits: Limits)
      ensures Valid() && position == 0
      ensures this.input == input && this.limits == limits
    {
      this.input := input;
      this.limits := limits;
      position := 0;
    }

    function Peek(): Byte
      reads this`position
    {
      At(input, position)
    }

    predicate StartsWith(literal: seq<Byte>)
      reads this`position
    {
      HasAt(input, position, literal)
    }

    method SkipWhitespace()
      requires Valid()
      modifies this`position
      ensures Valid() && position == SkipBlank(input, old(position))
    {
      while position < |input| && IsBlank(input[position])
        invariant position <= |input|
        invariant SkipBlank(input, position) == SkipBlank(input, old(position))
        decreases |input| - position
      {
        position := position + 1;
      }
    }

    method Consume(b: Byte) returns (ok: bool)
      requires Valid() && b != 0
      modifies this`position
      ensures Valid() && ok == (At(input, old(position)) == b)
      ensures position == if ok then old(position) + 1 else old(position)
    {
      ok := Peek() == b;
      if ok {
        position := position + 1;
      }
    }

    method ConsumeLiteral(literal: seq<Byte>) returns (r: Parse<()>)
      requires Valid()
      modifies this`position
      ensures Valid()
      ensures HasAt(input, old(position), literal) ==> r == Ok((), position) && position == old(position) + |literal|
      ensures !HasAt(input, old(position), literal) ==>
                r == Err(InvalidLiteral, old(position)) && position == old(position)
    {
      if !StartsWith(literal) {
        return Err(InvalidLiteral, position);
      }
      position := position + |literal|;
      return Ok((), position);
    }

    // --- Strings --------------------------------------------------------------------------

    method ParseHexQuad() returns (r: Parse<nat>)
      requires Valid()
      modifies this`position
      ensures Valid()
      ensures var q := ParseQuad(input, old(position));
              if q.Err? then r == q.Fail<nat>() && position == q.offset
              else r == Ok(QuadValue(q.value), q.next) && position == q.next
    {
      if |input| - position < 4 {
        return Err(InvalidUnicode, position);
      }
      var value := 0;
      var index := 0;
      ghost var start := position;
      while index < 4
        invariant index <= 4 && position == start + index && start + 4 <= |input|
        invariant forall j | start <= j < start + index :: HexValue(input[j]) >= 0
        invariant QuadFrom(input, start, index) == ParseQuad(input, start)
        invariant value == PartialQuad(input, start, index)
      {
        var digit := HexValue(input[position]);
        position := position + 1;
        if digit < 0 {
          return Err(InvalidUnicode, position);
        }
        value := value * 16 + digit;
        index := index + 1;
      }
      PartialQuadIsQuad(input, start);
      return Ok(value, position);
    }

    /** The escape whose backslash has just been passed. */
    method Unescape() returns (r: Parse<seq<Byte>>)
      requires Valid() && position > 0 && input[position - 1] == BACKSLASH
      modifies this`position
      ensures Valid()
      ensures var e := ParseEscape(input, old(position) - 1);
              if e.Err? then r == e.Fail<seq<Byte>>() && position == e.offset
              else r == Ok(PieceValue(e.value), e.next) && position == e.next
    {
      if position == |input| {
        return Err(InvalidEscape, position);
      }
      var escape := input[position];
      position := position + 1;
      if escape == LOWER_U {
        r := UnescapeUnicode();
        return;
      }
      var value := ShortValue(escape);
      if value.None? {
        return Err(InvalidEscape, position);
      }
      return Ok([value.value], position);
    }

    method UnescapeUnicode() returns (r: Parse<seq<Byte>>)
      requires Valid()
      modifies this`position
      ensures Valid()
      ensures var e := ParseUnicode(input, old(position));
              if e.Err? then r == e.Fail<seq<Byte>>() && position == e.offset
              else r == Ok(PieceValue(e.value), e.next) && position == e.next
    {
      hide ParseQuad, EncodeScalar, ValidUtf8;
      ghost var start := position;
      var high := ParseHexQuad();
      if high.Err? {
        return high.Fail();
      }
      var scalar: nat := high.value;
      if HighSurrogate(scalar) {
        if !StartsWith([BACKSLASH, LOWER_U]) {
          return Err(InvalidUnicode, position);
        }
        position := position + 2;
        var low := ParseHexQuad();
        if low.Err? {
          return low.Fail();
        }
        if !LowSurrogate(low.value) {
          return Err(InvalidUnicode, position);
        }
        scalar := 0x10000 + (scalar - 0xD800) * 1024 + (low.value - 0xDC00);
      } else if LowSurrogate(scalar) {
        return Err(InvalidUnicode, position);
      }
      var encoded := AppendUtf8([], scalar);
      assert [] + EncodeScalar(scalar) == EncodeScalar(scalar);
      return Ok(encoded, position);
    }

    method ParseString() returns (r: Parse<ParsedString>)
      requires Valid()
      modifies this`position
      ensures Valid()
      ensures r.Erase() == JsonString.ParseString(input, limits, old(position)).Erase()
      ensures position == if r.Ok? then r.next else r.offset
      ensures r.Ok? ==> old(position) + 2 <= position
      ensures r.Ok? ==> r.value.View() == PiecesValue(JsonString.ParseString(input, limits, old(position)).value)
      ensures r.Ok? ==> r.value.ownsValue == HasBackslash(input, old(position) + 1, position - 1)
      ensures r.Ok? && !r.value.ownsValue ==> r.value.borrowed == input[old(position) + 1..position - 1]
    {
      hide StringRest, PiecesValue, PieceValue, ParseEscape, AllOk, At, HasBackslash;
      ghost var start := position;
      var quoted := Consume(QUOTE);
      if !quoted {
        return Err(ExpectedString, position);
      }
      var owned: seq<Byte> := [];
      var ownsValue := false;
      var segmentStart := position;
      ghost var done: seq<Piece> := [];
      NoPieces(input, position);
      NoBackslash(input, position);
      while position < |input|
        invariant start + 1 <= segmentStart <= position <= |input|
        invariant AllOk(done) && PiecesValue(done) == owned + input[segmentStart..position]
        invariant StringRest(input, limits, position, done) == JsonString.ParseString(input, limits, start)
        invariant ownsValue == HasBackslash(input, start + 1, position)
        invariant !ownsValue ==> owned == [] && segmentStart == start + 1
        decreases |input| - position
      {
        var offset := position;
        var character := input[position];
        position := position + 1;
        StringStep(input, limits, offset, done);
        if character == QUOTE {
          r := FinishString(owned, ownsValue, segmentStart, offset, done);
          return;
        }
        if character < 0x20 {
          return Err(InvalidString, position);
        }
        if character != BACKSLASH {
          NextBackslash(input, start + 1, offset);
          SnocRaw(done, owned, input, segmentStart, offset);
          done := done + [Raw(character)];
          continue;
        }
        ownsValue := true;
        var escape := AppendEscape(owned, segmentStart, offset, done);
        if escape.Err? {
          return escape.Fail();
        }
        done := done + [ParseEscape(input, offset).value];
        owned := escape.value;
        segmentStart := position;
        EmptySegment(input, position, owned);
        BackslashSeen(input, start + 1, offset, position);
        if |owned| > limits.stringBytes {
          return Err(StringTooLarge, position);
        }
      }
      StringEnds(input, limits, done);
      return Err(UnterminatedString, position);
    }

    /** The owned value with the segment so far and the escape whose backslash at `offset` has just been passed. */
    method AppendEscape(owned: seq<Byte>, segmentStart: nat, offset: nat, ghost done: seq<Piece>)
      returns (r: Parse<seq<Byte>>)
      requires Valid() && segmentStart <= offset && position == offset + 1 && input[offset] == BACKSLASH
      requires AllOk(done) && PiecesValue(done) == owned + input[segmentStart..offset]
      modifies this`position
      ensures Valid()
      ensures var e := ParseEscape(input, offset);
              if e.Err? then r == e.Fail<seq<Byte>>() && position == e.offset
              else
                && position == e.next && AllOk(done + [e.value])
                && r == Ok(PiecesValue(done + [e.value]), e.next)
    {
      hide PiecesValue, PieceValue, ParseEscape, AllOk;
      var escape := Unescape();
      if escape.Err? {
        return escape;
      }
      PiecesValueSnoc(done, ParseEscape(input, offset).value);
      return Ok(owned + input[segmentStart..offset] + escape.value, position);
    }

    /** The closing quote at `offset` has just been passed. */
    method FinishString(
      owned: seq<Byte>, ownsValue: bool, segmentStart: nat, offset: nat, ghost done: seq<Piece>)
      returns (r: Parse<ParsedString>)
      requires segmentStart <= offset < |input| && position == offset + 1 && input[offset] == QUOTE
      requires AllOk(done) && PiecesValue(done) == owned + input[segmentStart..offset]
      requires !ownsValue ==> owned == []
      ensures r.Erase() == StringRest(input, limits, offset, done).Erase()
      ensures r.Err? ==> r.offset == position
      ensures r.Ok? ==> r.next == position && StringRest(input, limits, offset, done).value == done
      ensures r.Ok? ==> r.value.View() == PiecesValue(done) && r.value.ownsValue == ownsValue
      ensures r.Ok? && !ownsValue ==> r.value.borrowed == input[segmentStart..offset]
    {
      assert [] + input[segmentStart..offset] == input[segmentStart..offset];
      var parsed :=
        if ownsValue then ParsedString(owned + input[segmentStart..offset], [], true)
        else ParsedString([], input[segmentStart..offset], false);
      if |parsed.View()| > limits.stringBytes {
        return Err(StringTooLarge, position);
      }
      var valid := CheckUtf8(parsed.View());
      if !valid {
        return Err(InvalidUtf8, position);
      }
      return Ok(parsed, position);
    }

    // --- Numbers --------------------------------------------------------------------------

    method SkipDigits()
      requires Valid()
      modifies this`position
      ensures Valid() && position == DigitsEnd(input, old(position))
    {
      while IsDigit(Peek())
        invariant position <= |input|
        invariant DigitsEnd(input, position) == DigitsEnd(input, old(position))
        decreases |input| - position
      {
        position := position + 1;
      }
    }

    /** The token that was scanned. */
    method ParseNumber() returns (r: Parse<seq<Byte>>)
      requires Valid()
      modifies this`position
      ensures Valid() && old(position) <= position
      ensures r.Erase() == JsonNumber.ParseNumber(input, old(position)).Erase()
      ensures position == if r.Ok? then r.next else r.offset
      ensures r.Ok? ==> r.value == input[old(position)..position]
    {
      hide ParseInteger, ParseFraction, ParseExponent;
      var start := position;
      var minus := Consume(MINUS);
      var integer := SkipInteger();
      if integer.Err? {
        return integer.Fail();
      }
      var fraction := SkipFraction();
      if fraction.Err? {
        return fraction.Fail();
      }
      var exponent := SkipExponent();
      if exponent.Err? {
        return exponent.Fail();
      }
      return Ok(input[start..position], position);
    }

    method SkipInteger() returns (r: Parse<()>)
      requires Valid()
      modifies this`position
      ensures Valid() && old(position) <= position
      ensures r == ParseInteger(input, old(position)).Erase()
      ensures position == if r.Ok? then r.next else r.offset
    {
      var zero := Consume(ZERO);
      if zero {
        if IsDigit(Peek()) {
          return Err(InvalidNumber, position);
        }
      } else {
        if !IsDigit(Peek()) || Peek() == ZERO {
          return Err(InvalidNumber, position);
        }
        SkipDigits();
      }
      return Ok((), position);
    }

    method SkipFraction() returns (r: Parse<()>)
      requires Valid()
      modifies this`position
      ensures Valid() && old(position) <= position
      ensures r == ParseFraction(input, old(position)).Erase()
      ensures position == if r.Ok? then r.next else r.offset
    {
      var dot := Consume(DOT);
      if dot {
        if !IsDigit(Peek()) {
          return Err(InvalidNumber, position);
        }
        SkipDigits();
      }
      return Ok((), position);
    }

    method SkipExponent() returns (r: Parse<()>)
      requires Valid()
      modifies this`position
      ensures Valid() && old(position) <= position
      ensures r == ParseExponent(input, old(position)).Erase()
      ensures position == if r.Ok? then r.next else r.offset
    {
      if ExponentMarker(Peek()) {
        position := position + 1;
        if Sign(Peek()) {
          position := position + 1;
        }
        if !IsDigit(Peek()) {
          return Err(InvalidNumber, position);
        }
        SkipDigits();
      }
      return Ok((), position);
    }

    // --- Skipping -------------------------------------------------------------------------

    /** Skips a value of any type. */
    method SkipValue(depth: nat) returns (r: Parse<()>)
      requires Valid()
      modifies this`position
      ensures Valid()
      ensures r == ParseTree(input, limits, SkipBlank(input, old(position)), depth).Erase()
      ensures position == if r.Ok? then r.next else r.offset
      ensures r.Ok? ==> old(position) < position
      decreases |input| - position, 1
    {
      SkipWhitespace();
      if Peek() == QUOTE {
        var text := ParseString();
        return text.Erase();
      }
      if Peek() == OPEN_BRACE {
        r := SkipObject(depth);
        return;
      }
      if Peek() == OPEN_BRACKET {
        r := SkipArray(depth);
        return;
      }
      if StartsWith(TRUE_TEXT) {
        r := ConsumeLiteral(TRUE_TEXT);
        return;
      }
      if StartsWith(FALSE_TEXT) {
        r := ConsumeLiteral(FALSE_TEXT);
        return;
      }
      if StartsWith(NULL_TEXT) {
        r := ConsumeLiteral(NULL_TEXT);
        return;
      }
      var number := ParseNumber();
      return number.Erase();
    }

    /** A member of a skipped object, and the white space behind it. */
    method SkipMember(depth: nat) returns (r: Parse<()>)
      requires Valid() && SkipBlank(input, position) == position
      modifies this`position
      ensures Valid()
      ensures r == ParseMember(input, limits, old(position), depth).Erase()
      ensures position == if r.Ok? then r.next else r.offset
      ensures r.Ok? ==> old(position) < position
      decreases |input| - position, 2
    {
      hide ParseTree, JsonString.ParseString;
      var key := ParseString();
      if key.Err? {
        return key.Fail();
      }
      SkipWhitespace();
      var colon := Consume(COLON);
      if !colon {
        return Err(ExpectedColon, position);
      }
      var skipped := SkipValue(depth);
      if skipped.Err? {
        return skipped;
      }
      SkipWhitespace();
      return Ok((), position);
    }

    method SkipObject(depth: nat) returns (r: Parse<()>)
      requires Valid() && At(input, position) == OPEN_BRACE
      modifies this`position
      ensures Valid()
      ensures r == ParseTree(input, limits, old(position), depth).Erase()
      ensures position == if r.Ok? then r.next else r.offset
      ensures r.Ok? ==> old(position) < position
      decreases |input| - position, 0
    {
      hide ParseMembers, ParseTree, SkipBlank;
      ObjectStart(input, limits, position, depth);
      if depth >= limits.depth {
        return Err(MaximumDepth, position);
      }
      position := position + 1;
      MembersSkipBlank(input, limits, position, depth, 0);
      SkipBlankTwice(input, position);
      SkipWhitespace();
      var empty := Consume(CLOSE_BRACE);
      if empty {
        return Ok((), position);
      }
      r := SkipMembers(depth);
    }

    /** The members of a skipped object that is not empty, up to and including its closing brace. */
    method SkipMembers(depth: nat) returns (r: Parse<()>)
      requires Valid() && SkipBlank(input, position) == position
      modifies this`position
      ensures Valid()
      ensures r == ParseMembers(input, limits, old(position), depth, 0).Erase()
      ensures position == if r.Ok? then r.next else r.offset
      ensures r.Ok? ==> old(position) < position
      decreases |input| - position, 3
    {
      hide ParseMembers, ParseMember, SkipBlank;
      ghost var start := position;
      var members := 0;
      while true
        invariant start <= position <= |input| && SkipBlank(input, position) == position
        invariant members > 0 ==> start < position
        invariant ParseMembers(input, limits, position, depth, members).Erase()
               == ParseMembers(input, limits, start, depth, 0).Erase()
        decreases |input| - position
      {
        MembersStep(input, limits, position, depth, members);
        members := members + 1;
        if members > limits.objectMembers {
          return Err(ObjectTooLarge, position);
        }
        var member := SkipMember(depth + 1);
        if member.Err? {
          return member;
        }
        var close := Consume(CLOSE_BRACE);
        if close {
          return Ok((), position);
        }
        var comma := Consume(COMMA);
        if !comma {
          return Err(ExpectedComma, position);
        }
        MembersSkipBlank(input, limits, position, depth, members);
        SkipBlankTwice(input, position);
        SkipWhitespace();
      }
    }

    /** An element of a skipped array, and the white space behind it. */
    method SkipElement(depth: nat) returns (r: Parse<()>)
      requires Valid() && SkipBlank(input, position) == position
      modifies this`position
      ensures Valid()
      ensures r == ParseElement(input, limits, old(position), depth).Erase()
      ensures position == if r.Ok? then r.next else r.offset
      ensures r.Ok? ==> old(position) < position
      decreases |input| - position, 2
    {
      hide ParseTree;
      r := SkipValue(depth);
      if r.Ok? {
        SkipWhitespace();
        r := Ok((), position);
      }
    }

    method SkipArray(depth: nat) returns (r: Parse<()>)
      requires Valid() && At(input, position) == OPEN_BRACKET
      modifies this`position
      ensures Valid()
      ensures r == ParseTree(input, limits, old(position), depth).Erase()
      ensures position == if r.Ok? then r.next else r.offset
      ensures r.Ok? ==> old(position) < position
      decreases |input| - position, 0
    {
      hide ParseElements, ParseTree, SkipBlank;
      ArrayStart(input, limits, position, depth);
      if depth >= limits.depth {
        return Err(MaximumDepth, position);
      }
      position := position + 1;
      ElementsSkipBlank(input, limits, position, depth, 0);
      SkipBlankTwice(input, position);
      SkipWhitespace();
      var empty := Consume(CLOSE_BRACKET);
      if empty {
        return Ok((), position);
      }
      r := SkipElements(depth);
    }

    /** The elements of a skipped array that is not empty, up to and including its closing bracket. */
    method SkipElements(depth: nat) returns (r: Parse<()>)
      requires Valid() && SkipBlank(input, position) == position
      modifies this`position
      ensures Valid()
      ensures r == ParseElements(input, limits, old(position), depth, 0).Erase()
      ensures position == if r.Ok? then r.next else r.offset
      ensures r.Ok? ==> old(position) < position
      decreases |input| - position, 3
    {
      hide ParseElements, ParseElement, SkipBlank;
      ghost var start := position;
      var elements := 0;
      while true
        invariant start <= position <= |input| && SkipBlank(input, position) == position
        invariant elements > 0 ==> start < position
        invariant ParseElements(input, limits, position, depth, elements).Erase()
               == ParseElements(input, limits, start, depth, 0).Erase()
        decreases |input| - position
      {
        ElementsStep(input, limits, position, depth, elements);
        elements := elements + 1;
        if elements > limits.arrayElements {
          return Err(ArrayTooLarge, position);
        }
        var element := SkipElement(depth + 1);
        if element.Err? {
          return element;
        }
        var close := Consume(CLOSE_BRACKET);
        if close {
          return Ok((), position);
        }
        var comma := Consume(COMMA);
        if !comma {
          return Err(ExpectedComma, position);
        }
        ElementsSkipBlank(input, limits, position, depth, elements);
        SkipBlankTwice(input, position);
        SkipWhitespace();
      }
    }
  }

  // --- UTF-8 ------------------------------------------------------------------------------

  method CheckUtf8(value: seq<Byte>) returns (ok: bool)
    ensures ok == ValidUtf8(value)
  {
    hide UnitLength;
    var index := 0;
    while index < |value|
      invariant index <= |value|
      invariant ValidUtf8(value[index..]) == ValidUtf8(value)
      decreases |value| - index
    {
      var length := CheckUnit(value[index..]);
      if length == 0 {
        return false;
      }
      assert value[index..][length..] == value[index + length..];
      index := index + length;
    }
    return true;
  }

  /** The length of the unit that `rest` starts with, 0 when it starts with none. */
  method CheckUnit(rest: seq<Byte>) returns (length: nat)
    requires rest != []
    ensures length == UnitLength(rest)
  {
    var lead := rest[0];
    if lead <= 0x7F {
      assert Gather(rest, 0, 0) == lead;
      return 1;
    }
    var count: nat, scalar: nat, minimum: nat := 0, 0, 0;
    if lead / 32 == 6 {
      count, scalar, minimum := 1, lead % 32, 0x80;
    } else if lead / 16 == 14 {
      count, scalar, minimum := 2, lead % 16, 0x800;
    } else if lead / 8 == 30 {
      count, scalar, minimum := 3, lead % 8, 0x10000;
    } else {
      return 0;
    }
    if |rest| - 1 < count {
      return 0;
    }
    var offset := 1;
    while offset <= count
      invariant 1 <= offset <= count + 1
      invariant forall k | 1 <= k < offset :: Continuation(rest[k])
      invariant scalar == Gather(rest, count, offset - 1)
    {
      var continuation := rest[offset];
      if continuation / 64 != 2 {
        assert !Continuations(rest, 1, count);
        return 0;
      }
      scalar := scalar * 64 + continuation % 64;
      offset := offset + 1;
    }
    return if scalar < minimum || !IsScalar(scalar) then 0 else count + 1;
  }

  method AppendUtf8(output: seq<Byte>, scalar: nat) returns (r: seq<Byte>)
    requires IsScalar(scalar)
    ensures r == output + EncodeScalar(scalar)
  {
    var low: Byte := 0x80 + scalar % 64;
    if scalar <= 0x7F {
      var only: Byte := scalar;
      r := output + [only];
    } else if scalar <= 0x7FF {
      var lead: Byte := 0xC0 + scalar / 64;
      r := output + [lead] + [low];
    } else {
      var middle: Byte := 0x80 + scalar / 64 % 64;
      if scalar <= 0xFFFF {
        var lead: Byte := 0xE0 + scalar / 4096;
        r := output + [lead] + [middle] + [low];
      } else {
        var lead: Byte := 0xF0 + scalar / 262144;
        var high: Byte := 0x80 + scalar / 4096 % 64;
        r := output + [lead] + [high] + [middle] + [low];
      }
    }
  }

  // --- Facts the loops use ----------------------------------------------------------------

  /** The value of the first `k` of four digits. */
  function PartialQuad(s: seq<Byte>, i: nat, k: nat): nat
    requires i + 4 <= |s| && k <= 4
    requires forall j | i <= j < i + k :: HexValue(s[j]) >= 0
  {
    if k == 0 then 0 else PartialQuad(s, i, k - 1) * 16 + HexValue(s[i + k - 1])
  }

  lemma PartialQuadIsQuad(s: seq<Byte>, i: nat)
    requires i + 4 <= |s| && forall j | i <= j < i + 4 :: HexValue(s[j]) >= 0
    ensures HexQuad(s[i..i + 4]) && PartialQuad(s, i, 4) == QuadValue(s[i..i + 4])
  {
    assert PartialQuad(s, i, 1) == HexValue(s[i]);
    assert PartialQuad(s, i, 2) == PartialQuad(s, i, 1) * 16 + HexValue(s[i + 1]);
    assert PartialQuad(s, i, 3) == PartialQuad(s, i, 2) * 16 + HexValue(s[i + 2]);
  }

  lemma SliceSnoc(s: seq<Byte>, from: nat, to: nat)
    requires from <= to < |s|
    ensures s[from..to + 1] == s[from..to] + [s[to]]
  {
  }

  lemma NoPieces(s: seq<Byte>, p: nat)
    requires p <= |s|
    ensures AllOk([]) && PiecesValue([]) == [] + s[p..p]
  {
  }

  lemma EmptySegment(s: seq<Byte>, p: nat, owned: seq<Byte>)
    requires p <= |s|
    ensures owned + s[p..p] == owned
  {
  }

  lemma BackslashSeen(s: seq<Byte>, from: nat, at: nat, to: nat)
    requires from <= at < to <= |s| && s[at] == BACKSLASH
    ensures HasBackslash(s, from, to)
  {
    assert s[from..to][at - from] == BACKSLASH;
  }

  /** Some byte of the slice starts an escape. */
  predicate HasBackslash(s: seq<Byte>, from: nat, to: nat) {
    from <= to <= |s| && BACKSLASH in s[from..to]
  }

  /** A string is owned exactly when it holds an escape. */
  lemma OwnedIffEscaped(s: seq<Byte>, limits: Limits, p: nat)
    requires p <= |s| && JsonString.ParseString(s, limits, p).Ok?
    ensures var r := JsonString.ParseString(s, limits, p);
            HasBackslash(s, p + 1, r.next - 1) <==> !AllRaw(r.value)
  {
    hide JsonString.ParseString, PiecesText, AllRaw, HasAt;
    var r := JsonString.ParseString(s, limits, p);
    ParseStringSound(s, limits, p);
    BetweenQuotes(s, p, PiecesText(r.value));
    RawIffNoBackslash(r.value);
  }

  lemma BetweenQuotes(s: seq<Byte>, p: nat, body: seq<Byte>)
    requires HasAt(s, p, [QUOTE] + body + [QUOTE])
    ensures p + 1 + |body| < |s| && s[p + 1..p + 1 + |body|] == body
  {
    HasAtConcat(s, p, [QUOTE] + body, [QUOTE]);
    HasAtConcat(s, p, [QUOTE], body);
  }

  lemma NoBackslash(s: seq<Byte>, from: nat)
    requires from <= |s|
    ensures !HasBackslash(s, from, from)
  {
  }

  lemma NextBackslash(s: seq<Byte>, from: nat, to: nat)
    requires from <= to < |s| && s[to] != BACKSLASH
    ensures HasBackslash(s, from, to + 1) == HasBackslash(s, from, to)
  {
    SliceSnoc(s, from, to);
  }

  lemma StringEnds(s: seq<Byte>, limits: Limits, done: seq<Piece>)
    requires AllOk(done)
    ensures StringRest(s, limits, |s|, done) == Err(UnterminatedString, |s|)
  {
  }

  /** One round of scanning a string, spelled out. */
  lemma StringStep(s: seq<Byte>, limits: Limits, i: nat, done: seq<Piece>)
    requires i < |s| && AllOk(done)
    ensures s[i] < 0x20 ==> StringRest(s, limits, i, done) == Err(InvalidString, i + 1)
    ensures s[i] >= 0x20 && s[i] != QUOTE && s[i] != BACKSLASH ==>
              && AllOk(done + [Raw(s[i])])
              && StringRest(s, limits, i, done) == StringRest(s, limits, i + 1, done + [Raw(s[i])])
    ensures s[i] == BACKSLASH ==>
              var escape := ParseEscape(s, i);
              if escape.Err? then StringRest(s, limits, i, done) == escape.Fail()
              else
                && AllOk(done + [escape.value])
                && StringRest(s, limits, i, done)
                   == if |PiecesValue(done + [escape.value])| > limits.stringBytes then Err(StringTooLarge, escape.next)
                      else StringRest(s, limits, escape.next, done + [escape.value])
  {
    hide PiecesValue, PieceValue, ParseEscape, ValidUtf8;
    if s[i] == BACKSLASH {
      if ParseEscape(s, i).Ok? {
        AllOkParts(done, [ParseEscape(s, i).value]);
      }
    } else if s[i] >= 0x20 && s[i] != QUOTE {
      AllOkParts(done, [Raw(s[i])]);
    }
  }

  lemma PiecesValueSnoc(done: seq<Piece>, p: Piece)
    requires AllOk(done) && PieceOk(p)
    ensures AllOk(done + [p]) && PiecesValue(done + [p]) == PiecesValue(done) + PieceValue(p)
  {
    PiecesValueConcat(done, [p]);
    assert PiecesValue([p]) == PieceValue(p) + [];
  }

  lemma SnocRaw(done: seq<Piece>, owned: seq<Byte>, s: seq<Byte>, from: nat, to: nat)
    requires AllOk(done) && from <= to < |s| && PieceOk(Raw(s[to]))
    requires PiecesValue(done) == owned + s[from..to]
    ensures AllOk(done + [Raw(s[to])]) && PiecesValue(done + [Raw(s[to])]) == owned + s[from..to + 1]
  {
    PiecesValueSnoc(done, Raw(s[to]));
    SliceSnoc(s, from, to);
    Assoc(owned, s[from..to], [s[to]]);
  }

  lemma ObjectStart(s: seq<Byte>, limits: Limits, p: nat, depth: nat)
    requires p <= |s| && At(s, p) == OPEN_BRACE
    ensures var all := ParseTree(s, limits, p, depth).Erase();
            if depth >= limits.depth then all == Err(MaximumDepth, p)
            else if At(s, SkipBlank(s, p + 1)) == CLOSE_BRACE then all == Ok((), SkipBlank(s, p + 1) + 1)
            else all == ParseMembers(s, limits, p + 1, depth, 0).Erase()
  {
    hide ParseMembers, ParseElements, JsonString.ParseString, JsonNumber.ParseNumber;
  }

  lemma ArrayStart(s: seq<Byte>, limits: Limits, p: nat, depth: nat)
    requires p <= |s| && At(s, p) == OPEN_BRACKET
    ensures var all := ParseTree(s, limits, p, depth).Erase();
            if depth >= limits.depth then all == Err(MaximumDepth, p)
            else if At(s, SkipBlank(s, p + 1)) == CLOSE_BRACKET then all == Ok((), SkipBlank(s, p + 1) + 1)
            else all == ParseElements(s, limits, p + 1, depth, 0).Erase()
  {
    hide ParseMembers, ParseElements, JsonString.ParseString, JsonNumber.ParseNumber;
  }

  /** Leading white space does not change where members end. */
  lemma MembersSkipBlank(s: seq<Byte>, limits: Limits, p: nat, depth: nat, n: nat)
    requires p <= |s|
    ensures ParseMembers(s, limits, SkipBlank(s, p), depth, n).Erase() == ParseMembers(s, limits, p, depth, n).Erase()
  {
    hide ParseTree, JsonString.ParseString, SkipBlank;
    SkipBlankTwice(s, p);
  }

  lemma ElementsSkipBlank(s: seq<Byte>, limits: Limits, p: nat, depth: nat, n: nat)
    requires p <= |s|
    ensures ParseElements(s, limits, SkipBlank(s, p), depth, n).Erase() == ParseElements(s, limits, p, depth, n).Erase()
  {
    hide ParseTree, SkipBlank;
    SkipBlankTwice(s, p);
  }

  /** One round of skipping members, spelled out. */
  lemma MembersStep(s: seq<Byte>, limits: Limits, p: nat, depth: nat, n: nat)
    requires p <= |s| && SkipBlank(s, p) == p
    ensures var all := ParseMembers(s, limits, p, depth, n).Erase();
            var member := ParseMember(s, limits, p, depth + 1);
            if n >= limits.objectMembers then all == Err(ObjectTooLarge, p)
            else if member.Err? then all == member.Erase()
            else if At(s, member.next) == CLOSE_BRACE then all == Ok((), member.next + 1)
            else if At(s, member.next) != COMMA then all == Err(ExpectedComma, member.next)
            else all == ParseMembers(s, limits, member.next + 1, depth, n + 1).Erase()
  {
    hide ParseTree, JsonString.ParseString, ParseMember;
  }

  lemma ElementsStep(s: seq<Byte>, limits: Limits, p: nat, depth: nat, n: nat)
    requires p <= |s| && SkipBlank(s, p) == p
    ensures var all := ParseElements(s, limits, p, depth, n).Erase();
            var element := ParseElement(s, limits, p, depth + 1);
            if n >= limits.arrayElements then all == Err(ArrayTooLarge, p)
            else if element.Err? then all == element.Erase()
            else if At(s, element.next) == CLOSE_BRACKET then all == Ok((), element.next + 1)
            else if At(s, element.next) != COMMA then all == Err(ExpectedComma, element.next)
            else all == ParseElements(s, limits, element.next + 1, depth, n + 1).Erase()
  {
    hide ParseTree, ParseElement;
  }
}
