/** Every error of the reader tells the truth about the text at its offset. */
module JsonReasons {
  import opened Bytes
  import opened Hex
  import opened Utf8
  import opened Decimal
  import opened JsonString
  import opened JsonNumber
  import opened JsonTree
  import opened JsonTypes
  import opened JsonReader

  const UNICODE_ESCAPE: seq<Byte> := ['\\' as int, 'u' as int]

  /** The value of four digits in front of `o`. */
  predicate QuadBefore(s: seq<Byte>, o: nat) {
    6 <= o <= |s| && HasAt(s, o - 6, UNICODE_ESCAPE) && HexQuad(s[o - 4..o])
  }

  /** The byte in front of `o` is no digit, and a \u escape starts `k` bytes in front of `o`. */
  predicate BadDigit(s: seq<Byte>, o: nat, k: nat) {
    k <= o <= |s| && o > 0 && HexValue(s[o - 1]) < 0 && HasAt(s, o - k, UNICODE_ESCAPE)
  }

  /** A \u escape that ends or breaks off at `o`. */
  predicate BadUnicode(s: seq<Byte>, o: nat) {
    // fewer than four bytes are left
    || (2 <= o <= |s| && |s| - o < 4 && HasAt(s, o - 2, UNICODE_ESCAPE))
    // the last of at most four bytes is no digit
    || (exists k | 3 <= k <= 6 :: BadDigit(s, o, k))
    // a low surrogate alone, a high one alone, and a high one with something else behind it
    || (QuadBefore(s, o) && LowSurrogate(QuadValue(s[o - 4..o])))
    || (QuadBefore(s, o) && HighSurrogate(QuadValue(s[o - 4..o])) && !HasAt(s, o, UNICODE_ESCAPE))
    || (QuadBefore(s, o) && !LowSurrogate(QuadValue(s[o - 4..o])) && QuadBefore(s, o - 6)
        && HighSurrogate(QuadValue(s[o - 10..o - 6])))
  }

  /** What stands at the offset of an error, or in front of it. */
  ghost predicate Justified(s: seq<Byte>, limits: Limits, code: Code, o: nat) {
    o <= |s| &&
    match code
    case InputTooLarge => |s| > limits.inputBytes && o == 0
    case TrailingCharacters => o < |s| && !IsBlank(s[o])
    case InvalidLiteral => false
    case NullNotAllowed => HasAt(s, o, Ascii("null"))
    case InvalidBoolean => !HasAt(s, o, Ascii("true")) && !HasAt(s, o, Ascii("false"))
    case InvalidEnum => o > 0 && s[o - 1] == '"' as int
    case ExpectedString => At(s, o) != '"' as int
    case InvalidString => o > 0 && s[o - 1] < 0x20
    case InvalidEscape =>
      || (o == |s| > 0 && s[o - 1] == '\\' as int)
      || (o >= 2 && s[o - 2] == '\\' as int && s[o - 1] !in Ascii("\"\\/bfnrtu"))
    case InvalidUnicode => BadUnicode(s, o)
    case InvalidUtf8 =>
      exists q | 0 <= q < o - 1 :: s[q] == '"' as int && s[o - 1] == '"' as int && !ValidUtf8(s[q + 1..o - 1])
    case StringTooLarge => exists q | 0 <= q < o :: s[q] == '"' as int && o - q > limits.stringBytes
    case UnterminatedString => o == |s| && exists q, done :: Opened(s, q, o, done)
    case InvalidNumber => !IsDigit(At(s, o)) || (o > 0 && s[o - 1] == '0' as int)
    case NumberOutOfRange => o > 0 && IsDigit(s[o - 1])
    case MaximumDepth => limits.depth <= o
    case ExpectedColon => At(s, o) != ':' as int
    case ExpectedComma => At(s, o) != ',' as int
    case ExpectedObject => At(s, o) != '{' as int
    case ExpectedArray => At(s, o) != '[' as int
    case UnknownField => limits.rejectUnknown
    case MissingField => o > 0 && s[o - 1] == '}' as int
    case EscapedBorrowedString => o > 0 && s[o - 1] == '"' as int && BACKSLASH in s[..o]
    case _ => o > 0
  }

  ghost predicate Fair<T>(s: seq<Byte>, limits: Limits, r: Parse<T>) {
    r.Err? ==> Justified(s, limits, r.code, r.offset)
  }

  // --- Strings ----------------------------------------------------------------------------

  lemma {:induction false} QuadReason(s: seq<Byte>, limits: Limits, i: nat, k: nat)
    requires 2 <= i && i + 4 <= |s| && k <= 4 && HasAt(s, i - 2, UNICODE_ESCAPE)
    requires forall j | i <= j < i + k :: HexValue(s[j]) >= 0
    ensures Fair(s, limits, QuadFrom(s, i, k))
    decreases 4 - k
  {
    hide HasAt, HexValue;
    if k < 4 {
      if HexValue(s[i + k]) < 0 {
        assert BadDigit(s, i + k + 1, k + 3);
      } else {
        QuadReason(s, limits, i, k + 1);
      }
    }
  }

  lemma ParseQuadReason(s: seq<Byte>, limits: Limits, i: nat)
    requires 2 <= i <= |s| && HasAt(s, i - 2, UNICODE_ESCAPE)
    ensures Fair(s, limits, ParseQuad(s, i))
    ensures ParseQuad(s, i).Ok? ==> QuadBefore(s, i + 4)
  {
    hide HasAt, HexValue, QuadFrom;
    if |s| - i >= 4 {
      QuadReason(s, limits, i, 0);
    }
  }

  lemma UnicodeReason(s: seq<Byte>, limits: Limits, i: nat)
    requires 2 <= i <= |s| && HasAt(s, i - 2, UNICODE_ESCAPE)
    ensures Fair(s, limits, ParseUnicode(s, i))
  {
    hide HasAt, ParseQuad, QuadValue, QuadBefore, HexQuad;
    ParseQuadReason(s, limits, i);
    var first := ParseQuad(s, i);
    if first.Ok? && HighSurrogate(QuadValue(first.value)) && HasAt(s, first.next, [BACKSLASH, LOWER_U]) {
      EscapeFits(s, first.next);
      ParseQuadReason(s, limits, first.next + 2);
    }
  }

  lemma EscapeFits(s: seq<Byte>, p: nat)
    requires HasAt(s, p, [BACKSLASH, LOWER_U])
    ensures p + 2 <= |s|
  {
  }

  lemma EscapeReason(s: seq<Byte>, limits: Limits, i: nat)
    requires i < |s| && s[i] == BACKSLASH
    ensures Fair(s, limits, ParseEscape(s, i))
  {
    hide ParseUnicode;
    if i + 1 < |s| {
      if s[i + 1] == LOWER_U {
        assert s[i..i + 2] == UNICODE_ESCAPE;
        UnicodeReason(s, limits, i + 2);
      }
    }
  }

  lemma PieceNotLonger(p: Piece)
    requires PieceOk(p)
    ensures |PieceValue(p)| <= |PieceText(p)|
  {
  }

  lemma {:induction false} ValueNotLonger(ps: seq<Piece>)
    requires AllOk(ps)
    ensures |PiecesValue(ps)| <= |PiecesText(ps)|
  {
    hide PieceValue, PieceText, PieceOk;
    if ps != [] {
      PieceNotLonger(ps[0]);
      ValueNotLonger(ps[1..]);
    }
  }

  /** The string opened at `q` has been read up to `i`, and gave the units `done`. */
  predicate Opened(s: seq<Byte>, q: nat, i: nat, done: seq<Piece>) {
    q < i <= |s| && s[q] == QUOTE && AllOk(done) && s[q + 1..i] == PiecesText(done)
  }

  lemma OpenedMore(s: seq<Byte>, q: nat, i: nat, done: seq<Piece>, p: Piece)
    requires Opened(s, q, i, done) && PieceOk(p) && HasAt(s, i, PieceText(p))
    ensures AllOk(done + [p]) && i + |PieceText(p)| <= |s|
    ensures Opened(s, q, i + |PieceText(p)|, done + [p])
  {
    hide PieceText, PieceOk;
    var next := i + |PieceText(p)|;
    AllOkParts(done, [p]);
    PiecesTextConcat(done, [p]);
    assert [p][1..] == [];
    assert PiecesText([p]) == PieceText(p) + [];
    assert s[q + 1..next] == s[q + 1..i] + s[i..next];
  }

  lemma StringEndReason(s: seq<Byte>, limits: Limits, q: nat, i: nat, done: seq<Piece>)
    requires Opened(s, q, i, done) && i < |s| && s[i] == QUOTE
    ensures Fair(s, limits, StringRest(s, limits, i, done))
  {
    hide ValidUtf8, PiecesValue, PiecesText;
    ValueNotLonger(done);
    Utf8CheckOnDecodedIsEnough(done);
  }

  lemma LongReason(s: seq<Byte>, limits: Limits, q: nat, i: nat, done: seq<Piece>)
    requires Opened(s, q, i, done) && |PiecesValue(done)| > limits.stringBytes
    ensures Justified(s, limits, StringTooLarge, i)
  {
    hide PiecesValue, PiecesText;
    ValueNotLonger(done);
  }

  lemma {:induction false} StringRestReason(s: seq<Byte>, limits: Limits, q: nat, i: nat, done: seq<Piece>)
    requires i <= |s| && AllOk(done) && Opened(s, q, i, done)
    ensures Fair(s, limits, StringRest(s, limits, i, done))
    decreases |s| - i
  {
    hide ValidUtf8, PiecesValue, PiecesText, AllOk, ParseEscape, Opened, Justified;
    if i == |s| {
      EndReason(s, limits, q, done);
    } else if s[i] == QUOTE {
      StringEndReason(s, limits, q, i, done);
    } else if s[i] < 0x20 {
      ControlReason(s, limits, i);
    } else if s[i] != BACKSLASH {
      assert s[i..i + 1] == PieceText(Raw(s[i]));
      OpenedMore(s, q, i, done, Raw(s[i]));
      StringRestReason(s, limits, q, i + 1, done + [Raw(s[i])]);
    } else {
      var escape := ParseEscape(s, i);
      EscapeReason(s, limits, i);
      if escape.Ok? {
        EscapeSound(s, i);
        OpenedMore(s, q, i, done, escape.value);
        if |PiecesValue(done + [escape.value])| > limits.stringBytes {
          LongReason(s, limits, q, escape.next, done + [escape.value]);
        } else {
          StringRestReason(s, limits, q, escape.next, done + [escape.value]);
        }
      }
    }
  }

  lemma EndReason(s: seq<Byte>, limits: Limits, q: nat, done: seq<Piece>)
    requires Opened(s, q, |s|, done)
    ensures Justified(s, limits, UnterminatedString, |s|)
  {
  }

  lemma ControlReason(s: seq<Byte>, limits: Limits, i: nat)
    requires i < |s| && s[i] < 0x20
    ensures Justified(s, limits, InvalidString, i + 1)
  {
  }

  lemma StringReason(s: seq<Byte>, limits: Limits, p: nat)
    requires p <= |s|
    ensures Fair(s, limits, ParseString(s, limits, p))
  {
    hide StringRest;
    if At(s, p) == QUOTE {
      assert s[p + 1..p + 1] == [];
      StringRestReason(s, limits, p, p + 1, []);
    }
  }

  lemma NumberReason(s: seq<Byte>, limits: Limits, p: nat)
    requires p <= |s|
    ensures Fair(s, limits, ParseNumber(s, p))
  {
    hide ParseInteger, ParseFraction, ParseExponent, IsDigit;
    var digits := ParseInteger(s, if At(s, p) == MINUS then p + 1 else p);
    IntegerPartReason(s, limits, if At(s, p) == MINUS then p + 1 else p);
    if digits.Ok? {
      FractionReason(s, limits, digits.next);
      var fraction := ParseFraction(s, digits.next);
      if fraction.Ok? {
        ExponentReason(s, limits, fraction.next);
      }
    }
  }

  lemma IntegerPartReason(s: seq<Byte>, limits: Limits, p: nat)
    requires p <= |s|
    ensures Fair(s, limits, ParseInteger(s, p))
  {
  }

  lemma FractionReason(s: seq<Byte>, limits: Limits, p: nat)
    requires p <= |s|
    ensures Fair(s, limits, ParseFraction(s, p))
  {
  }

  lemma ExponentReason(s: seq<Byte>, limits: Limits, p: nat)
    requires p <= |s|
    ensures Fair(s, limits, ParseExponent(s, p))
  {
  }

  // --- The scanner ------------------------------------------------------------------------

  lemma {:induction false} TreeReason(s: seq<Byte>, limits: Limits, p: nat, depth: nat)
    requires p <= |s| && depth <= p
    ensures Fair(s, limits, ParseTree(s, limits, p, depth))
    decreases |s| - p, 0
  {
    hide ParseString, ParseNumber, ParseElements, ParseMembers, HasAt, SkipBlank;
    StringReason(s, limits, p);
    NumberReason(s, limits, p);
    if p < |s| && depth < limits.depth {
      if s[p] == OPEN_BRACE {
        MembersReason(s, limits, p + 1, depth, 0);
      } else if s[p] == OPEN_BRACKET {
        ElementsReason(s, limits, p + 1, depth, 0);
      }
    }
  }

  lemma {:induction false} ElementsReason(s: seq<Byte>, limits: Limits, p: nat, depth: nat, n: nat)
    requires p <= |s| && depth < p
    ensures Fair(s, limits, ParseElements(s, limits, p, depth, n))
    decreases |s| - p, 2
  {
    hide ParseTree, SkipBlank;
    var q := SkipBlank(s, p);
    TreeReason(s, limits, q, depth + 1);
    var element := ParseElement(s, limits, p, depth + 1);
    if n < limits.arrayElements && element.Ok? && At(s, element.next) == COMMA {
      ElementsReason(s, limits, element.next + 1, depth, n + 1);
    }
  }

  lemma {:induction false} MembersReason(s: seq<Byte>, limits: Limits, p: nat, depth: nat, n: nat)
    requires p <= |s| && depth < p
    ensures Fair(s, limits, ParseMembers(s, limits, p, depth, n))
    decreases |s| - p, 2
  {
    hide ParseMember;
    MemberReason(s, limits, p, depth + 1);
    var member := ParseMember(s, limits, p, depth + 1);
    if n < limits.objectMembers && member.Ok? && At(s, member.next) == COMMA {
      MembersReason(s, limits, member.next + 1, depth, n + 1);
    }
  }

  lemma {:induction false} MemberReason(s: seq<Byte>, limits: Limits, p: nat, depth: nat)
    requires p <= |s| && depth <= p
    ensures Fair(s, limits, ParseMember(s, limits, p, depth))
    decreases |s| - p, 1
  {
    hide ParseString, ParseTree, SkipBlank;
    var q := SkipBlank(s, p);
    StringReason(s, limits, q);
    var key := ParseString(s, limits, q);
    if key.Ok? && At(s, SkipBlank(s, key.next)) == COLON {
      TreeReason(s, limits, SkipBlank(s, SkipBlank(s, key.next) + 1), depth);
    }
  }

  // --- The typed reader -------------------------------------------------------------------

  lemma ParsedDigits(s: seq<Byte>, p: nat)
    requires p <= |s| && ParseInteger(s, p).Ok?
    ensures var r := ParseInteger(s, p); IsDigit(s[r.next - 1]) && !IsDigit(At(s, r.next))
  {
    if At(s, p) != ZERO {
      LastDigit(s, p);
    }
  }

  lemma LastDigit(s: seq<Byte>, p: nat)
    requires p <= |s| && DigitsEnd(s, p) > p
    ensures IsDigit(s[DigitsEnd(s, p) - 1])
  {
    var e := DigitsEnd(s, p);
    assert s[p..e][e - p - 1] == s[e - 1];
  }

  /** A number token ends with a digit, and no digit stands behind it. */
  lemma NumberEnds(s: seq<Byte>, p: nat)
    requires p <= |s| && ParseNumber(s, p).Ok?
    ensures var r := ParseNumber(s, p); IsDigit(s[r.next - 1]) && !IsDigit(At(s, r.next))
  {
    hide DigitsEnd, IsDigit, ParseInteger;
    var start := if At(s, p) == MINUS then p + 1 else p;
    ParsedDigits(s, start);
    var digits := ParseInteger(s, start);
    FractionEnds(s, digits.next);
    ExponentEnds(s, ParseFraction(s, digits.next).next);
  }

  lemma FractionEnds(s: seq<Byte>, p: nat)
    requires 0 < p <= |s| && ParseFraction(s, p).Ok? && IsDigit(s[p - 1]) && !IsDigit(At(s, p))
    ensures var r := ParseFraction(s, p); 0 < r.next <= |s| && IsDigit(s[r.next - 1]) && !IsDigit(At(s, r.next))
  {
    if At(s, p) == DOT {
      LastDigit(s, p + 1);
    }
  }

  lemma ExponentEnds(s: seq<Byte>, p: nat)
    requires 0 < p <= |s| && ParseExponent(s, p).Ok? && IsDigit(s[p - 1]) && !IsDigit(At(s, p))
    ensures var r := ParseExponent(s, p); 0 < r.next <= |s| && IsDigit(s[r.next - 1]) && !IsDigit(At(s, r.next))
  {
    if ExponentMarker(At(s, p)) {
      var sign := if Sign(At(s, p + 1)) then Some(s[p + 1]) else None;
      LastDigit(s, p + 1 + |SignText(sign)|);
    }
  }

  /** An accepted string token ends with its closing quote, and holds a backslash unless it is raw. */
  lemma StringEnds(s: seq<Byte>, limits: Limits, p: nat)
    requires p <= |s| && ParseString(s, limits, p).Ok?
    ensures var r := ParseString(s, limits, p);
            s[r.next - 1] == QUOTE && (!AllRaw(r.value) ==> BACKSLASH in s[..r.next])
  {
    hide ParseString, AllRaw;
    var r := ParseString(s, limits, p);
    ParseStringSound(s, limits, p);
    var body := PiecesText(r.value);
    HasAtConcat(s, p, [QUOTE] + body, [QUOTE]);
    HasAtConcat(s, p, [QUOTE], body);
    HasAtIndex(s, p + 1 + |body|, [QUOTE], 0);
    RawIffNoBackslash(r.value);
    if !AllRaw(r.value) {
      var k :| 0 <= k < |body| && body[k] == BACKSLASH;
      HasAtIndex(s, p + 1, body, k);
      assert s[..r.next][p + 1 + k] == BACKSLASH;
    }
  }

  lemma LeafReason(s: seq<Byte>, limits: Limits, p: nat)
    requires p <= |s|
    ensures Fair(s, limits, ReadView(s, limits, p)) && Fair(s, limits, ReadBool(s, p))
  {
    hide ParseString, HasAt, AllRaw;
    StringReason(s, limits, p);
    if ParseString(s, limits, p).Ok? {
      StringEnds(s, limits, p);
    }
    LiteralTexts();
  }

  lemma LiteralTexts()
    ensures TRUE_TEXT == Ascii("true") && FALSE_TEXT == Ascii("false") && NULL_TEXT == Ascii("null")
  {
  }

  lemma IntegerReason(s: seq<Byte>, limits: Limits, lo: int, hi: int, p: nat)
    requires p <= |s|
    ensures Fair(s, limits, ReadInteger(s, lo, hi, p))
  {
    hide ParseNumber, FromChars, IsDigit;
    NumberReason(s, limits, p);
    if ParseNumber(s, p).Ok? {
      NumberEnds(s, p);
    }
  }

  /** Why a number token is no integer of the type: first its sign, then its range, then its fraction or exponent. */
  lemma IntegerErrorIs(s: seq<Byte>, p: nat, lo: int, hi: int)
    requires p <= |s| && ParseNumber(s, p).Ok? && NumberOk(ParseNumber(s, p).value)
    ensures var token := ParseNumber(s, p);
            var n := token.value;
            var value: int := if n.negative then -(DecimalValue(n.digits) as int) else DecimalValue(n.digits);
            ReadInteger(s, lo, hi, p)
            == if n.negative && lo >= 0 then Err(InvalidNumber, token.next)
               else if !(lo <= value <= hi) then Err(NumberOutOfRange, token.next)
               else if n.fraction.Some? || n.exponent.Some? then Err(InvalidNumber, token.next)
               else Ok(IntVal(value), token.next)
  {
    hide ParseNumber, FromChars, NumberText, NumberOk;
    var token := ParseNumber(s, p);
    ParseNumberSound(s, p);
    assert s[p..token.next] == NumberText(token.value);
    ConversionOfToken(token.value, lo, hi);
  }

  /** What std::from_chars makes of a number token: it stops behind the integer part. */
  lemma ConversionOfToken(n: Number, lo: int, hi: int)
    requires NumberOk(n)
    ensures var value: int := if n.negative then -(DecimalValue(n.digits) as int) else DecimalValue(n.digits);
            var used := |n.digits| + if n.negative then 1 else 0;
            && used <= |NumberText(n)|
            && (used == |NumberText(n)| <==> n.fraction.None? && n.exponent.None?)
            && FromChars(NumberText(n), lo, hi)
               == if n.negative && lo >= 0 then Conversion(InvalidArgument, 0, 0)
                  else if lo <= value <= hi then Conversion(Converted, used, value)
                  else Conversion(OutOfRange, used, 0)
  {
    hide DecimalValue;
    var text := NumberText(n);
    var tail := FractionText(n.fraction) + ExponentText(n.exponent);
    var start := if n.negative then 1 else 0;
    var end := start + |n.digits|;
    assert text == MinusText(n.negative) + (n.digits + tail);
    assert text[start..end] == n.digits;
    assert end < |text| ==> text[end] == tail[0];
    assert tail != [] ==> tail[0] == DOT || ExponentMarker(tail[0]);
    DigitsEndIs(text, start, n.digits);
    if n.negative {
      assert text[0] == MINUS;
    } else {
      assert text[0] == n.digits[0];
    }
  }

  lemma EnumReason(s: seq<Byte>, limits: Limits, es: seq<Enumerator>, p: nat)
    requires p <= |s|
    ensures Fair(s, limits, ReadEnum(s, limits, es, p))
  {
    hide ParseString, EnumValue, AllRaw;
    StringReason(s, limits, p);
    if ParseString(s, limits, p).Ok? {
      StringEnds(s, limits, p);
    }
  }

  lemma NullReason(s: seq<Byte>, limits: Limits, p: nat)
    requires p <= |s| && HasAt(s, p, NULL_TEXT)
    ensures Justified(s, limits, NullNotAllowed, p)
  {
    LiteralTexts();
  }

  lemma {:induction false} ValueReason(s: seq<Byte>, limits: Limits, schema: Schema, ty: Ty, p: nat, depth: nat)
    requires p <= |s| && depth <= p
    ensures Fair(s, limits, ReadValue(s, limits, schema, ty, p, depth))
    decreases |s| - p, Nesting(ty) + 3
  {
    hide ParseString, ReadView, ReadBool, ReadInteger, ReadEnum, ReadVector, ReadArray, ReadObject, HasAt, SkipBlank;
    hide Justified;
    var q := SkipBlank(s, p);
    if ty.OptionalTy? {
      ValueReason(s, limits, schema, ty.of, q, depth);
    } else if HasAt(s, q, NULL_TEXT) {
      NullReason(s, limits, q);
    } else {
      match ty
      case StringTy => StringReason(s, limits, q);
      case ViewTy => LeafReason(s, limits, q);
      case BoolTy => LeafReason(s, limits, q);
      case IntTy(lo, hi) => IntegerReason(s, limits, lo, hi, q);
      case EnumTy(es) => EnumReason(s, limits, es, q);
      case VectorTy(of) => VectorReason(s, limits, schema, of, q, depth);
      case ArrayTy(of, size) => ArrayReason(s, limits, schema, of, size, q, depth);
      case ObjectTy(name) => ObjectReason(s, limits, schema, FieldsOf(schema, name), q, depth);
    }
  }

  lemma OpeningReason(s: seq<Byte>, limits: Limits, p: nat, depth: nat)
    requires depth <= p <= |s|
    ensures depth >= limits.depth ==> Justified(s, limits, MaximumDepth, p)
    ensures At(s, p) != OPEN_BRACKET ==> Justified(s, limits, ExpectedArray, p)
    ensures At(s, p) != OPEN_BRACE ==> Justified(s, limits, ExpectedObject, p)
  {
  }

  lemma {:induction false} VectorReason(s: seq<Byte>, limits: Limits, schema: Schema, of: Ty, p: nat, depth: nat)
    requires p <= |s| && depth <= p
    ensures Fair(s, limits, ReadVector(s, limits, schema, of, p, depth))
    decreases |s| - p, 2
  {
    hide ReadItems, SkipBlank, Justified;
    OpeningReason(s, limits, p, depth);
    if p < |s| && s[p] == OPEN_BRACKET {
      ItemsReason(s, limits, schema, of, SkipBlank(s, p + 1), depth, []);
    }
  }

  lemma SeparatorReason(s: seq<Byte>, limits: Limits, p: nat)
    requires 0 < p <= |s|
    ensures Justified(s, limits, ArrayTooLarge, p) && Justified(s, limits, ObjectTooLarge, p)
    ensures Justified(s, limits, ArraySize, p)
    ensures At(s, p) != COMMA ==> Justified(s, limits, ExpectedComma, p)
  {
  }

  lemma {:induction false} ItemsReason(
    s: seq<Byte>, limits: Limits, schema: Schema, of: Ty, p: nat, depth: nat, done: seq<Val>)
    requires p <= |s| && depth < p
    ensures Fair(s, limits, ReadItems(s, limits, schema, of, p, depth, done))
    decreases |s| - p, Nesting(of) + 4
  {
    hide ReadItems, ReadValue, SkipBlank, Fair;
    ValueReason(s, limits, schema, of, p, depth + 1);
    var item := ReadValue(s, limits, schema, of, p, depth + 1);
    if item.Ok? && At(s, SkipBlank(s, item.next)) == COMMA {
      var next := SkipBlank(s, SkipBlank(s, item.next) + 1);
      ItemsReason(s, limits, schema, of, next, depth, done + [item.value]);
    }
    ItemsFair(s, limits, schema, of, p, depth, done);
  }

  lemma ItemsFair(s: seq<Byte>, limits: Limits, schema: Schema, of: Ty, p: nat, depth: nat, done: seq<Val>)
    requires 0 < p <= |s|
    requires var item := ReadValue(s, limits, schema, of, p, depth + 1);
             && Fair(s, limits, item)
             && (item.Ok? && At(s, SkipBlank(s, item.next)) == COMMA ==>
                 Fair(s, limits, ReadItems(s, limits, schema, of, SkipBlank(s, SkipBlank(s, item.next) + 1), depth,
                                           done + [item.value])))
    ensures Fair(s, limits, ReadItems(s, limits, schema, of, p, depth, done))
  {
    hide ReadValue, SkipBlank, Justified;
    SeparatorReason(s, limits, p);
    var item := ReadValue(s, limits, schema, of, p, depth + 1);
    if item.Ok? {
      SeparatorReason(s, limits, SkipBlank(s, item.next));
    }
  }

  lemma {:induction false} ArrayReason(
    s: seq<Byte>, limits: Limits, schema: Schema, of: Ty, size: nat, p: nat, depth: nat)
    requires p <= |s| && depth <= p
    ensures Fair(s, limits, ReadArray(s, limits, schema, of, size, p, depth))
    decreases |s| - p, 2
  {
    hide ReadFixed, SkipBlank, Justified;
    OpeningReason(s, limits, p, depth);
    if p < |s| && s[p] == OPEN_BRACKET {
      SeparatorReason(s, limits, p + 1);
      SeparatorReason(s, limits, SkipBlank(s, p + 1));
      if At(s, SkipBlank(s, p + 1)) == CLOSE_BRACKET {
        SeparatorReason(s, limits, SkipBlank(s, p + 1) + 1);
      }
    }
    if p < |s| && s[p] == OPEN_BRACKET && size > 0 {
      FixedReason(s, limits, schema, of, size, SkipBlank(s, p + 1), depth, []);
    }
  }

  lemma {:induction false} FixedReason(
    s: seq<Byte>, limits: Limits, schema: Schema, of: Ty, size: nat, p: nat, depth: nat, done: seq<Val>)
    requires p <= |s| && depth < p && |done| < size
    ensures Fair(s, limits, ReadFixed(s, limits, schema, of, size, p, depth, done))
    decreases |s| - p, Nesting(of) + 4
  {
    hide ReadFixed, ReadValue, SkipBlank, Fair;
    ValueReason(s, limits, schema, of, p, depth + 1);
    var item := ReadValue(s, limits, schema, of, p, depth + 1);
    if item.Ok? && At(s, SkipBlank(s, item.next)) == COMMA && |done| + 1 < size {
      var next := SkipBlank(s, SkipBlank(s, item.next) + 1);
      FixedReason(s, limits, schema, of, size, next, depth, done + [item.value]);
    }
    FixedFair(s, limits, schema, of, size, p, depth, done);
  }

  lemma FixedFair(
    s: seq<Byte>, limits: Limits, schema: Schema, of: Ty, size: nat, p: nat, depth: nat, done: seq<Val>)
    requires 0 < p <= |s| && |done| < size
    requires var item := ReadValue(s, limits, schema, of, p, depth + 1);
             && Fair(s, limits, item)
             && (item.Ok? && At(s, SkipBlank(s, item.next)) == COMMA && |done| + 1 < size ==>
                 Fair(s, limits, ReadFixed(s, limits, schema, of, size, SkipBlank(s, SkipBlank(s, item.next) + 1),
                                           depth, done + [item.value])))
    ensures Fair(s, limits, ReadFixed(s, limits, schema, of, size, p, depth, done))
  {
    hide ReadValue, SkipBlank, Justified;
    var item := ReadValue(s, limits, schema, of, p, depth + 1);
    if item.Ok? {
      SeparatorReason(s, limits, SkipBlank(s, item.next));
    }
  }

  lemma {:induction false} ObjectReason(
    s: seq<Byte>, limits: Limits, schema: Schema, fields: seq<Field>, p: nat, depth: nat)
    requires p <= |s| && depth <= p
    ensures Fair(s, limits, ReadObject(s, limits, schema, fields, p, depth))
    decreases |s| - p, 2
  {
    hide ReadMembers, SkipBlank, Finish, NoSlots;
    if p < |s| && s[p] == OPEN_BRACE {
      MembersReadReason(s, limits, schema, fields, SkipBlank(s, p + 1), depth, 0, NoSlots(fields));
      MembersClose(s, limits, schema, fields, SkipBlank(s, p + 1), depth, 0, NoSlots(fields));
    }
  }

  /** Members that are read end with the closing brace. */
  lemma {:induction false} MembersClose(
    s: seq<Byte>, limits: Limits, schema: Schema, fields: seq<Field>, p: nat, depth: nat, n: nat, slots: Slots)
    requires p <= |s| && |slots| == |fields|
    ensures var r := ReadMembers(s, limits, schema, fields, p, depth, n, slots); r.Ok? ==> s[r.next - 1] == CLOSE_BRACE
    decreases |s| - p
  {
    hide ReadMember, SkipBlank;
    var member := ReadMember(s, limits, schema, fields, p, depth + 1, slots);
    if n < limits.objectMembers && member.Ok? && At(s, member.next) == COMMA {
      MembersClose(s, limits, schema, fields, SkipBlank(s, member.next + 1), depth, n + 1, member.value);
    }
  }

  lemma {:induction false} MembersReadReason(
    s: seq<Byte>, limits: Limits, schema: Schema, fields: seq<Field>, p: nat, depth: nat, n: nat, slots: Slots)
    requires p <= |s| && depth < p && |slots| == |fields|
    ensures Fair(s, limits, ReadMembers(s, limits, schema, fields, p, depth, n, slots))
    decreases |s| - p, 1
  {
    hide ReadMembers, ReadMember, SkipBlank, Fair;
    MemberReadReason(s, limits, schema, fields, p, depth + 1, slots);
    var member := ReadMember(s, limits, schema, fields, p, depth + 1, slots);
    if member.Ok? && At(s, member.next) == COMMA {
      MembersReadReason(s, limits, schema, fields, SkipBlank(s, member.next + 1), depth, n + 1, member.value);
    }
    MembersFair(s, limits, schema, fields, p, depth, n, slots);
  }

  lemma MembersFair(
    s: seq<Byte>, limits: Limits, schema: Schema, fields: seq<Field>, p: nat, depth: nat, n: nat, slots: Slots)
    requires 0 < p <= |s| && |slots| == |fields|
    requires var member := ReadMember(s, limits, schema, fields, p, depth + 1, slots);
             && Fair(s, limits, member)
             && (member.Ok? && At(s, member.next) == COMMA ==>
                 Fair(s, limits, ReadMembers(s, limits, schema, fields, SkipBlank(s, member.next + 1), depth, n + 1,
                                             member.value)))
    ensures Fair(s, limits, ReadMembers(s, limits, schema, fields, p, depth, n, slots))
  {
    hide ReadMember, SkipBlank, Justified;
    SeparatorReason(s, limits, p);
    var member := ReadMember(s, limits, schema, fields, p, depth + 1, slots);
    if member.Ok? {
      SeparatorReason(s, limits, member.next);
    }
  }

  lemma {:induction false} MemberReadReason(
    s: seq<Byte>, limits: Limits, schema: Schema, fields: seq<Field>, p: nat, depth: nat, slots: Slots)
    requires p <= |s| && depth <= p && |slots| == |fields|
    ensures Fair(s, limits, ReadMember(s, limits, schema, fields, p, depth, slots))
    decreases |s| - p, 0
  {
    hide ParseString, ParseTree, ReadNamedField, SkipBlank, PiecesValue, AllOk;
    StringReason(s, limits, p);
    var key := ParseString(s, limits, p);
    if key.Ok? && At(s, SkipBlank(s, key.next)) == COLON {
      var start := SkipBlank(s, SkipBlank(s, key.next) + 1);
      NamedFieldReason(s, limits, schema, fields, PiecesValue(key.value), start, depth, slots);
      TreeReason(s, limits, start, depth);
    }
  }

  lemma {:induction false} NamedFieldReason(
    s: seq<Byte>, limits: Limits, schema: Schema, fields: seq<Field>, name: seq<Byte>, p: nat, depth: nat,
    slots: Slots)
    requires 0 < p <= |s| && depth <= p && |slots| == |fields|
    ensures Fair(s, limits, ReadNamedField(s, limits, schema, fields, name, p, depth, slots))
    decreases |s| - p, MaxNesting(fields) + 4
  {
    hide ReadValue, SatisfiesAll;
    var i := FieldIndex(fields, name);
    if i.Some? {
      NestingBound(fields, i.value);
      ValueReason(s, limits, schema, fields[i.value].ty, p, depth);
    }
  }

  /** Whatever the text, the type and the limits: an error says something true of the text at its offset. */
  lemma ErrorsAreJustified(s: seq<Byte>, limits: Limits, schema: Schema, ty: Ty)
    requires Read(s, limits, schema, ty).Err?
    ensures var r := Read(s, limits, schema, ty); Justified(s, limits, r.code, r.offset)
  {
    hide ReadValue, SkipBlank;
    ValueReason(s, limits, schema, ty, 0, 0);
  }
}
