/** The JSON number token (RFC 8259, section 6). */
module JsonNumber {
  import opened Bytes
  import opened Decimal

  datatype Exponent = Exponent(marker: Byte, sign: Option<Byte>, digits: seq<Byte>)

  datatype Number = Number(
    negative: bool,
    digits: seq<Byte>,
    fraction: Option<seq<Byte>>,
    exponent: Option<Exponent>)

  const ZERO: Byte := '0' as int

  predicate ExponentMarker(b: Byte) {
    b == 'e' as int || b == 'E' as int
  }

  predicate Sign(b: Byte) {
    b == PLUS || b == MINUS
  }

  predicate IntegerOk(ds: seq<Byte>) {
    ds != [] && AllDigits(ds) && (ds[0] == ZERO ==> |ds| == 1)
  }

  predicate FractionOk(f: Option<seq<Byte>>) {
    f.Some? ==> f.value != [] && AllDigits(f.value)
  }

  predicate ExponentOk(e: Option<Exponent>) {
    e.Some? ==>
      && ExponentMarker(e.value.marker)
      && (e.value.sign.Some? ==> Sign(e.value.sign.value))
      && e.value.digits != []
      && AllDigits(e.value.digits)
  }

  predicate NumberOk(n: Number) {
    IntegerOk(n.digits) && FractionOk(n.fraction) && ExponentOk(n.exponent)
  }

  function MinusText(negative: bool): seq<Byte> {
    if negative then [MINUS] else []
  }

  function FractionText(f: Option<seq<Byte>>): seq<Byte> {
    if f.None? then [] else [DOT] + f.value
  }

  function SignText(sign: Option<Byte>): seq<Byte> {
    if sign.None? then [] else [sign.value]
  }

  function ExponentText(e: Option<Exponent>): seq<Byte> {
    if e.None? then [] else [e.value.marker] + (SignText(e.value.sign) + e.value.digits)
  }

  function NumberText(n: Number): seq<Byte> {
    MinusText(n.negative) + (n.digits + (FractionText(n.fraction) + ExponentText(n.exponent)))
  }

  // --- The scanner ------------------------------------------------------------------------

  function ParseInteger(s: seq<Byte>, p: nat): (r: Parse<seq<Byte>>)
    requires p <= |s|
    ensures r.Ok? ==> p < r.next <= |s|
    ensures r.Err? ==> r.offset <= |s|
  {
    if At(s, p) == ZERO then
      if IsDigit(At(s, p + 1)) then Err(InvalidNumber, p + 1) else Ok(s[p..p + 1], p + 1)
    else if !IsDigit(At(s, p)) then Err(InvalidNumber, p)
    else Ok(s[p..DigitsEnd(s, p)], DigitsEnd(s, p))
  }

  function ParseFraction(s: seq<Byte>, p: nat): (r: Parse<Option<seq<Byte>>>)
    requires p <= |s|
    ensures r.Ok? ==> p <= r.next <= |s|
    ensures r.Err? ==> r.offset <= |s|
  {
    if At(s, p) != DOT then Ok(None, p)
    else if !IsDigit(At(s, p + 1)) then Err(InvalidNumber, p + 1)
    else Ok(Some(s[p + 1..DigitsEnd(s, p + 1)]), DigitsEnd(s, p + 1))
  }

  function ParseExponent(s: seq<Byte>, p: nat): (r: Parse<Option<Exponent>>)
    requires p <= |s|
    ensures r.Ok? ==> p <= r.next <= |s|
    ensures r.Err? ==> r.offset <= |s|
  {
    if !ExponentMarker(At(s, p)) then Ok(None, p)
    else
      var sign := if Sign(At(s, p + 1)) then Some(s[p + 1]) else None;
      var start := p + 1 + |SignText(sign)|;
      if !IsDigit(At(s, start)) then Err(InvalidNumber, start)
      else Ok(Some(Exponent(s[p], sign, s[start..DigitsEnd(s, start)])), DigitsEnd(s, start))
  }

  function ParseNumber(s: seq<Byte>, p: nat): (r: Parse<Number>)
    requires p <= |s|
    ensures r.Ok? ==> p < r.next <= |s|
    ensures r.Err? ==> r.offset <= |s|
  {
    var negative := At(s, p) == MINUS;
    var digits := ParseInteger(s, if negative then p + 1 else p);
    if digits.Err? then digits.Fail()
    else
      var fraction := ParseFraction(s, digits.next);
      if fraction.Err? then fraction.Fail()
      else
        var exponent := ParseExponent(s, fraction.next);
        if exponent.Err? then exponent.Fail()
        else Ok(Number(negative, digits.value, fraction.value, exponent.value), exponent.next)
  }

  // --- Soundness and completeness ---------------------------------------------------------

  lemma IntegerSound(s: seq<Byte>, p: nat)
    requires p <= |s| && ParseInteger(s, p).Ok?
    ensures var r := ParseInteger(s, p);
            IntegerOk(r.value) && HasAt(s, p, r.value) && r.next == p + |r.value|
  {
  }

  lemma FractionSound(s: seq<Byte>, p: nat)
    requires p <= |s| && ParseFraction(s, p).Ok?
    ensures var r := ParseFraction(s, p);
            && FractionOk(r.value) && HasAt(s, p, FractionText(r.value))
            && r.next == p + |FractionText(r.value)|
  {
    var f := ParseFraction(s, p).value;
    if f.Some? {
      HasAtConcat(s, p, [DOT], f.value);
    }
  }

  lemma ExponentSound(s: seq<Byte>, p: nat)
    requires p <= |s| && ParseExponent(s, p).Ok?
    ensures var r := ParseExponent(s, p);
            && ExponentOk(r.value) && HasAt(s, p, ExponentText(r.value))
            && r.next == p + |ExponentText(r.value)|
  {
    var r := ParseExponent(s, p);
    if r.value.Some? {
      var e := r.value.value;
      HasAtConcat(s, p + 1, SignText(e.sign), e.digits);
      HasAtConcat(s, p, [e.marker], SignText(e.sign) + e.digits);
    }
  }

  /** The parts of a number token stand behind each other. */
  lemma NumberTextSplit(s: seq<Byte>, p: nat, n: Number)
    ensures var a := p + |MinusText(n.negative)|;
            var b := a + |n.digits|;
            var c := b + |FractionText(n.fraction)|;
            && p + |NumberText(n)| == c + |ExponentText(n.exponent)|
            && (HasAt(s, p, NumberText(n)) <==>
                && HasAt(s, p, MinusText(n.negative))
                && HasAt(s, a, n.digits)
                && HasAt(s, b, FractionText(n.fraction))
                && HasAt(s, c, ExponentText(n.exponent)))
  {
    hide HasAt, MinusText, FractionText, ExponentText;
    var a := p + |MinusText(n.negative)|;
    var b := a + |n.digits|;
    HasAtConcat(s, b, FractionText(n.fraction), ExponentText(n.exponent));
    HasAtConcat(s, a, n.digits, FractionText(n.fraction) + ExponentText(n.exponent));
    HasAtConcat(s, p, MinusText(n.negative), n.digits + (FractionText(n.fraction) + ExponentText(n.exponent)));
  }

  /** The scans a successful number scan is made of. */
  lemma ParseNumberSteps(s: seq<Byte>, p: nat) returns (a: nat, b: nat, c: nat)
    requires p <= |s| && ParseNumber(s, p).Ok?
    ensures var r := ParseNumber(s, p);
            && HasAt(s, p, MinusText(r.value.negative)) && a == p + |MinusText(r.value.negative)|
            && a <= |s| && ParseInteger(s, a) == Ok(r.value.digits, b)
            && b <= |s| && ParseFraction(s, b) == Ok(r.value.fraction, c)
            && c <= |s| && ParseExponent(s, c) == Ok(r.value.exponent, r.next)
  {
    a := if At(s, p) == MINUS then p + 1 else p;
    b := ParseInteger(s, a).next;
    c := ParseFraction(s, b).next;
  }

  /** An accepted number token is the text of a number of the grammar. */
  lemma ParseNumberSound(s: seq<Byte>, p: nat)
    requires p <= |s| && ParseNumber(s, p).Ok?
    ensures var r := ParseNumber(s, p);
            NumberOk(r.value) && HasAt(s, p, NumberText(r.value)) && r.next == p + |NumberText(r.value)|
  {
    hide HasAt, NumberText, MinusText, FractionText, ExponentText;
    hide ParseNumber, ParseInteger, ParseFraction, ParseExponent;
    hide IntegerOk, FractionOk, ExponentOk;
    var a, b, c := ParseNumberSteps(s, p);
    IntegerSound(s, a);
    FractionSound(s, b);
    ExponentSound(s, c);
    NumberTextSplit(s, p, ParseNumber(s, p).value);
  }

  /** Bytes that could continue a number. */
  predicate NumberTail(b: Byte) {
    IsDigit(b) || b == DOT || ExponentMarker(b)
  }

  lemma IntegerComplete(s: seq<Byte>, p: nat, ds: seq<Byte>)
    requires IntegerOk(ds) && HasAt(s, p, ds) && !IsDigit(At(s, p + |ds|))
    ensures ParseInteger(s, p) == Ok(ds, p + |ds|)
  {
    HasAtIndex(s, p, ds, 0);
    DigitsEndIs(s, p, ds);
  }

  lemma FractionComplete(s: seq<Byte>, p: nat, f: Option<seq<Byte>>)
    requires FractionOk(f) && HasAt(s, p, FractionText(f))
    requires f.None? ==> At(s, p) != DOT
    requires !IsDigit(At(s, p + |FractionText(f)|))
    ensures ParseFraction(s, p) == Ok(f, p + |FractionText(f)|)
  {
    if f.Some? {
      HasAtConcat(s, p, [DOT], f.value);
      HasAtIndex(s, p, [DOT], 0);
      HasAtIndex(s, p + 1, f.value, 0);
      DigitsEndIs(s, p + 1, f.value);
    }
  }

  lemma ExponentParts(s: seq<Byte>, p: nat, x: Exponent)
    requires ExponentOk(Some(x)) && HasAt(s, p, ExponentText(Some(x)))
    ensures var start := p + 1 + |SignText(x.sign)|;
            && p < |s| && s[p] == x.marker
            && x.sign == (if Sign(At(s, p + 1)) then Some(s[p + 1]) else None)
            && HasAt(s, start, x.digits) && IsDigit(At(s, start))
  {
    HasAtConcat(s, p, [x.marker], SignText(x.sign) + x.digits);
    HasAtIndex(s, p, [x.marker], 0);
    HasAtConcat(s, p + 1, SignText(x.sign), x.digits);
    HasAtIndex(s, p + 1 + |SignText(x.sign)|, x.digits, 0);
    if x.sign.Some? {
      HasAtIndex(s, p + 1, SignText(x.sign), 0);
    }
  }

  lemma ExponentComplete(s: seq<Byte>, p: nat, e: Option<Exponent>)
    requires ExponentOk(e) && HasAt(s, p, ExponentText(e))
    requires !NumberTail(At(s, p + |ExponentText(e)|))
    ensures p <= |s| && ParseExponent(s, p) == Ok(e, p + |ExponentText(e)|)
  {
    if e.Some? {
      ExponentParts(s, p, e.value);
      DigitsEndIs(s, p + 1 + |SignText(e.value.sign)|, e.value.digits);
    }
  }

  lemma FractionLead(s: seq<Byte>, p: nat, f: Option<seq<Byte>>, e: Option<Exponent>)
    requires FractionOk(f) && ExponentOk(e)
    requires HasAt(s, p, FractionText(f)) && HasAt(s, p + |FractionText(f)|, ExponentText(e))
    requires !NumberTail(At(s, p + |FractionText(f)| + |ExponentText(e)|))
    ensures !IsDigit(At(s, p)) && !IsDigit(At(s, p + |FractionText(f)|))
    ensures f.None? ==> At(s, p) != DOT
  {
    if f.Some? {
      HasAtIndex(s, p, FractionText(f), 0);
    }
    if e.Some? {
      HasAtIndex(s, p + |FractionText(f)|, ExponentText(e), 0);
    }
  }

  lemma MinusLength(negative: bool)
    ensures |MinusText(negative)| == if negative then 1 else 0
  {
  }

  lemma MinusLead(s: seq<Byte>, p: nat, n: Number)
    requires NumberOk(n) && HasAt(s, p, MinusText(n.negative)) && HasAt(s, p + |MinusText(n.negative)|, n.digits)
    ensures (At(s, p) == MINUS) == n.negative
  {
    if n.negative {
      HasAtIndex(s, p, MinusText(n.negative), 0);
    } else {
      HasAtIndex(s, p, n.digits, 0);
    }
  }

  /** The scanner reads back any number the next byte cannot continue. */
  lemma ParseNumberComplete(s: seq<Byte>, p: nat, n: Number)
    requires NumberOk(n) && HasAt(s, p, NumberText(n))
    requires !NumberTail(At(s, p + |NumberText(n)|))
    ensures p <= |s| && ParseNumber(s, p) == Ok(n, p + |NumberText(n)|)
  {
    hide HasAt, NumberText, MinusText, FractionText, ExponentText;
    hide ParseInteger, ParseFraction, ParseExponent;
    NumberTextSplit(s, p, n);
    MinusLead(s, p, n);
    MinusLength(n.negative);
    var a := p + |MinusText(n.negative)|;
    var b := a + |n.digits|;
    FractionLead(s, b, n.fraction, n.exponent);
    IntegerComplete(s, a, n.digits);
    FractionComplete(s, b, n.fraction);
    ExponentComplete(s, b + |FractionText(n.fraction)|, n.exponent);
  }

  // --- Integers ---------------------------------------------------------------------------

  /** The integer a token denotes for the type with range `lo..hi`, if it denotes one. */
  function IntegerOf(n: Number, lo: int, hi: int): Option<int>
    requires NumberOk(n)
  {
    var value: int := if n.negative then -(DecimalValue(n.digits) as int) else DecimalValue(n.digits);
    if n.fraction.None? && n.exponent.None? && (n.negative ==> lo < 0) && lo <= value <= hi
    then Some(value)
    else None
  }

  /** Converting the token with std::from_chars succeeds on all of it exactly for such integers. */
  lemma FromCharsOfToken(n: Number, lo: int, hi: int)
    requires NumberOk(n)
    ensures var r := FromChars(NumberText(n), lo, hi);
            && (r.status.Converted? && r.used == |NumberText(n)| <==> IntegerOf(n, lo, hi).Some?)
            && (IntegerOf(n, lo, hi).Some? ==> r.value == IntegerOf(n, lo, hi).value)
  {
    var token := NumberText(n);
    var tail := FractionText(n.fraction) + ExponentText(n.exponent);
    var start := |MinusText(n.negative)|;
    assert token[start..] == n.digits + tail;
    assert token[start..start + |n.digits|] == n.digits;
    if n.negative && lo >= 0 {
      assert token[0] == MINUS;
      assert DigitsEnd(token, 0) == 0;
    } else {
      assert token[start] == n.digits[0];
      assert !IsDigit(At(token, start + |n.digits|)) by {
        if tail != [] {
          assert token[start + |n.digits|] == tail[0];
        }
      }
      DigitsEndIs(token, start, n.digits);
    }
  }

  function IntegerNumber(v: int): (n: Number)
    ensures NumberOk(n)
  {
    NoLeadingZero(if v < 0 then -v else v);
    Number(v < 0, DecimalDigits(if v < 0 then -v else v), None, None)
  }

  /** What std::to_chars prints is a number token denoting the printed value. */
  lemma PrintedInteger(v: int, lo: int, hi: int)
    requires lo <= v <= hi
    ensures NumberText(IntegerNumber(v)) == ToChars(v)
    ensures IntegerOf(IntegerNumber(v), lo, hi) == Some(v)
  {
    DecimalRoundTrip(if v < 0 then -v else v);
  }

  /** Printing an integer read from a token never takes more bytes than the token. */
  lemma IntegerNeverGrows(n: Number, lo: int, hi: int)
    requires NumberOk(n) && IntegerOf(n, lo, hi).Some?
    ensures |ToChars(IntegerOf(n, lo, hi).value)| <= |NumberText(n)|
  {
    DecimalNeverGrows(n.digits);
  }
}
