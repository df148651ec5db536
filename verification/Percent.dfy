/** Percent-decoding (RFC 3986, section 2.1) of path and query text. */
module Percent {
  import opened Bytes
  import opened Hex

  const PERCENT: Byte := '%' as int
  const SPACE: Byte := ' ' as int

  /** A decoded text: owned when something had to be decoded, the input itself otherwise. */
  datatype DecodedValue = DecodedValue(owned: seq<Byte>, borrowed: seq<Byte>, ownsValue: bool) {
    function View(): seq<Byte> {
      if ownsValue then owned else borrowed
    }
  }

  // --- Encodings --------------------------------------------------------------------------

  /** One encoded byte. */
  datatype Unit =
    | Plain(b: Byte)
    | Escape(hi: Byte, lo: Byte)
    | Plus

  predicate UnitOk(u: Unit, plusAsSpace: bool) {
    match u
    case Plain(b) => b != PERCENT && (plusAsSpace ==> b != PLUS)
    case Escape(hi, lo) => HexValue(hi) >= 0 && HexValue(lo) >= 0
    case Plus => plusAsSpace
  }

  function UnitText(u: Unit): seq<Byte> {
    match u
    case Plain(b) => [b]
    case Escape(hi, lo) => [PERCENT, hi, lo]
    case Plus => [PLUS]
  }

  function UnitValue(u: Unit, plusAsSpace: bool): Byte
    requires UnitOk(u, plusAsSpace)
  {
    match u
    case Plain(b) => b
    case Escape(hi, lo) => HexValue(hi) * 16 + HexValue(lo)
    case Plus => SPACE
  }

  predicate UnitsOk(us: seq<Unit>, plusAsSpace: bool) {
    us == [] || (UnitOk(us[0], plusAsSpace) && UnitsOk(us[1..], plusAsSpace))
  }

  function UnitsText(us: seq<Unit>): seq<Byte> {
    if us == [] then [] else UnitText(us[0]) + UnitsText(us[1..])
  }

  function UnitsValue(us: seq<Unit>, plusAsSpace: bool): seq<Byte>
    requires UnitsOk(us, plusAsSpace)
  {
    if us == [] then [] else [UnitValue(us[0], plusAsSpace)] + UnitsValue(us[1..], plusAsSpace)
  }

  // --- Decoding ---------------------------------------------------------------------------

  /** The bytes `text` stands for; None when an escape is malformed. */
  function Decode(text: seq<Byte>, plusAsSpace: bool): Option<seq<Byte>> {
    if text == [] then Some([])
    else if text[0] == PLUS && plusAsSpace then Behind(SPACE, Decode(text[1..], plusAsSpace))
    else if text[0] != PERCENT then Behind(text[0], Decode(text[1..], plusAsSpace))
    else if |text| < 3 || HexValue(text[1]) < 0 || HexValue(text[2]) < 0 then None
    else Behind(HexValue(text[1]) * 16 + HexValue(text[2]), Decode(text[3..], plusAsSpace))
  }

  function Behind(b: Byte, rest: Option<seq<Byte>>): Option<seq<Byte>> {
    if rest.None? then None else Some([b] + rest.value)
  }

  function After(done: seq<Byte>, rest: Option<seq<Byte>>): Option<seq<Byte>> {
    if rest.None? then None else Some(done + rest.value)
  }

  predicate RequiresDecoding(text: seq<Byte>, plusAsSpace: bool) {
    PERCENT in text || (plusAsSpace && PLUS in text)
  }

  /** Text without escapes decodes to itself, so lending the input is right. */
  lemma {:induction false} BorrowedIsDecoded(text: seq<Byte>, plusAsSpace: bool)
    requires !RequiresDecoding(text, plusAsSpace)
    ensures Decode(text, plusAsSpace) == Some(text)
  {
    if text != [] {
      assert text[0] in text;
      assert forall b | b in text[1..] :: b in text;
      BorrowedIsDecoded(text[1..], plusAsSpace);
      assert [text[0]] + text[1..] == text;
    }
  }

  method PercentDecode(input: seq<Byte>, plusAsSpace: bool) returns (r: Option<DecodedValue>)
    ensures r.None? <==> Decode(input, plusAsSpace).None?
    ensures r.Some? ==> Decode(input, plusAsSpace) == Some(r.value.View())
    ensures r.Some? ==> r.value.ownsValue == RequiresDecoding(input, plusAsSpace)
    ensures r.Some? && !r.value.ownsValue ==> r.value.borrowed == input
  {
    hide Decode, RequiresDecoding;
    if !RequiresDecoding(input, plusAsSpace) {
      BorrowedIsDecoded(input, plusAsSpace);
      return Some(DecodedValue([], input, false));
    }
    var owned: seq<Byte> := [];
    var index := 0;
    DecodeStart(input, plusAsSpace);
    while index < |input|
      invariant index <= |input|
      invariant After(owned, Decode(input[index..], plusAsSpace)) == Decode(input, plusAsSpace)
    {
      var character := input[index];
      DecodeStep(input, index, plusAsSpace, owned);
      if character == PLUS && plusAsSpace {
        owned := owned + [SPACE];
        index := index + 1;
        continue;
      }
      if character != PERCENT {
        owned := owned + [character];
        index := index + 1;
        continue;
      }
      if index + 2 >= |input| {
        return None;
      }
      var high := HexValue(input[index + 1]);
      var low := HexValue(input[index + 2]);
      if high < 0 || low < 0 {
        return None;
      }
      owned := owned + [high * 16 + low];
      index := index + 3;
    }
    DecodeEnd(input[index..], plusAsSpace, owned);
    return Some(DecodedValue(owned, [], true));
  }

  lemma DecodeStart(input: seq<Byte>, plusAsSpace: bool)
    ensures After([], Decode(input[0..], plusAsSpace)) == Decode(input, plusAsSpace)
  {
    assert input[0..] == input;
    if Decode(input, plusAsSpace).Some? {
      EmptyLeft(Decode(input, plusAsSpace).value);
    }
  }

  lemma DecodeEnd(rest: seq<Byte>, plusAsSpace: bool, done: seq<Byte>)
    requires rest == []
    ensures After(done, Decode(rest, plusAsSpace)) == Some(done)
  {
    assert done + [] == done;
  }

  lemma AfterBehind(done: seq<Byte>, b: Byte, rest: Option<seq<Byte>>)
    ensures After(done, Behind(b, rest)) == After(done + [b], rest)
  {
    if rest.Some? {
      Assoc(done, [b], rest.value);
    }
  }

  /** One round of decoding, spelled out. */
  lemma DecodeStep(input: seq<Byte>, index: nat, plusAsSpace: bool, done: seq<Byte>)
    requires index < |input|
    ensures var all := After(done, Decode(input[index..], plusAsSpace));
            var c := input[index];
            if c == PLUS && plusAsSpace then
              all == After(done + [SPACE], Decode(input[index + 1..], plusAsSpace))
            else if c != PERCENT then
              all == After(done + [c], Decode(input[index + 1..], plusAsSpace))
            else if index + 2 >= |input| || HexValue(input[index + 1]) < 0 || HexValue(input[index + 2]) < 0 then
              all == None
            else
              var b: Byte := HexValue(input[index + 1]) * 16 + HexValue(input[index + 2]);
              all == After(done + [b], Decode(input[index + 3..], plusAsSpace))
  {
    hide HexValue;
    var rest := input[index..];
    assert rest[0] == input[index] && rest[1..] == input[index + 1..];
    if input[index] == PLUS && plusAsSpace {
      AfterBehind(done, SPACE, Decode(input[index + 1..], plusAsSpace));
    } else if input[index] != PERCENT {
      AfterBehind(done, input[index], Decode(input[index + 1..], plusAsSpace));
    } else if |rest| >= 3 {
      assert rest[1] == input[index + 1] && rest[2] == input[index + 2] && rest[3..] == input[index + 3..];
      if HexValue(rest[1]) >= 0 && HexValue(rest[2]) >= 0 {
        AfterBehind(done, HexValue(rest[1]) * 16 + HexValue(rest[2]), Decode(input[index + 3..], plusAsSpace));
      }
    }
  }

  // --- Decoding inverts encoding ----------------------------------------------------------

  lemma DecodeUnit(u: Unit, rest: seq<Byte>, plusAsSpace: bool)
    requires UnitOk(u, plusAsSpace)
    ensures Decode(UnitText(u) + rest, plusAsSpace) == Behind(UnitValue(u, plusAsSpace), Decode(rest, plusAsSpace))
  {
    var text := UnitText(u) + rest;
    assert text[|UnitText(u)|..] == rest;
  }

  /** Every percent-encoding of a byte string decodes to it. */
  lemma {:induction false} DecodeInvertsEncoding(us: seq<Unit>, plusAsSpace: bool)
    requires UnitsOk(us, plusAsSpace)
    ensures Decode(UnitsText(us), plusAsSpace) == Some(UnitsValue(us, plusAsSpace))
  {
    if us != [] {
      DecodeUnit(us[0], UnitsText(us[1..]), plusAsSpace);
      DecodeInvertsEncoding(us[1..], plusAsSpace);
    }
  }

  /** Whatever decodes is a percent-encoding of the result. */
  lemma {:induction false} DecodedIsEncoded(text: seq<Byte>, plusAsSpace: bool) returns (us: seq<Unit>)
    requires Decode(text, plusAsSpace).Some?
    ensures UnitsOk(us, plusAsSpace) && UnitsText(us) == text
    ensures Some(UnitsValue(us, plusAsSpace)) == Decode(text, plusAsSpace)
  {
    if text == [] {
      us := [];
    } else {
      var u :=
        if text[0] == PLUS && plusAsSpace then Plus
        else if text[0] != PERCENT then Plain(text[0])
        else Escape(text[1], text[2]);
      var n := |UnitText(u)|;
      assert text == UnitText(u) + text[n..];
      DecodeUnit(u, text[n..], plusAsSpace);
      var rest := DecodedIsEncoded(text[n..], plusAsSpace);
      us := [u] + rest;
      Cons(u, rest);
    }
  }

  // --- Encoding bytes ---------------------------------------------------------------------

  /**
   The percent-encoding of a byte string that writes the bytes in `kept` as they are; in a form a space is
   written as a plus.
   */
  function Encode(bytes: seq<Byte>, kept: set<Byte>, upper: bool, form: bool): seq<Byte> {
    if bytes == [] then []
    else
      (if form && bytes[0] == ' ' as int then ['+' as int]
       else if bytes[0] in kept then [bytes[0]]
       else ['%' as int, Digit(bytes[0] / 16, upper), Digit(bytes[0] % 16, upper)])
      + Encode(bytes[1..], kept, upper, form)
  }

  /** Whatever is kept, and in digits of either case, the percent-encoding of a byte string decodes to it. */
  lemma {:induction false} EncodedDecodes(bytes: seq<Byte>, kept: set<Byte>, upper: bool, form: bool)
    requires '%' as int !in kept && (form ==> '+' as int !in kept)
    ensures Decode(Encode(bytes, kept, upper, form), form) == Some(bytes)
  {
    hide HexValue, Digit;
    if bytes != [] {
      var b := bytes[0];
      var u :=
        if form && b == ' ' as int then Plus
        else if b in kept then Plain(b)
        else Escape(Digit(b / 16, upper), Digit(b % 16, upper));
      DigitValues(Digit(b / 16, upper), b / 16);
      DigitValues(Digit(b % 16, upper), b % 16);
      DecodeUnit(u, Encode(bytes[1..], kept, upper, form), form);
      EncodedDecodes(bytes[1..], kept, upper, form);
      assert [b] + bytes[1..] == bytes;
    }
  }
}
