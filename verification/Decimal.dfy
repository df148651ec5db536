/** Decimal integers as std::from_chars and std::to_chars read and print them. */
module Decimal {
  import opened Bytes

  predicate IsDigit(b: Byte) {
    '0' as int <= b <= '9' as int
  }

  predicate AllDigits(ds: seq<Byte>) {
    forall k | 0 <= k < |ds| :: IsDigit(ds[k])
  }

  function DigitValue(b: Byte): nat
    requires IsDigit(b)
  {
    b - '0' as int
  }

  function DigitOf(v: nat): (b: Byte)
    requires v < 10
    ensures IsDigit(b) && DigitValue(b) == v
  {
    '0' as int + v
  }

  function DecimalValue(ds: seq<Byte>): nat
    requires AllDigits(ds)
  {
    if ds == [] then 0 else DecimalValue(ds[..|ds| - 1]) * 10 + DigitValue(ds[|ds| - 1])
  }

  function DecimalDigits(n: nat): (ds: seq<Byte>)
    ensures ds != [] && AllDigits(ds)
  {
    if n < 10 then [DigitOf(n)] else DecimalDigits(n / 10) + [DigitOf(n % 10)]
  }

  lemma {:induction false} DecimalRoundTrip(n: nat)
    ensures DecimalValue(DecimalDigits(n)) == n
  {
    var ds := DecimalDigits(n);
    if n < 10 {
      assert ds[..0] == [];
    } else {
      DecimalRoundTrip(n / 10);
      assert ds[..|ds| - 1] == DecimalDigits(n / 10);
    }
  }

  lemma {:induction false} NoLeadingZero(n: nat)
    ensures n > 0 ==> DecimalDigits(n)[0] != '0' as int
    ensures DecimalDigits(n)[0] == '0' as int ==> |DecimalDigits(n)| == 1
  {
    if n >= 10 {
      NoLeadingZero(n / 10);
    }
  }

  lemma {:induction false} DecimalNeverGrows(ds: seq<Byte>)
    requires AllDigits(ds) && ds != []
    ensures |DecimalDigits(DecimalValue(ds))| <= |ds|
  {
    var front := ds[..|ds| - 1];
    if front == [] {
      assert DecimalValue(front) == 0;
    } else {
      DecimalNeverGrows(front);
    }
  }

  /** The end of the run of digits that starts at `i`. */
  function DigitsEnd(s: seq<Byte>, i: nat): (e: nat)
    requires i <= |s|
    ensures i <= e <= |s| && AllDigits(s[i..e]) && !IsDigit(At(s, e))
    decreases |s| - i
  {
    if !IsDigit(At(s, i)) then i
    else
      var e := DigitsEnd(s, i + 1);
      assert s[i..e] == [s[i]] + s[i + 1..e];
      e
  }

  lemma {:induction false} DigitsEndIs(s: seq<Byte>, i: nat, ds: seq<Byte>)
    requires HasAt(s, i, ds) && AllDigits(ds) && !IsDigit(At(s, i + |ds|))
    ensures DigitsEnd(s, i) == i + |ds|
    decreases |ds|
  {
    if ds != [] {
      assert ds == [ds[0]] + ds[1..];
      HasAtConcat(s, i, [ds[0]], ds[1..]);
      HasAtIndex(s, i, ds, 0);
      DigitsEndIs(s, i + 1, ds[1..]);
    }
  }

  datatype Status = Converted | InvalidArgument | OutOfRange

  /** The outcome of std::from_chars: status, bytes used, and the value when converted. */
  datatype Conversion = Conversion(status: Status, used: nat, value: int)

  /** std::from_chars in base 10 for the integer type with range `lo..hi`; only a signed type takes a minus. */
  function FromChars(token: seq<Byte>, lo: int, hi: int): (r: Conversion)
    ensures r.used <= |token|
    ensures r.status.Converted? ==> lo <= r.value <= hi
  {
    var negative := lo < 0 && At(token, 0) == MINUS;
    var start := if negative then 1 else 0;
    var end := DigitsEnd(token, start);
    if end == start then Conversion(InvalidArgument, 0, 0)
    else
      var magnitude := DecimalValue(token[start..end]);
      var value: int := if negative then -(magnitude as int) else magnitude;
      if lo <= value <= hi then Conversion(Converted, end, value) else Conversion(OutOfRange, end, 0)
  }

  /** std::to_chars. */
  function ToChars(v: int): seq<Byte> {
    if v < 0 then [MINUS] + DecimalDigits(-v) else DecimalDigits(v)
  }

  /** Printing then converting gives back every value of the type, and uses the whole token. */
  lemma ToThenFromChars(v: int, lo: int, hi: int)
    requires lo <= v <= hi
    ensures FromChars(ToChars(v), lo, hi) == Conversion(Converted, |ToChars(v)|, v)
  {
    var token := ToChars(v);
    var start := if v < 0 then 1 else 0;
    var ds := DecimalDigits(if v < 0 then -v else v);
    DecimalRoundTrip(if v < 0 then -v else v);
    assert token[start..|token|] == ds;
    DigitsEndIs(token, start, ds);
  }

  // --- The conversions as loops -----------------------------------------------------------

  method ConvertFromChars(token: seq<Byte>, lo: int, hi: int) returns (r: Conversion)
    ensures r == FromChars(token, lo, hi)
  {
    var negative := lo < 0 && At(token, 0) == MINUS;
    var start := if negative then 1 else 0;
    var end := start;
    var magnitude := 0;
    assert token[start..end] == [];
    while end < |token| && IsDigit(token[end])
      invariant start <= end <= |token|
      invariant AllDigits(token[start..end]) && magnitude == DecimalValue(token[start..end])
      invariant DigitsEnd(token, end) == DigitsEnd(token, start)
    {
      AnotherDigit(token, start, end);
      magnitude := magnitude * 10 + DigitValue(token[end]);
      end := end + 1;
    }
    if end == start {
      return Conversion(InvalidArgument, 0, 0);
    }
    var value: int := if negative then -(magnitude as int) else magnitude;
    if lo <= value <= hi {
      return Conversion(Converted, end, value);
    }
    return Conversion(OutOfRange, end, 0);
  }

  lemma AnotherDigit(token: seq<Byte>, start: nat, end: nat)
    requires start <= end < |token| && AllDigits(token[start..end]) && IsDigit(token[end])
    ensures AllDigits(token[start..end + 1])
    ensures DecimalValue(token[start..end + 1]) == DecimalValue(token[start..end]) * 10 + DigitValue(token[end])
  {
    var ds := token[start..end + 1];
    assert ds[..|ds| - 1] == token[start..end] && ds[|ds| - 1] == token[end];
  }

  method ConvertToChars(v: int) returns (text: seq<Byte>)
    ensures text == ToChars(v)
  {
    var rest: nat := if v < 0 then -v else v;
    ghost var all := DecimalDigits(rest);
    text := [];
    while rest >= 10
      invariant all == DecimalDigits(rest) + text
    {
      Assoc(DecimalDigits(rest / 10), [DigitOf(rest % 10)], text);
      text := [DigitOf(rest % 10)] + text;
      rest := rest / 10;
    }
    text := [DigitOf(rest)] + text;
    if v < 0 {
      text := [MINUS] + text;
    }
  }
}
