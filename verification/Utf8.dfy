/** UTF-8 as the JSON reader checks and produces it. */
module Utf8 {
  import opened Bytes

  /** A Unicode scalar value: a code point that is not a surrogate. */
  predicate IsScalar(c: int) {
    0 <= c <= 0x10FFFF && !(0xD800 <= c <= 0xDFFF)
  }

  type Scalar = c: int | IsScalar(c)

  /** The mask test `b & 0xC0 == 0x80`. */
  predicate Continuation(b: Byte) {
    b / 64 == 2
  }

  /** How many continuation bytes a lead byte announces; None for a byte that cannot lead. */
  function Announced(lead: Byte): Option<nat> {
    if lead <= 0x7F then Some(0)
    else if lead / 32 == 6 then Some(1)
    else if lead / 16 == 14 then Some(2)
    else if lead / 8 == 30 then Some(3)
    else None
  }

  /** The payload bits of a lead byte announcing `count` continuation bytes. */
  function LeadBits(lead: Byte, count: nat): nat {
    if count == 0 then lead
    else if count == 1 then lead % 32
    else if count == 2 then lead % 16
    else lead % 8
  }

  /** The least scalar that needs `count` continuation bytes. */
  function Minimum(count: nat): nat {
    if count == 0 then 0 else if count == 1 then 0x80 else if count == 2 then 0x800 else 0x10000
  }

  /** The value gathered from the lead byte and the first `k` continuation bytes. */
  function Gather(s: seq<Byte>, count: nat, k: nat): nat
    requires k < |s|
  {
    if k == 0 then LeadBits(s[0], count) else Gather(s, count, k - 1) * 64 + s[k] as nat % 64
  }

  predicate Continuations(s: seq<Byte>, from: nat, to: nat)
    requires to < |s|
  {
    forall k | from <= k <= to :: Continuation(s[k])
  }

  /** The length of the encoded scalar at the front of `s`, or 0 when there is none. */
  function UnitLength(s: seq<Byte>): (n: nat)
    requires s != []
    ensures n <= |s|
  {
    var announced := Announced(s[0]);
    if announced.None? then 0
    else
      var count := announced.value;
      if |s| - 1 < count then 0
      else if !Continuations(s, 1, count) then 0
      else
        var scalar := Gather(s, count, count);
        if scalar < Minimum(count) || !IsScalar(scalar) then 0 else count + 1
  }

  /** Byte strings the reader accepts as UTF-8. */
  predicate ValidUtf8(s: seq<Byte>) {
    s == [] || (UnitLength(s) > 0 && ValidUtf8(s[UnitLength(s)..]))
  }

  function EncodeScalar(c: Scalar): (r: seq<Byte>) {
    assert IsScalar(c);
    var low: Byte := 0x80 + c % 64;
    if c <= 0x7F then
      var only: Byte := c;
      [only]
    else if c <= 0x7FF then
      var lead: Byte := 0xC0 + c / 64;
      [lead, low]
    else
      var middle: Byte := 0x80 + c / 64 % 64;
      if c <= 0xFFFF then
        var lead: Byte := 0xE0 + c / 4096;
        [lead, middle, low]
      else
        var lead: Byte := 0xF0 + c / 262144;
        var high: Byte := 0x80 + c / 4096 % 64;
        [lead, high, middle, low]
  }

  function EncodeAll(cs: seq<Scalar>): seq<Byte> {
    if cs == [] then [] else EncodeScalar(cs[0]) + EncodeAll(cs[1..])
  }

  /** The scalar at the front of a text that starts with one. */
  function FrontScalar(s: seq<Byte>): (c: Scalar)
    requires s != [] && UnitLength(s) > 0
  {
    var count := UnitLength(s) - 1;
    assert Announced(s[0]) == Some(count);
    Gather(s, count, count)
  }

  function DecodeAll(s: seq<Byte>): seq<Scalar>
    requires ValidUtf8(s)
  {
    if s == [] then [] else [FrontScalar(s)] + DecodeAll(s[UnitLength(s)..])
  }

  /** The payload value of one, two and three continuation bytes, written out. */
  lemma GatherWrittenOut(s: seq<Byte>)
    ensures |s| > 1 ==> Gather(s, 1, 1) == LeadBits(s[0], 1) * 64 + s[1] as nat % 64
    ensures |s| > 2 ==> Gather(s, 2, 2) == (LeadBits(s[0], 2) * 64 + s[1] as nat % 64) * 64 + s[2] as nat % 64
    ensures |s| > 3 ==>
              Gather(s, 3, 3)
              == ((LeadBits(s[0], 3) * 64 + s[1] as nat % 64) * 64 + s[2] as nat % 64) * 64 + s[3] as nat % 64
  {
    if |s| > 1 {
      assert Gather(s, 1, 0) == LeadBits(s[0], 1);
    }
    if |s| > 2 {
      assert Gather(s, 2, 0) == LeadBits(s[0], 2);
      assert Gather(s, 2, 1) == Gather(s, 2, 0) * 64 + s[1] as nat % 64;
    }
    if |s| > 3 {
      assert Gather(s, 3, 0) == LeadBits(s[0], 3);
      assert Gather(s, 3, 1) == Gather(s, 3, 0) * 64 + s[1] as nat % 64;
      assert Gather(s, 3, 2) == Gather(s, 3, 1) * 64 + s[2] as nat % 64;
    }
  }

  lemma Digits64(c: Scalar)
    ensures c == c / 64 * 64 + c % 64
    ensures c / 64 == c / 4096 * 64 + c / 64 % 64
    ensures c / 4096 == c / 262144 * 64 + c / 4096 % 64
  {
  }

  /** The bytes `e` look to the scanner like one unit with the value `c`. */
  predicate LooksLike(e: seq<Byte>, c: int) {
    && e != []
    && var count := |e| - 1;
    && Announced(e[0]) == Some(count)
    && Continuations(e, 1, count)
    && Gather(e, count, count) == c
    && Minimum(count) <= c
  }

  lemma EncodedShort(c: Scalar)
    requires c <= 0x7FF
    ensures LooksLike(EncodeScalar(c), c)
  {
    assert IsScalar(c);
    GatherWrittenOut(EncodeScalar(c));
    Digits64(c);
  }

  lemma EncodedMiddle(c: Scalar)
    requires 0x7FF < c <= 0xFFFF
    ensures LooksLike(EncodeScalar(c), c)
  {
    assert IsScalar(c);
    GatherWrittenOut(EncodeScalar(c));
    Digits64(c);
  }

  lemma EncodedLong(c: Scalar)
    requires 0xFFFF < c
    ensures LooksLike(EncodeScalar(c), c)
  {
    assert IsScalar(c);
    GatherWrittenOut(EncodeScalar(c));
    Digits64(c);
  }

  /** What the bytes of an encoded scalar look like to the scanner. */
  lemma EncodedBytes(c: Scalar)
    ensures LooksLike(EncodeScalar(c), c)
  {
    hide LooksLike, EncodeScalar;
    if c <= 0x7FF {
      EncodedShort(c);
    } else if c <= 0xFFFF {
      EncodedMiddle(c);
    } else {
      EncodedLong(c);
    }
  }

  /** Encoding then scanning finds exactly the scalar that was encoded. */
  lemma EncodeThenScan(c: Scalar, rest: seq<Byte>)
    ensures UnitLength(EncodeScalar(c) + rest) == |EncodeScalar(c)|
    ensures FrontScalar(EncodeScalar(c) + rest) == c
  {
    var e := EncodeScalar(c);
    var s := e + rest;
    var count := |e| - 1;
    EncodedBytes(c);
    GatherPrefix(e, rest, count, count);
    assert forall k | 0 <= k < |e| :: s[k] == e[k];
  }

  lemma Scanned(s: seq<Byte>)
    requires s != [] && UnitLength(s) > 0
    ensures var count := UnitLength(s) - 1;
            && count <= 3
            && Announced(s[0]) == Some(count)
            && (forall k | 1 <= k <= count :: Continuation(s[k]))
            && Gather(s, count, count) == FrontScalar(s)
            && Minimum(count) <= FrontScalar(s)
  {
  }

  /** Scanning then encoding gives back the bytes that were scanned. */
  lemma ScanThenEncode(s: seq<Byte>)
    requires s != [] && UnitLength(s) > 0
    ensures EncodeScalar(FrontScalar(s)) == s[..UnitLength(s)]
  {
    Scanned(s);
    GatherWrittenOut(s);
    var n := UnitLength(s);
    if n == 2 {
      assert s[..2] == [s[0], s[1]];
    } else if n == 3 {
      EncodeThree(s[0], s[1], s[2]);
      assert s[..3] == [s[0], s[1], s[2]];
    } else if n == 4 {
      EncodeFour(s[0], s[1], s[2], s[3]);
      assert s[..4] == [s[0], s[1], s[2], s[3]];
    }
  }

  lemma EncodeThree(a: Byte, b: Byte, d: Byte)
    requires a / 16 == 14 && Continuation(b) && Continuation(d)
    requires var c := (a as nat % 16 * 64 + b as nat % 64) * 64 + d as nat % 64;
             0x800 <= c && IsScalar(c)
    ensures EncodeScalar((a as nat % 16 * 64 + b as nat % 64) * 64 + d as nat % 64) == [a, b, d]
  {
    var c := (a as nat % 16 * 64 + b as nat % 64) * 64 + d as nat % 64;
    assert c % 64 == d as nat % 64 && c / 64 == a as nat % 16 * 64 + b as nat % 64;
    assert c / 4096 == a as nat % 16;
  }

  lemma EncodeFour(a: Byte, b: Byte, d: Byte, f: Byte)
    requires a / 8 == 30 && Continuation(b) && Continuation(d) && Continuation(f)
    requires var c := ((a as nat % 8 * 64 + b as nat % 64) * 64 + d as nat % 64) * 64 + f as nat % 64;
             0x10000 <= c && IsScalar(c)
    ensures EncodeScalar(((a as nat % 8 * 64 + b as nat % 64) * 64 + d as nat % 64) * 64 + f as nat % 64)
            == [a, b, d, f]
  {
    var c := ((a as nat % 8 * 64 + b as nat % 64) * 64 + d as nat % 64) * 64 + f as nat % 64;
    assert c % 64 == f as nat % 64 && c / 64 == (a as nat % 8 * 64 + b as nat % 64) * 64 + d as nat % 64;
    assert c / 4096 == a as nat % 8 * 64 + b as nat % 64;
    assert c / 262144 == a as nat % 8;
  }

  lemma {:induction false} EncodedIsValid(cs: seq<Scalar>)
    ensures ValidUtf8(EncodeAll(cs))
  {
    if cs != [] {
      var e := EncodeScalar(cs[0]);
      var rest := EncodeAll(cs[1..]);
      EncodeThenScan(cs[0], rest);
      assert (e + rest)[|e|..] == rest;
      EncodedIsValid(cs[1..]);
    }
  }

  lemma EncodeAllCons(c: Scalar, rest: seq<Scalar>)
    ensures EncodeAll([c] + rest) == EncodeScalar(c) + EncodeAll(rest)
  {
    Cons(c, rest);
  }

  lemma {:induction false} DecodedEncodesBack(s: seq<Byte>)
    requires ValidUtf8(s)
    ensures EncodeAll(DecodeAll(s)) == s
  {
    hide UnitLength, FrontScalar, EncodeScalar;
    if s != [] {
      var n := UnitLength(s);
      var c, rest := FrontScalar(s), DecodeAll(s[n..]);
      ScanThenEncode(s);
      EncodeAllCons(c, rest);
      DecodedEncodesBack(s[n..]);
      assert s == s[..n] + s[n..];
    }
  }

  /** The reader's check accepts exactly the encodings of scalar sequences. */
  lemma ValidUtf8IffEncoding(s: seq<Byte>)
    ensures ValidUtf8(s) <==> exists cs: seq<Scalar> :: EncodeAll(cs) == s
  {
    if ValidUtf8(s) {
      DecodedEncodesBack(s);
    }
    if cs: seq<Scalar> :| EncodeAll(cs) == s {
      EncodedIsValid(cs);
    }
  }

  /** The encoding is unambiguous. */
  lemma {:induction false} DecodeInvertsEncode(cs: seq<Scalar>)
    ensures ValidUtf8(EncodeAll(cs)) && DecodeAll(EncodeAll(cs)) == cs
  {
    EncodedIsValid(cs);
    if cs != [] {
      var e := EncodeScalar(cs[0]);
      var rest := EncodeAll(cs[1..]);
      EncodeThenScan(cs[0], rest);
      assert (e + rest)[|e|..] == rest;
      DecodeInvertsEncode(cs[1..]);
    }
  }

  // --- Splitting at a byte that starts a character ---------------------------------------

  lemma {:induction false} GatherPrefix(s: seq<Byte>, t: seq<Byte>, count: nat, k: nat)
    requires k < |s|
    ensures Gather(s + t, count, k) == Gather(s, count, k)
  {
    if k > 0 {
      GatherPrefix(s, t, count, k - 1);
    }
  }

  /** Text that does not begin inside a character leaves the first character before it alone. */
  lemma UnitLengthPrefix(s: seq<Byte>, t: seq<Byte>)
    requires s != []
    requires t == [] || !Continuation(t[0])
    ensures UnitLength(s + t) == UnitLength(s)
  {
    var announced := Announced(s[0]);
    if announced.Some? {
      var count := announced.value;
      if |s| - 1 < count {
        if |s + t| - 1 >= count {
          assert (s + t)[|s|] == t[0];
          assert !Continuations(s + t, 1, count);
        }
      } else {
        GatherPrefix(s, t, count, count);
        assert Continuations(s + t, 1, count) <==> Continuations(s, 1, count) by {
          assert forall k | 1 <= k <= count :: (s + t)[k] == s[k];
        }
      }
    }
  }

  lemma {:induction false} SplitAtBoundary(a: seq<Byte>, t: seq<Byte>)
    requires t == [] || !Continuation(t[0])
    ensures ValidUtf8(a + t) <==> ValidUtf8(a) && ValidUtf8(t)
  {
    if a == [] {
      assert a + t == t;
    } else {
      UnitLengthPrefix(a, t);
      var n := UnitLength(a);
      if n > 0 {
        assert (a + t)[n..] == a[n..] + t;
        SplitAtBoundary(a[n..], t);
      }
    }
  }

  /** A leading encoded scalar never affects whether the rest is valid. */
  lemma StripScalar(c: Scalar, t: seq<Byte>)
    ensures ValidUtf8(EncodeScalar(c) + t) <==> ValidUtf8(t)
  {
    EncodeThenScan(c, t);
    assert (EncodeScalar(c) + t)[|EncodeScalar(c)|..] == t;
  }

  lemma {:induction false} StripAscii(a: seq<Byte>, t: seq<Byte>)
    requires forall b | b in a :: b <= 0x7F
    ensures ValidUtf8(a + t) <==> ValidUtf8(t)
  {
    if a == [] {
      assert a + t == t;
    } else {
      var s := a + t;
      assert s[0] == a[0] && a[0] in a;
      assert UnitLength(s) == 1 by {
        assert Gather(s, 0, 0) == s[0];
      }
      assert s[1..] == a[1..] + t;
      assert forall b | b in a[1..] :: b in a;
      StripAscii(a[1..], t);
    }
  }

  lemma AsciiIsValid(a: seq<Byte>)
    requires forall b | b in a :: b <= 0x7F
    ensures ValidUtf8(a)
  {
    StripAscii(a, []);
    assert a + [] == a;
  }

  // --- The syntax of RFC 3629, section 4 --------------------------------------------------

  predicate Tail(b: Byte) {
    0x80 <= b <= 0xBF
  }

  /** UTF8-1, UTF8-2, UTF8-3 and UTF8-4 of the grammar. */
  predicate Utf8Char(u: seq<Byte>) {
    || (|u| == 1 && u[0] <= 0x7F)
    || (|u| == 2 && 0xC2 <= u[0] <= 0xDF && Tail(u[1]))
    || (|u| == 3 && Tail(u[2])
        && (|| (u[0] == 0xE0 && 0xA0 <= u[1] <= 0xBF)
            || (0xE1 <= u[0] <= 0xEC && Tail(u[1]))
            || (u[0] == 0xED && 0x80 <= u[1] <= 0x9F)
            || (0xEE <= u[0] <= 0xEF && Tail(u[1]))))
    || (|u| == 4 && Tail(u[2]) && Tail(u[3])
        && (|| (u[0] == 0xF0 && 0x90 <= u[1] <= 0xBF)
            || (0xF1 <= u[0] <= 0xF3 && Tail(u[1]))
            || (u[0] == 0xF4 && 0x80 <= u[1] <= 0x8F)))
  }

  lemma TwoBytes(a: Byte, b: Byte)
    ensures a / 32 == 6 && b / 64 == 2 && a % 32 * 64 + b % 64 >= 0x80 <==> Utf8Char([a, b])
    ensures a / 32 == 6 ==> a % 32 * 64 + b % 64 < 0x800
  {
  }

  lemma ThreeBytes(a: Byte, b: Byte, c: Byte)
    ensures var v := (a % 16 * 64 + b % 64) * 64 + c % 64;
            a / 16 == 14 && b / 64 == 2 && c / 64 == 2 && v >= 0x800 && IsScalar(v) <==> Utf8Char([a, b, c])
  {
    assert b % 64 == b - b / 64 * 64 && c % 64 == c - c / 64 * 64 && a % 16 == a - a / 16 * 16;
  }

  lemma FourBytes(a: Byte, b: Byte, c: Byte, d: Byte)
    ensures var v := ((a % 8 * 64 + b % 64) * 64 + c % 64) * 64 + d % 64;
            a / 8 == 30 && b / 64 == 2 && c / 64 == 2 && d / 64 == 2 && v >= 0x10000 && IsScalar(v)
            <==> Utf8Char([a, b, c, d])
  {
    assert b % 64 == b - b / 64 * 64 && c % 64 == c - c / 64 * 64 && d % 64 == d - d / 64 * 64;
    assert a % 8 == a - a / 8 * 8;
  }

  /** What it takes to find a unit of `n` bytes. */
  lemma UnitParts(s: seq<Byte>, n: nat)
    requires 0 < n <= |s|
    ensures UnitLength(s) == n
            <==> && Announced(s[0]) == Some(n - 1) && Continuations(s, 1, n - 1)
                 && Gather(s, n - 1, n - 1) >= Minimum(n - 1) && IsScalar(Gather(s, n - 1, n - 1))
  {
    hide Gather, Continuations, IsScalar, Minimum;
  }

  /** The check finds a unit of `n` bytes exactly when the grammar does. */
  lemma UnitIsUtf8Char(s: seq<Byte>, n: nat)
    requires 0 < n <= |s|
    ensures UnitLength(s) == n <==> Utf8Char(s[..n])
  {
    hide UnitLength, Gather, Utf8Char;
    UnitParts(s, n);
    GatherWrittenOut(s);
    if n == 1 {
      OneByte(s);
    } else if n == 2 {
      assert s[..2] == [s[0], s[1]];
      TwoBytes(s[0], s[1]);
    } else if n == 3 {
      assert s[..3] == [s[0], s[1], s[2]];
      ThreeBytes(s[0], s[1], s[2]);
    } else if n == 4 {
      assert s[..4] == [s[0], s[1], s[2], s[3]];
      FourBytes(s[0], s[1], s[2], s[3]);
    } else {
      NoLonger(s[..n]);
    }
  }

  lemma OneByte(s: seq<Byte>)
    requires s != []
    ensures UnitLength(s) == 1 <==> Utf8Char(s[..1])
  {
  }

  lemma NoLonger(u: seq<Byte>)
    requires |u| > 4
    ensures !Utf8Char(u)
  {
  }
}
