/** String tokens written with escapes (RFC 8259, section 7), and what the scanner makes of them. */
module JsonEscapes {
  import opened Bytes
  import opened Hex
  import opened Utf8
  import opened JsonString

  // --- Two-character escapes --------------------------------------------------------------

  const SHORT_LETTERS := "\"\\/bfnrt"
  const SHORT_VALUES: seq<Byte> := [0x22, 0x5C, 0x2F, 0x08, 0x0C, 0x0A, 0x0D, 0x09]

  /** The letters of the grammar stand for the bytes it gives them, and no other letter stands for one. */
  lemma ShortEscapes(e: Byte, v: Byte)
    ensures ShortValue(e) == Some(v)
            <==> exists k | 0 <= k < |SHORT_VALUES| :: e == SHORT_LETTERS[k] as int && v == SHORT_VALUES[k]
  {
    assert |SHORT_LETTERS| == |SHORT_VALUES|;
    if ShortValue(e) == Some(v) {
      var k :=
        if e == 0x22 then 0 else if e == 0x5C then 1 else if e == 0x2F then 2 else if e == 'b' as int then 3
        else if e == 'f' as int then 4 else if e == 'n' as int then 5 else if e == 'r' as int then 6 else 7;
      assert e == SHORT_LETTERS[k] as int && v == SHORT_VALUES[k];
    }
  }

  // --- \u escapes -------------------------------------------------------------------------

  /** Four digits of the case `upper` says. */
  function Quad(v: nat, upper: bool): seq<Byte>
    requires v < 0x10000
  {
    [Digit(v / 4096, upper), Digit(v / 256 % 16, upper), Digit(v / 16 % 16, upper), Digit(v % 16, upper)]
  }

  lemma Digits16(v: nat)
    requires v < 0x10000
    ensures v / 4096 < 16
    ensures v == ((v / 4096 * 16 + v / 256 % 16) * 16 + v / 16 % 16) * 16 + v % 16
  {
    assert v / 16 / 16 == v / 256 && v / 256 / 16 == v / 4096;
  }

  lemma QuadIsHex(v: nat, upper: bool)
    requires v < 0x10000
    ensures HexQuad(Quad(v, upper))
    ensures QuadValue(Quad(v, upper)) == ((v / 4096 * 16 + v / 256 % 16) * 16 + v / 16 % 16) * 16 + v % 16
  {
    hide HexValue, Digit;
    var a, b, c, d := v / 4096, v / 256 % 16, v / 16 % 16, v % 16;
    DigitValues(Digit(a, upper), a);
    DigitValues(Digit(b, upper), b);
    DigitValues(Digit(c, upper), c);
    DigitValues(Digit(d, upper), d);
  }

  lemma QuadIsRead(v: nat, upper: bool)
    requires v < 0x10000
    ensures HexQuad(Quad(v, upper)) && QuadValue(Quad(v, upper)) == v
  {
    hide Quad, HexQuad, QuadValue;
    QuadIsHex(v, upper);
    Digits16(v);
  }

  /** The scalar as an escape: its code, or behind the first plane the code units of its surrogate pair. */
  function EscapeText(c: Scalar, upper: bool): seq<Byte> {
    assert IsScalar(c);
    if c < 0x10000 then ['\\' as int, 'u' as int] + Quad(c, upper)
    else
      ['\\' as int, 'u' as int] + Quad(0xD800 + (c - 0x10000) / 0x400, upper)
      + ['\\' as int, 'u' as int] + Quad(0xDC00 + (c - 0x10000) % 0x400, upper)
  }

  function EscapedText(cs: seq<Scalar>, upper: bool): seq<Byte> {
    if cs == [] then [] else EscapeText(cs[0], upper) + EscapedText(cs[1..], upper)
  }

  function EscapePiece(c: Scalar, upper: bool): Piece {
    assert IsScalar(c);
    if c < 0x10000 then Unicode(Quad(c, upper))
    else Pair(Quad(0xD800 + (c - 0x10000) / 0x400, upper), Quad(0xDC00 + (c - 0x10000) % 0x400, upper))
  }

  lemma EscapeIsRead(c: Scalar, upper: bool)
    ensures var p := EscapePiece(c, upper);
            PieceOk(p) && PieceText(p) == EscapeText(c, upper) && PieceValue(p) == EncodeScalar(c)
  {
    hide Quad, EncodeScalar, HexQuad;
    assert IsScalar(c);
    if c < 0x10000 {
      QuadIsRead(c, upper);
    } else {
      QuadIsRead(0xD800 + (c - 0x10000) / 0x400, upper);
      QuadIsRead(0xDC00 + (c - 0x10000) % 0x400, upper);
    }
  }

  lemma {:induction false} EscapesAreRead(cs: seq<Scalar>, upper: bool) returns (ps: seq<Piece>)
    ensures AllOk(ps) && PiecesText(ps) == EscapedText(cs, upper) && PiecesValue(ps) == EncodeAll(cs)
  {
    hide EscapeText, EscapePiece, EncodeScalar, PieceText, PieceValue, PieceOk;
    ps := [];
    if cs != [] {
      var rest := EscapesAreRead(cs[1..], upper);
      var p := EscapePiece(cs[0], upper);
      EscapeIsRead(cs[0], upper);
      ps := [p] + rest;
      Cons(p, rest);
    }
  }

  /** A string written with \u escapes in digits of either case is accepted, and decodes to the scalars escaped. */
  lemma EscapedScalarsDecode(limits: Limits, cs: seq<Scalar>, upper: bool)
    requires |EncodeAll(cs)| <= limits.stringBytes
    ensures var s := ['"' as int] + EscapedText(cs, upper) + ['"' as int];
            var r := ParseString(s, limits, 0);
            r.Ok? && r.next == |s| && PiecesValue(r.value) == EncodeAll(cs)
  {
    hide ParseString, EncodeAll, EscapedText, ValidUtf8;
    var ps := EscapesAreRead(cs, upper);
    var s := StringText(ps);
    ValidUtf8IffEncoding(EncodeAll(cs));
    assert s[0..0 + |s|] == s;
    ParseStringComplete(s, limits, 0, ps);
  }
}
