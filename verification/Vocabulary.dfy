/** The bytes and words the formats are made of, against the texts that list them. */
module Vocabulary {
  import opened Bytes
  import opened Decimal
  import opened JsonNumber
  import opened JsonTree
  import opened JsonTypes
  import opened JsonReader
  import opened JsonText
  import opened Route
  import opened Matcher
  import opened MatcherMethods

  /** White space is space, tabulator, carriage return and line feed (RFC 8259, section 2). */
  lemma BlankBytes(b: Byte)
    ensures IsBlank(b) <==> b in Ascii(" \t\r\n")
  {
    var text := Ascii(" \t\r\n");
    assert text == [0x20, 0x09, 0x0D, 0x0A];
  }

  /** The value of a digit is its place in the list of digits. */
  lemma DigitBytes(b: Byte, v: nat)
    requires v < 10
    ensures IsDigit(b) && DigitValue(b) == v <==> b == Ascii("0123456789")[v]
    ensures IsDigit(b) <==> b in Ascii("0123456789")
  {
    var text := Ascii("0123456789");
    if IsDigit(b) {
      assert text[b - '0' as int] == b;
    }
  }

  lemma NumberBytes(b: Byte)
    ensures ExponentMarker(b) <==> b in Ascii("eE")
    ensures Sign(b) <==> b in Ascii("+-")
  {
    assert Ascii("eE") == ['e' as int, 'E' as int] && Ascii("+-") == ['+' as int, '-' as int];
  }

  /** Placeholder names consist of letters, digits, underscores and hyphens; small letters are 32 above capitals. */
  lemma NameBytes(b: Byte)
    ensures NameByte(b)
            <==> b in Ascii("0123456789_-") || 'A' as int <= (if b >= 'a' as int then b - 32 else b) <= 'Z' as int
  {
    var others := Ascii("0123456789_-");
    if IsDigit(b) {
      assert others[b - '0' as int] == b;
    }
    assert others[10] == UNDERSCORE && others[11] == MINUS;
  }

  /** The names of the methods in the order of their bits. */
  lemma MethodNames(m: Method)
    ensures MethodName(m) == ["GET", "POST", "PUT", "PATCH", "DELETE", "HEAD", "OPTIONS"][MethodBit(m)]
  {
  }

  /** They are listed in this order. */
  lemma MethodsInOrder(k: nat)
    requires k < 7
    ensures |PRINT_ORDER| == 7
    ensures MethodName(PRINT_ORDER[k]) == ["GET", "HEAD", "POST", "PUT", "PATCH", "DELETE", "OPTIONS"][k]
  {
  }

  /** A negative number is printed behind a minus, any other in its digits alone. */
  lemma SignIsPrinted(v: nat)
    ensures ToChars(v) == DecimalDigits(v)
    ensures v > 0 ==> ToChars(-(v as int)) == Ascii("-") + DecimalDigits(v)
  {
    assert Ascii("-") == [MINUS];
  }

  /** The words are read as the values they name, */
  lemma WordsAreRead(limits: Limits, schema: Schema)
    requires limits.inputBytes >= 5
    ensures Read(Ascii("true"), limits, schema, BoolTy) == Ok(BoolVal(true), 4)
    ensures Read(Ascii("false"), limits, schema, BoolTy) == Ok(BoolVal(false), 5)
    ensures forall of :: Read(Ascii("null"), limits, schema, OptionalTy(of)) == Ok(NoneVal, 4)
  {
    var t, f, n := Ascii("true"), Ascii("false"), Ascii("null");
    assert t == TRUE_TEXT && f == FALSE_TEXT && n == NULL_TEXT;
    assert SkipBlank(t, 0) == 0 && SkipBlank(t, 4) == 4;
    assert SkipBlank(f, 0) == 0 && SkipBlank(f, 5) == 5;
    assert SkipBlank(n, 0) == 0 && SkipBlank(n, 4) == 4;
    assert HasAt(t, 0, TRUE_TEXT) && HasAt(f, 0, FALSE_TEXT) && HasAt(n, 0, NULL_TEXT);
    assert t[0] != n[0] && f[0] != n[0] && f[0] != t[0];
    assert !HasAt(t, 0, NULL_TEXT) && !HasAt(f, 0, NULL_TEXT) && !HasAt(f, 0, TRUE_TEXT);
  }

  /** and printed for them. */
  lemma WordsArePrinted(schema: Schema, of: Ty)
    ensures WriteText(schema, BoolTy, BoolVal(true)) == Ascii("true")
    ensures WriteText(schema, BoolTy, BoolVal(false)) == Ascii("false")
    ensures WriteText(schema, OptionalTy(of), NoneVal) == Ascii("null")
  {
  }
}
