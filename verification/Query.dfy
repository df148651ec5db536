/** Finding a scalar parameter in a query string. */
module Query {
  import opened Bytes
  import opened Hex
  import opened Percent

  const AMPERSAND: Byte := '&' as int
  const EQUALS: Byte := '=' as int

  datatype Lookup = Value(value: Option<seq<Byte>>) | InvalidEncoding | Duplicate

  // --- Splitting --------------------------------------------------------------------------

  /** The first `b` at or behind `i`, or the end. */
  function Find(s: seq<Byte>, b: Byte, i: nat): (e: nat)
    requires i <= |s|
    ensures i <= e <= |s| && b !in s[i..e] && (e < |s| ==> s[e] == b)
    decreases |s| - i
  {
    if i == |s| || s[i] == b then i
    else
      var e := Find(s, b, i + 1);
      assert s[i..e] == [s[i]] + s[i + 1..e];
      e
  }

  lemma {:induction false} FindIs(s: seq<Byte>, b: Byte, i: nat, e: nat)
    requires i <= e <= |s| && b !in s[i..e] && (e < |s| ==> s[e] == b)
    ensures Find(s, b, i) == e
    decreases e - i
  {
    if i < e {
      assert s[i] == s[i..e][0];
      assert forall c | c in s[i + 1..e] :: c in s[i..e];
      FindIs(s, b, i + 1, e);
    }
  }

  /** The pairs from `i` on. */
  function PairsFrom(query: seq<Byte>, i: nat): (pairs: seq<seq<Byte>>)
    requires i <= |query|
    ensures pairs != []
    decreases |query| - i
  {
    var end := Find(query, AMPERSAND, i);
    if end == |query| then [query[i..end]] else [query[i..end]] + PairsFrom(query, end + 1)
  }

  /** The pairs of a query: none in an empty query, otherwise what stands between ampersands. */
  function Pairs(query: seq<Byte>): seq<seq<Byte>> {
    if query == [] then [] else PairsFrom(query, 0)
  }

  function RawName(pair: seq<Byte>): seq<Byte> {
    pair[..Find(pair, EQUALS, 0)]
  }

  function RawValue(pair: seq<Byte>): seq<Byte> {
    var equals := Find(pair, EQUALS, 0);
    if equals == |pair| then [] else pair[equals + 1..]
  }

  function Name(pair: seq<Byte>): Option<seq<Byte>> {
    Decode(RawName(pair), true)
  }

  // --- What a lookup answers --------------------------------------------------------------

  predicate NamesDecode(pairs: seq<seq<Byte>>) {
    forall k | 0 <= k < |pairs| :: Name(pairs[k]).Some?
  }

  /** The raw values of the pairs with this name. */
  function ValuesNamed(pairs: seq<seq<Byte>>, name: seq<Byte>): seq<seq<Byte>> {
    if pairs == [] then []
    else (if Name(pairs[0]) == Some(name) then [RawValue(pairs[0])] else []) + ValuesNamed(pairs[1..], name)
  }

  /** The scan over the pairs, given what has been found. */
  function Scan(pairs: seq<seq<Byte>>, name: seq<Byte>, found: Option<seq<Byte>>): Lookup {
    if pairs == [] then Value(found)
    else if Name(pairs[0]).None? then InvalidEncoding
    else if Name(pairs[0]).value != name then Scan(pairs[1..], name, found)
    else if found.Some? then Duplicate
    else Scan(pairs[1..], name, Some(RawValue(pairs[0])))
  }

  function FoundSeq(found: Option<seq<Byte>>): seq<seq<Byte>> {
    if found.None? then [] else [found.value]
  }

  lemma {:induction false} ScanMeaning(pairs: seq<seq<Byte>>, name: seq<Byte>, found: Option<seq<Byte>>)
    ensures var all := FoundSeq(found) + ValuesNamed(pairs, name);
            var r := Scan(pairs, name, found);
            && (r.Value? <==> NamesDecode(pairs) && |all| <= 1)
            && (r.Value? ==> FoundSeq(r.value) == all)
            && (r.InvalidEncoding? ==> !NamesDecode(pairs))
            && (r.Duplicate? ==> |all| > 1)
  {
    hide Name, RawValue;
    if pairs != [] {
      assert NamesDecode(pairs) <==> Name(pairs[0]).Some? && NamesDecode(pairs[1..]) by {
        NamesDecodeCons(pairs);
      }
      if Name(pairs[0]) == Some(name) {
        if found.None? {
          ScanMeaning(pairs[1..], name, Some(RawValue(pairs[0])));
        }
      } else {
        ScanMeaning(pairs[1..], name, found);
        EmptyLeft(ValuesNamed(pairs[1..], name));
      }
    }
  }

  lemma NamesDecodeCons(pairs: seq<seq<Byte>>)
    requires pairs != []
    ensures NamesDecode(pairs) <==> Name(pairs[0]).Some? && NamesDecode(pairs[1..])
  {
    hide Name;
    if Name(pairs[0]).Some? && NamesDecode(pairs[1..]) {
      forall k | 0 <= k < |pairs| ensures Name(pairs[k]).Some? {
        if k > 0 {
          assert pairs[1..][k - 1] == pairs[k];
        }
      }
    }
    if NamesDecode(pairs) {
      assert forall k | 0 <= k < |pairs[1..]| :: pairs[1..][k] == pairs[k + 1];
    }
  }

  // --- The scan as it runs ----------------------------------------------------------------

  function Answer(query: seq<Byte>, name: seq<Byte>): Lookup {
    Scan(Pairs(query), name, None)
  }

  /**
   A lookup succeeds exactly when every name in the query decodes and at most one decodes to the wanted name,
   and it returns the raw value of that one.
   */
  lemma LookupSucceedsIff(query: seq<Byte>, name: seq<Byte>)
    ensures Answer(query, name).Value?
            <==> NamesDecode(Pairs(query)) && |ValuesNamed(Pairs(query), name)| <= 1
    ensures Answer(query, name).Value? ==> FoundSeq(Answer(query, name).value) == ValuesNamed(Pairs(query), name)
    ensures Answer(query, name).InvalidEncoding? ==> !NamesDecode(Pairs(query))
    ensures Answer(query, name).Duplicate? ==> |ValuesNamed(Pairs(query), name)| > 1
  {
    ScanMeaning(Pairs(query), name, None);
    EmptyLeft(ValuesNamed(Pairs(query), name));
  }

  method FindByte(s: seq<Byte>, b: Byte, offset: nat) returns (e: nat)
    requires offset <= |s|
    ensures e == Find(s, b, offset)
  {
    e := offset;
    while e < |s| && s[e] != b
      invariant offset <= e <= |s| && Find(s, b, e) == Find(s, b, offset)
    {
      e := e + 1;
    }
  }

  method FindQueryValue(query: seq<Byte>, expectedName: seq<Byte>) returns (r: Lookup)
    ensures r == Answer(query, expectedName)
  {
    hide Find, Decode, Scan, PairsFrom;
    var result: Option<seq<Byte>> := None;
    var offset := 0;
    ScanStart(query, expectedName);
    while offset <= |query| && query != []
      invariant offset <= |query|
      invariant query != [] ==> Scan(PairsFrom(query, offset), expectedName, result) == Answer(query, expectedName)
      invariant query == [] ==> Value(result) == Answer(query, expectedName)
      decreases |query| - offset
    {
      var separator := FindByte(query, AMPERSAND, offset);
      var pair := query[offset..separator];
      var equals := FindByte(pair, EQUALS, 0);
      var rawName := pair[..equals];
      var rawValue := if equals == |pair| then [] else pair[equals + 1..];
      ScanStep(query, offset, expectedName, result);
      var decodedName := PercentDecode(rawName, true);
      if decodedName.None? {
        return InvalidEncoding;
      }
      if decodedName.value.View() == expectedName {
        if result.Some? {
          return Duplicate;
        }
        result := Some(rawValue);
      }
      if separator == |query| {
        break;
      }
      offset := separator + 1;
    }
    return Value(result);
  }

  lemma PairsStep(query: seq<Byte>, offset: nat)
    requires offset <= |query|
    ensures var end := Find(query, AMPERSAND, offset);
            var pairs := PairsFrom(query, offset);
            && pairs[0] == query[offset..end]
            && pairs[1..] == if end == |query| then [] else PairsFrom(query, end + 1)
  {
  }

  lemma ScanStart(query: seq<Byte>, name: seq<Byte>)
    ensures query == [] ==> Answer(query, name) == Value(None)
    ensures query != [] ==> Answer(query, name) == Scan(PairsFrom(query, 0), name, None)
  {
  }

  /** One round of the scan, spelled out. */
  lemma ScanStep(query: seq<Byte>, offset: nat, name: seq<Byte>, found: Option<seq<Byte>>)
    requires offset <= |query|
    ensures var r := Scan(PairsFrom(query, offset), name, found);
            var end := Find(query, AMPERSAND, offset);
            var pair := query[offset..end];
            var decoded := Decode(pair[..Find(pair, EQUALS, 0)], true);
            if decoded.None? then r == InvalidEncoding
            else if decoded.value == name && found.Some? then r == Duplicate
            else
              var next := if decoded.value == name then Some(RawValue(pair)) else found;
              r == if end == |query| then Value(next) else Scan(PairsFrom(query, end + 1), name, next)
  {
    hide Find, Decode, PairsFrom, RawValue;
    PairsStep(query, offset);
  }

  // --- Queries written by a client --------------------------------------------------------

  datatype Pair = Pair(name: seq<Unit>, value: seq<Unit>)

  /** The encoding leaves no separator unescaped. */
  predicate PairOk(p: Pair) {
    && UnitsOk(p.name, true) && UnitsOk(p.value, true)
    && AMPERSAND !in UnitsText(p.name) && EQUALS !in UnitsText(p.name) && AMPERSAND !in UnitsText(p.value)
  }

  predicate PairsOk(ps: seq<Pair>) {
    ps == [] || (PairOk(ps[0]) && PairsOk(ps[1..]))
  }

  function PairText(p: Pair): seq<Byte> {
    UnitsText(p.name) + [EQUALS] + UnitsText(p.value)
  }

  function PairTexts(ps: seq<Pair>): seq<seq<Byte>> {
    if ps == [] then [] else [PairText(ps[0])] + PairTexts(ps[1..])
  }

  function QueryText(ps: seq<Pair>): seq<Byte> {
    if ps == [] then []
    else if |ps| == 1 then PairText(ps[0])
    else PairText(ps[0]) + [AMPERSAND] + QueryText(ps[1..])
  }

  /** The encoded values of the pairs called `name`. */
  function Named(ps: seq<Pair>, name: seq<Byte>): (vs: seq<seq<Unit>>)
    requires PairsOk(ps)
    ensures forall v | v in vs :: UnitsOk(v, true)
  {
    if ps == [] then []
    else (if UnitsValue(ps[0].name, true) == name then [ps[0].value] else []) + Named(ps[1..], name)
  }

  lemma PairParts(p: Pair)
    requires PairOk(p)
    ensures RawName(PairText(p)) == UnitsText(p.name) && RawValue(PairText(p)) == UnitsText(p.value)
    ensures Name(PairText(p)) == Some(UnitsValue(p.name, true))
    ensures AMPERSAND !in PairText(p) && PairText(p) != []
  {
    var text := PairText(p);
    var n := |UnitsText(p.name)|;
    assert text[0..n] == UnitsText(p.name) == text[..n];
    assert text[n + 1..] == UnitsText(p.value);
    FindIs(text, EQUALS, 0, n);
    DecodeInvertsEncoding(p.name, true);
  }

  lemma FirstPair(before: seq<Byte>, first: seq<Byte>, rest: seq<Byte>)
    requires AMPERSAND !in first && (rest != [] ==> rest[0] == AMPERSAND)
    ensures var query := before + (first + rest);
            && Find(query, AMPERSAND, |before|) == |before| + |first|
            && query[|before|..|before| + |first|] == first
  {
    hide Find;
    var query := before + (first + rest);
    assert query[|before|..|before| + |first|] == first;
    FindIs(query, AMPERSAND, |before|, |before| + |first|);
  }

  lemma OnePair(before: seq<Byte>, only: seq<Byte>)
    requires AMPERSAND !in only
    ensures PairsFrom(before + only, |before|) == [only]
  {
    hide Find;
    FirstPair(before, only, []);
    assert only + [] == only;
  }

  lemma MorePairs(before: seq<Byte>, first: seq<Byte>, rest: seq<Byte>)
    requires AMPERSAND !in first
    ensures var next := before + first + [AMPERSAND];
            PairsFrom(before + (first + [AMPERSAND] + rest), |before|) == [first] + PairsFrom(next + rest, |next|)
  {
    hide Find;
    FirstPair(before, first, [AMPERSAND] + rest);
    Assoc(first, [AMPERSAND], rest);
    assert before + first + [AMPERSAND] + rest == before + (first + ([AMPERSAND] + rest));
  }

  lemma {:induction false} PairsOfText(ps: seq<Pair>, before: seq<Byte>)
    requires ps != [] && PairsOk(ps)
    ensures PairsFrom(before + QueryText(ps), |before|) == PairTexts(ps)
    decreases |ps|
  {
    hide PairText, PairOk, PairsFrom;
    var first := PairText(ps[0]);
    PairParts(ps[0]);
    if |ps| == 1 {
      OnePair(before, first);
      assert PairTexts(ps[1..]) == [];
    } else {
      MorePairs(before, first, QueryText(ps[1..]));
      PairsOfText(ps[1..], before + first + [AMPERSAND]);
    }
  }

  lemma {:induction false} NamedTexts(ps: seq<Pair>, name: seq<Byte>)
    requires PairsOk(ps)
    ensures NamesDecode(PairTexts(ps))
    ensures |ValuesNamed(PairTexts(ps), name)| == |Named(ps, name)|
    ensures forall k | 0 <= k < |Named(ps, name)| ::
              ValuesNamed(PairTexts(ps), name)[k] == UnitsText(Named(ps, name)[k])
  {
    hide PairText, PairOk, Name, RawValue;
    if ps != [] {
      PairParts(ps[0]);
      NamedTexts(ps[1..], name);
      Cons(PairText(ps[0]), PairTexts(ps[1..]));
      NamesDecodeCons(PairTexts(ps));
    }
  }

  /** Looking a name up in an encoded query and decoding what is found gives back the value that was encoded. */
  lemma QueryRoundTrip(ps: seq<Pair>, name: seq<Byte>)
    requires PairsOk(ps)
    ensures var r := Answer(QueryText(ps), name);
            var vs := Named(ps, name);
            if |vs| == 0 then r == Value(None)
            else if |vs| > 1 then r == Duplicate
            else
              && r.Value? && r.value.Some?
              && r.value.value == UnitsText(vs[0])
              && Decode(r.value.value, true) == Some(UnitsValue(vs[0], true))
  {
    hide PairText, PairOk, Name, RawValue, Scan, Decode;
    var query := QueryText(ps);
    var vs := Named(ps, name);
    if ps != [] {
      EmptyLeft(query);
      PairsOfText(ps, []);
      PairParts(ps[0]);
    }
    assert Pairs(query) == PairTexts(ps);
    NamedTexts(ps, name);
    LookupSucceedsIff(query, name);
    if |vs| == 1 {
      assert vs[0] in vs;
      DecodeInvertsEncoding(vs[0], true);
    }
  }

  // --- Forms ------------------------------------------------------------------------------

  /** A pair is cut at its first equals sign; one without is a name with an empty value. */
  lemma PairIsCut(pair: seq<Byte>)
    ensures '=' as int !in RawName(pair)
    ensures if '=' as int in pair then pair == RawName(pair) + ['=' as int] + RawValue(pair)
            else RawName(pair) == pair && RawValue(pair) == []
  {
    var e := Find(pair, EQUALS, 0);
    assert pair[0..e] == pair[..e];
    if e < |pair| {
      assert pair == pair[..e] + [pair[e]] + pair[e + 1..];
    } else {
      assert pair[..e] == pair;
    }
  }

  /** The units of the percent-encoding of a byte string. */
  function UnitsOf(bytes: seq<Byte>, kept: set<Byte>, upper: bool): seq<Unit> {
    if bytes == [] then []
    else
      [if bytes[0] == ' ' as int then Plus
       else if bytes[0] in kept then Plain(bytes[0])
       else Escape(Digit(bytes[0] / 16, upper), Digit(bytes[0] % 16, upper))]
      + UnitsOf(bytes[1..], kept, upper)
  }

  /** Bytes that a form may leave as they are. */
  predicate Keeps(kept: set<Byte>) {
    '%' as int !in kept && '+' as int !in kept && '&' as int !in kept && '=' as int !in kept
  }

  lemma DigitIsPlain(v: nat, upper: bool)
    requires v < 16
    ensures HexValue(Digit(v, upper)) == v
    ensures Digit(v, upper) != '&' as int && Digit(v, upper) != '=' as int
  {
    DigitValues(Digit(v, upper), v);
  }

  lemma {:induction false} UnitsEncode(bytes: seq<Byte>, kept: set<Byte>, upper: bool)
    requires Keeps(kept)
    ensures var us := UnitsOf(bytes, kept, upper);
            && UnitsOk(us, true) && UnitsText(us) == Encode(bytes, kept, upper, true) && UnitsValue(us, true) == bytes
            && '&' as int !in UnitsText(us) && '=' as int !in UnitsText(us)
  {
    hide HexValue, Digit;
    if bytes != [] {
      UnitsEncode(bytes[1..], kept, upper);
      DigitIsPlain(bytes[0] / 16, upper);
      DigitIsPlain(bytes[0] % 16, upper);
      assert [bytes[0]] + bytes[1..] == bytes;
    }
  }

  /** The pairs of a form, written with equals signs and ampersands between them. */
  function FormText(form: seq<(seq<Byte>, seq<Byte>)>, kept: set<Byte>, upper: bool): seq<Byte> {
    if form == [] then []
    else
      var first := Encode(form[0].0, kept, upper, true) + ['=' as int] + Encode(form[0].1, kept, upper, true);
      if |form| == 1 then first else first + ['&' as int] + FormText(form[1..], kept, upper)
  }

  /** The values of the form under a name. */
  function FormValues(form: seq<(seq<Byte>, seq<Byte>)>, name: seq<Byte>): seq<seq<Byte>> {
    if form == [] then []
    else (if form[0].0 == name then [form[0].1] else []) + FormValues(form[1..], name)
  }

  function PairsOf(form: seq<(seq<Byte>, seq<Byte>)>, kept: set<Byte>, upper: bool): (ps: seq<Pair>)
    ensures |ps| == |form|
  {
    if form == [] then []
    else [Pair(UnitsOf(form[0].0, kept, upper), UnitsOf(form[0].1, kept, upper))] + PairsOf(form[1..], kept, upper)
  }

  lemma {:induction false} FormIsQuery(
    form: seq<(seq<Byte>, seq<Byte>)>, kept: set<Byte>, upper: bool, name: seq<Byte>)
    requires Keeps(kept)
    ensures var ps := PairsOf(form, kept, upper);
            && PairsOk(ps) && QueryText(ps) == FormText(form, kept, upper)
            && |Named(ps, name)| == |FormValues(form, name)|
            && forall k | 0 <= k < |Named(ps, name)| ::
                 Named(ps, name)[k] in Named(ps, name)
                 && UnitsValue(Named(ps, name)[k], true) == FormValues(form, name)[k]
  {
    hide UnitsOf, Encode, UnitsText, UnitsValue, UnitsOk;
    if form != [] {
      UnitsEncode(form[0].0, kept, upper);
      UnitsEncode(form[0].1, kept, upper);
      FormIsQuery(form[1..], kept, upper, name);
      Cons(Pair(UnitsOf(form[0].0, kept, upper), UnitsOf(form[0].1, kept, upper)), PairsOf(form[1..], kept, upper));
    }
  }

  /**
   For any form of names and values: a name that occurs once is found and its raw value decodes to its value, one that
   occurs more often is a duplicate, and any other is absent.
   */
  lemma FormRoundTrip(form: seq<(seq<Byte>, seq<Byte>)>, kept: set<Byte>, upper: bool, name: seq<Byte>)
    requires Keeps(kept)
    ensures var r := Answer(FormText(form, kept, upper), name);
            var vs := FormValues(form, name);
            if |vs| == 0 then r == Value(None)
            else if |vs| > 1 then r == Duplicate
            else r.Value? && r.value.Some? && Decode(r.value.value, true) == Some(vs[0])
  {
    hide Answer, FormText, FormValues, Decode, PairsOf, Named, PairsOk;
    FormIsQuery(form, kept, upper, name);
    QueryRoundTrip(PairsOf(form, kept, upper), name);
  }
}
