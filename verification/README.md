# Flash: a verified model

A Dafny model of the parts of Flash, a reflection-driven HTTP framework, whose pieces must agree with each other, and
proofs that they do.

* **JSON codec.** A text is given a concrete syntax tree of RFC 8259. The skipping scanner is proved to accept exactly the
  texts of such trees within the limits; the typed reader is proved to be that scanner followed by the meaning of the tree
  at the type; the writer is proved to print the text of a tree. Round trip, agreement of the two parsers, independence of
  member order, and the exact growth of a re-serialised text follow from these three facts. `JsonString`, `JsonNumber`,
  `JsonTree` and `JsonReader` hold the specification, `JsonCursor`, `JsonReadMethods` and `JsonWriteMethods` the cursor, the
  reader and the writer with their loops and updates in place. `JsonConstraints` says what constraints mean, `JsonErrors`,
  `JsonArrayErrors` and `JsonReasons` what errors mean, and `Vocabulary` compares byte tables with the texts that list them.
* **Routing.** `Route` and `RouteMatch` give the grammar of patterns, matching as the inverse of instantiation, shapes and
  the specificity order; `Matcher` resolves a request. Together they show that validated endpoints have one well-defined
  winner in whatever order they are declared, and that the Allow header is truthful. `RouteMethods` and `MatcherMethods`
  hold the loops, `Binding`, `Percent`, `Query` and `Scalars` carry captures and query text to the values of the parameters.
* **Shutdown.** `SessionProtocol` cuts a session where it suspends and where it looks at the stop flag; `ShutdownProtocol`
  is the transition system of the control strand with all sessions, timers and accepts; `RawServer` is the class whose
  methods take its steps. Timer expiries that are already queued when a timer is cancelled, stop requests between any two
  segments, and exceptions that leave a session are steps like any other.
* **Components and problem documents.** `Components` shows that the component list of an API document is the reachable set
  and when every reference resolves; `Problem` that every problem document is read back.

Types are data: a `Ty` stands for a C++ type, a `Schema` for the fields found by reflection. Strings are sequences of bytes.
Errors carry their code and offset. A numeric constraint compares the value converted to double with a double; conversion is
monotone, so for integers it is a comparison with an integer threshold (`Constraint`). `std::from_chars` and `std::to_chars`
are modelled for integers in base 10 in `Decimal`. The 16-bit method mask is a natural number with its bits tested and set
in `Bits`; it is proved to stay below the bits of the methods.

Findings that the model makes exact:

* What was written is read back as the same value exactly when no engaged optional wraps a value printed as null, no
  `string_view` holds a byte that is printed as an escape, every field obeys its own constraints, which a declared default
  need not, and the text is within the limits of the reader (`JsonRoundTrip.RoundTrip`,
  `JsonRoundTrip.NestedOptionalCollapses`, `JsonRoundTrip.EscapedViewIsRefused`).
* A parameter annotated with the inferred source under the name of a placeholder is given its value but not counted by the
  endpoint check (`Binding.PlaceholderHasOneReceiver`, `Binding.PlaceholderWithTwoReceivers`).
* A response wrapper inside an optional, a list, a body or a field is emitted as a reference that no component answers
  (`Components.AllRefsResolveIff`, `Components.DanglingReference`).
* A stop refuses a request whose body is being read, as if the body were malformed, if and only if the posted closure runs
  before the read completes (`SessionProtocol.BodyReadRefusedIff`, `SessionProtocol.BodyReadIsRefusedOrHandled`).
* A stop is heard if and only if the server has been started (`ShutdownProtocol.StopIsHeardIff`); one before the start is
  forgotten (`ShutdownProtocol.StopBeforeStartIsForgotten`), one after it ends the server
  (`ShutdownProtocol.StopEndsStartedServer`).
* What was read is written in no more bytes exactly when the fields that the text leaves out, optional or defaulted, and
  longer names of equal enumerators cost at most what the text has to spare in white space, unknown members and longer
  spellings (`JsonGrowth.NeverGrowsIff`, `JsonReserialize.ReserializesIff`, `JsonReserialize.AbsentFieldGrows`).

## Model

| member | source | states |
|---|---|---|
| `Utf8.ValidUtf8IffEncoding` | include/flash/json/read.hpp:369-450 | a byte string passes the UTF-8 check if and only if it is the concatenation of the encodings of some Unicode scalar values |
| `Utf8.DecodeInvertsEncode` | include/flash/json/read.hpp:369-450 | the scalars gathered from encoded scalars are those scalars, so the two bit layouts agree in both directions |
| `Utf8.EncodeThenScan` | include/flash/json/read.hpp:434-450 | the unit scanned at the front of an encoded scalar is exactly that scalar, whatever follows |
| `Utf8.ScanThenEncode` | include/flash/json/read.hpp:377-409 | encoding the scalar that was scanned gives back the bytes it was scanned from: no overlong form, surrogate or excess value is accepted |
| `Utf8.SplitAtBoundary` | include/flash/json/read.hpp:369-412 | a valid prefix can be cut off without changing whether the rest is valid |
| `Utf8.UnitIsUtf8Char` | include/flash/json/read.hpp:369-412 | the check finds a unit of a given length exactly where the syntax of RFC 3629, section 4, has a character of that length |
| `JsonString.ParseStringSound` | include/flash/json/read.hpp:106-220 | an accepted string token is a quoted run of raw bytes and escapes of the RFC 8259 grammar with paired surrogates, within the size limit and valid UTF-8 once decoded, and the scanner stops behind it |
| `JsonString.ParseStringComplete` | include/flash/json/read.hpp:106-220 | every such token is accepted with exactly its units, so the value decoded is the concatenation of what the units stand for |
| `JsonString.Utf8CheckOnDecodedIsEnough` | include/flash/json/read.hpp:137-141 | the decoded string is valid UTF-8 if and only if the raw bytes between the quotes are: no escape completes or splits a multi-byte sequence |
| `JsonString.PrintedUnits` | include/flash/json/write.hpp:26-50 | the escaped text of a byte string consists of accepted units that decode to that byte string |
| `JsonString.StringNeverGrows` | include/flash/json/write.hpp:26-50 | printing what a token decoded to never takes more bytes than the token |
| `JsonEscapes.ShortEscapes` | include/flash/json/read.hpp:159-173 | the letters of the two-character escapes stand for the bytes that RFC 8259, section 7, gives them, and no other letter stands for one |
| `JsonEscapes.EscapedScalarsDecode` | include/flash/json/read.hpp:174-203 | any scalars written as \u escapes, with surrogate pairs behind the first plane and digits of either case, are accepted and decode to their UTF-8 |
| `Hex.DigitValues` | include/flash/binding/scalar.hpp:33-44 | a hexadecimal digit of either case has the value at which it stands in its table, and no other byte has a value |
| `Hex.PrintedDigit` | include/flash/json/write.hpp:26-50 | the serializers print the lower-case digits |
| `Decimal.ToThenFromChars` | include/flash/json/write.hpp:92-98 | printing an integer and converting the text back gives the integer and uses the whole text, for every value of every integer range |
| `Decimal.ConvertFromChars` | include/flash/json/read.hpp:836-851 | the digit loop computes the specified conversion: status, bytes used and value, with the range of the type |
| `Decimal.ConvertToChars` | include/flash/json/write.hpp:92-98 | the digit loop prints the decimal text of the value |
| `Decimal.DecimalNeverGrows` | include/flash/json/write.hpp:92-98 | the digits printed for a value are at most as many as any digits that were read for it |
| `JsonNumber.ParseNumberSound` | include/flash/json/read.hpp:222-266 | an accepted number token is a number of the RFC 8259 grammar and the scanner stops behind it |
| `JsonNumber.ParseNumberComplete` | include/flash/json/read.hpp:222-266 | every number of the grammar that no number character follows is accepted with exactly its parts |
| `JsonNumber.FromCharsOfToken` | include/flash/json/read.hpp:829-853 | an integer is taken from a token exactly when the token has no fraction or exponent, carries a minus only for a signed type, and lies in range; the value is that of its digits |
| `JsonNumber.IntegerNeverGrows` | include/flash/json/write.hpp:92-98 | printing the integer read from a token never takes more bytes than the token |
| `Vocabulary.DigitBytes` | include/flash/json/read.hpp:222-266 | the value of a digit is its place in the list of digits |
| `Vocabulary.NumberBytes` | include/flash/json/read.hpp:222-266 | an exponent starts with e or E, and its sign is a plus or a minus |
| `Vocabulary.SignIsPrinted` | include/flash/json/write.hpp:92-98 | a negative integer is printed behind a minus, any other in its digits alone |
| `JsonTree.ParseTreeSound` | include/flash/json/read.hpp:268-364 | whatever the skipping scanner passes over is the text of a tree of the grammar that obeys the nesting, string, array and member limits |
| `JsonTree.ParseTreeComplete` | include/flash/json/read.hpp:268-364 | the text of every such tree is passed over exactly to its end |
| `JsonTree.SkipAcceptsIffJsonText` | include/flash/json/read.hpp:268-364 | skipping a value and the white space around it consumes a text if and only if the text is one JSON value within the limits |
| `JsonTree.TextIsUnambiguous` | include/flash/json/read.hpp:268-364 | a text has at most one tree, so the scanner has no choice to make |
| `Vocabulary.BlankBytes` | include/flash/json/read.hpp:67-76 | white space is exactly space, tabulator, carriage return and line feed |
| `JsonUtf8.SkipAcceptsIffUtf8Json` | include/flash/json/read.hpp:106-364 | the scanner accepts exactly the texts that are valid UTF-8 and one JSON value within the limits, with no condition on the bytes of the strings: checking decoded strings is checking the text |
| `JsonUtf8.AcceptedTextIsUtf8` | include/flash/json/read.hpp:106-364 | an accepted text is valid UTF-8 as a whole |
| `JsonCursor.Cursor.SkipWhitespace` | include/flash/json/read.hpp:67-76 | moves to the first offset without white space and stays within the input |
| `JsonCursor.Cursor.Consume` | include/flash/json/read.hpp:84-90 | moves over the byte when it is there and reports whether it was |
| `JsonCursor.Cursor.ConsumeLiteral` | include/flash/json/read.hpp:96-104 | moves over the literal, or reports an error and stays |
| `JsonCursor.Cursor.ParseHexQuad` | include/flash/json/read.hpp:414-432 | reads four hexadecimal digits of either case, with the offset of the first that is none |
| `JsonCursor.Cursor.Unescape` | include/flash/json/read.hpp:159-208 | decodes the escape behind a backslash to the bytes it stands for, or reports its error and offset |
| `JsonCursor.Cursor.UnescapeUnicode` | include/flash/json/read.hpp:174-203 | decodes a unicode escape and, behind a high surrogate, the low one it must be followed by |
| `JsonCursor.Cursor.ParseString` | include/flash/json/read.hpp:106-220 | finds the outcome, error offset and position of the string token, its decoded value, whether a backslash forced an owned copy, and the borrowed slice when none did |
| `JsonCursor.Cursor.ParseNumber` | include/flash/json/read.hpp:222-266 | finds the outcome, error offset and slice of the number token |
| `JsonCursor.Cursor.SkipValue` | include/flash/json/read.hpp:268-364 | moves over a value of any type like the grammar, terminates on every input, and keeps the position within the input even on errors |
| `JsonCursor.Cursor.SkipObject` | include/flash/json/read.hpp:278-321 | moves over an object or reports the first error with its offset |
| `JsonCursor.Cursor.SkipArray` | include/flash/json/read.hpp:322-355 | moves over an array or reports the first error with its offset |
| `JsonCursor.CheckUtf8` | include/flash/json/read.hpp:369-412 | decides the UTF-8 predicate |
| `JsonCursor.AppendUtf8` | include/flash/json/read.hpp:434-450 | appends the encoding of a scalar |
| `JsonReadMethods.ReadValue` | include/flash/json/read.hpp:776-877 | computes the outcome that the specification gives for the type at this offset, and leaves the cursor behind an accepted value |
| `JsonReadMethods.ReadView` | include/flash/json/read.hpp:799-813 | reads a string to be borrowed: the value is the piece of the input between the quotes, and a string with an escape is refused behind it |
| `JsonReadMethods.ReadInteger` | include/flash/json/read.hpp:829-853 | reads an integer, telling a value out of range from a token that is no integer |
| `JsonReadMethods.ReadEnum` | include/flash/json/read.hpp:854-865 | reads an enumerator by name |
| `JsonReadMethods.ReadVector` | include/flash/json/read.hpp:683-721 | reads a vector, checking the element limit before each element |
| `JsonReadMethods.ReadArray` | include/flash/json/read.hpp:723-774 | reads exactly the elements of a fixed array into it |
| `JsonReadMethods.ReadObject` | include/flash/json/read.hpp:615-681 | fills an object whose fields start with arbitrary values; the result is the specified one, so none of them survives |
| `JsonReadMethods.ReadNamedField` | include/flash/json/read.hpp:553-587 | reads the field with the name into its slot, rejects a second occurrence, and reports a failed constraint at the offset of the value |
| `JsonReadMethods.FinishMissing` | include/flash/json/read.hpp:589-613 | gives every unseen field its stand-in and reports a missing one exactly when some unseen field has none |
| `JsonReadMethods.Read` | include/flash/json/read.hpp:881-899 | reads a whole text, checking the input limit first and trailing characters last |
| `JsonAgreement.ReadValueMeaning` | include/flash/json/read.hpp:776-877 | reading at a type succeeds exactly when the untyped scanner accepts the value and its tree has a meaning at the type, and yields that meaning |
| `JsonAgreement.TwoParsersAgree` | include/flash/json/read.hpp:268-364 | whenever the typed reader succeeds from an offset at a depth, the skipping scanner succeeds from there under the same limits and stops at the same offset, for every type |
| `JsonAgreement.ReadIffMeaning` | include/flash/json/read.hpp:881-899 | a text is read as a value if and only if it is within the input limit and is the text of a tree that means that value |
| `JsonTypes.FinishedFields` | include/flash/json/read.hpp:589-613 | an object is finished exactly when every field has a slot or a stand-in, and each field then holds its own |
| `JsonObjects.MembersInAnyOrder` | include/flash/json/read.hpp:615-681 | permuting members changes neither whether they have a meaning nor what they fill; which error is reported first may change |
| `JsonObjects.ReadInAnyOrder` | include/flash/json/read.hpp:615-681 | permuting the members of the outermost object of an accepted text keeps it accepted with the same value |
| `JsonShuffle.ReadInAnyOrderAtAnyDepth` | include/flash/json/read.hpp:615-681 | permuting the members of any objects of an accepted text, at any depth and at any type, keeps it accepted with the same value |
| `JsonShuffle.ShuffledMeaning` | include/flash/json/read.hpp:776-877 | a tree and any reordering of the members of its objects have the same meaning, or both have none |
| `JsonObjects.FieldOrigin` | include/flash/json/read.hpp:553-613 | every field of an accepted object comes from its only member or, when it has none, is disengaged or its declared default |
| `Vocabulary.WordsAreRead` | include/flash/json/read.hpp:776-828 | true, false and null are read as the values they name |
| `JsonConstraints.SatisfiesAllIff` | include/flash/json/read.hpp:482-545 | the check of the constraints of a field holds exactly when each declared bound holds of the number, the byte length or the element count inside the engaged optionals |
| `JsonConstraints.ConstraintsFilter` | include/flash/json/read.hpp:553-587 | constraints filter and do nothing else: a tree means what it means without them if every member at every depth obeys its own, and nothing otherwise |
| `JsonConstraints.ReadIffConstrained` | include/flash/json/read.hpp:881-899 | a text is read as a value under constraints if and only if it is read as that value without them and every member obeys its own |
| `JsonConstraints.AcceptedMemberObeys` | include/flash/json/read.hpp:553-587 | every member of an accepted object has a value for which each declared bound of its field holds |
| `JsonErrors.MemberRefusedIff` | include/flash/json/read.hpp:553-587 | a member is refused exactly because its name is unknown or was there before, because its value has no meaning at the type of its field, or because its value violates a bound, each with its code at the offset of the value; otherwise it fills its slot |
| `JsonErrors.FirstRefusedMember` | include/flash/json/read.hpp:615-681 | the first refused member decides the error of an object, at any depth and whatever stands behind it |
| `JsonErrors.RefusedMember` | include/flash/json/read.hpp:615-681 | so it decides the error of a whole text |
| `JsonErrors.MissingFieldIff` | include/flash/json/read.hpp:589-613 | an object whose members are all accepted is refused, behind its brace, exactly when some field has no member and nothing stands in for it |
| `JsonErrors.TooManyMembers` | include/flash/json/read.hpp:633-636 | a member too many is refused at its key, whatever it is |
| `JsonArrayErrors.DecidingElement` | include/flash/json/read.hpp:723-774 | in a fixed array the first element without a meaning gives its own error, and another size than declared is refused at the bracket that comes too early or the comma that comes too late |
| `JsonArrayErrors.DecidingItem` | include/flash/json/read.hpp:683-721 | in a vector the first element without a meaning gives its own error, and one element too many is refused where it starts |
| `JsonArrayErrors.EmptyArray` | include/flash/json/read.hpp:723-774 | an empty array is accepted for size zero and for vectors, and refused for any other size |
| `JsonArrayErrors.SkippedTooLarge` | include/flash/json/read.hpp:322-355 | a skipped array with one element too many is refused where that element starts |
| `JsonErrors.SkippedTooLarge` | include/flash/json/read.hpp:278-321 | a skipped object with one member too many is refused where that member starts |
| `JsonReasons.ErrorsAreJustified` | include/flash/json/read.hpp:106-899 | whatever the text, the type and the limits, the code of an error says something true of the text at its offset |
| `JsonReasons.IntegerErrorIs` | include/flash/json/read.hpp:829-853 | a number token that is no integer of the type is refused for its sign, then for its range, then for its fraction or exponent |
| `JsonWriteMethods.Output.AppendEscapedString` | include/flash/json/write.hpp:26-50 | appends the quoted, escaped text of a byte string and nothing else |
| `JsonWriteMethods.AppendValue` | include/flash/json/write.hpp:82-141 | appends the text of a value, failing exactly when some enum value inside has no enumerator |
| `JsonWriteMethods.AppendList` | include/flash/json/write.hpp:120-131 | appends the elements of a vector or array between brackets with commas |
| `JsonWriteMethods.AppendObjectFields` | include/flash/json/write.hpp:67-78 | appends the fields from an index on with their names and commas |
| `JsonWriteMethods.Write` | include/flash/json/write.hpp:143-149 | serializes into a fresh string, failing only where the source throws |
| `JsonText.PrintedText` | include/flash/json/write.hpp:82-141 | what is printed for a value is the text of a tree of the grammar |
| `JsonText.FittingTree` | include/flash/json/read.hpp:106-364 | that tree obeys the reader limits exactly when the strings are UTF-8 and within size and the lists, members and nesting are within the limits |
| `Vocabulary.WordsArePrinted` | include/flash/json/write.hpp:82-141 | true, false and null are printed for the values they name |
| `JsonRoundTrip.MeaningOfPrinted` | include/flash/json/write.hpp:82-141 | the printed tree means the value at its type exactly when no engaged optional wraps a null, no borrowed string needs an escape, and every field obeys its constraints |
| `JsonLimits.AcceptedAsPrinted` | include/flash/json/read.hpp:106-364 | if the text of a value is accepted under any limits, the scanner walks over exactly the tree of the value, which therefore obeys them |
| `JsonRoundTrip.RoundTrip` | include/flash/json/read.hpp:776-899 | for every schema, limits, type and value that can be written: reading what was written gives the value back if and only if the value is stable, fits the limits, and its text is within the input limit |
| `JsonRoundTrip.EscapedViewIsRefused` | include/flash/json/read.hpp:805-811 | a concrete value that is written and refused: a borrowed string printed with an escape |
| `JsonRoundTrip.NestedOptionalCollapses` | include/flash/json/read.hpp:780-796 | a concrete value that does not come back: an engaged optional around a disengaged one is read as disengaged |
| `JsonGrowth.WrittenLength` | include/flash/json/write.hpp:67-141 | for every accepted text: what is written for the value read is longer than the text by exactly what the text owes (every field no member names, and longer names of equal enumerators) less what it has to spare (white space, unknown members, longer spellings), at all depths |
| `JsonGrowth.NeverGrowsIff` | include/flash/json/write.hpp:67-141 | what was read is written in no more bytes if and only if the text owes at most what it has to spare, for every accepted text, every type and every schema whose defaults have the types of their fields |
| `JsonGrowth.CompleteOwesNothing` | include/flash/json/read.hpp:589-613 | a text that leaves out no field owes nothing when enum values are distinct |
| `JsonReserialize.ReadsBackIff` | tests/unit/adversarial_input_test.cpp:85-92 | with defaults that obey their own constraints, the value of any accepted text reads back if and only if it fits the limits and its text is within the input limit |
| `JsonReserialize.ReserializesIff` | tests/unit/adversarial_input_test.cpp:85-92 | with such defaults, an accepted text is written back in no more bytes and reads back as the same value if and only if it owes at most what it has to spare and its value fits the limits |
| `JsonReserialize.ReserializeNeverGrowsOrFails` | tests/unit/adversarial_input_test.cpp:85-92 | for types without optional or defaulted fields, whatever text was accepted, the value read can be written in at most as many bytes and is read back under the same limits as the same value |
| `JsonReserialize.CompleteTextNeverGrows` | tests/unit/adversarial_input_test.cpp:85-92 | with any optional and defaulted fields: whatever accepted text leaves out no field, the value read can be written in at most as many bytes and is read back as the same value |
| `JsonReserialize.AbsentFieldGrows` | include/flash/json/read.hpp:589-613 | two concrete texts that grow, one because it leaves out an optional field, one because it leaves out a field with a default |
| `Route.ParseIff` | include/flash/routing/route.hpp:80-164 | a source is accepted if and only if it is the text of a segment list of the route grammar, and then the parsed segments print back to it and the parameters are counted |
| `Route.ParseInvertsPrint` | include/flash/routing/route.hpp:80-164 | parsing the text of a segment list gives back that list |
| `Route.ScanInverts` | include/flash/routing/route.hpp:107-155 | one segment is scanned as a given literal, parameter or catch-all exactly when the text is that of the segment and the segment may stand there |
| `Vocabulary.NameBytes` | include/flash/routing/route.hpp:62-78 | placeholder names consist of letters, digits, underscores and hyphens |
| `RouteMethods.ParseRoute` | include/flash/routing/route.hpp:80-164 | the loop computes the specified pattern or the first error with the segments before it |
| `RouteMethods.ParseSegment` | include/flash/routing/route.hpp:112-155 | one segment with its errors in the order of the source |
| `RouteMethods.MatchRoute` | include/flash/routing/route.hpp:223-278 | the loop computes the specified captures; the capture array is never written out of bounds |
| `RouteMethods.SameRouteShape` | include/flash/routing/route.hpp:171-188 | the loop decides equality of shapes |
| `RouteMethods.RouteShapeHash` | include/flash/routing/route.hpp:190-209 | the loop computes the 64-bit hash, with wrap-around, of the bytes of the shape |
| `RouteMethods.IsMoreSpecific` | include/flash/routing/route.hpp:289-302 | the loop decides the specificity order |
| `RouteMatch.MatchesIff` | include/flash/routing/route.hpp:223-278 | a route matches a path if and only if the path is the route with parameters replaced by non-empty values without a slash and a catch-all by a non-empty value that does not end in one |
| `RouteMatch.MatchedIsInstance` | include/flash/routing/route.hpp:223-278 | a matched path is the route filled with exactly the captured values, which are at most 16 |
| `RouteMatch.InstanceMatches` | include/flash/routing/route.hpp:223-278 | a filled route is matched and captures exactly the values it was filled with |
| `RouteMatch.PlaceholdersDistinct` | include/flash/routing/route.hpp:138-144 | no name is captured twice |
| `RouteMatch.SameShapeIff` | include/flash/routing/route.hpp:171-188 | two routes have the same shape if and only if they match exactly the same paths |
| `RouteMatch.Separate` | include/flash/routing/route.hpp:171-188 | for two routes of different shape, a path that exactly one of them matches |
| `RouteMatch.TiedMatchesHaveOneShape` | include/flash/routing/route.hpp:289-302 | two routes that match a common path and of which neither is more specific have the same shape |
| `RouteMatch.MoreSpecificIsStrict` | include/flash/routing/route.hpp:289-302 | the order is asymmetric |
| `RouteMatch.MoreSpecificIsTransitive` | include/flash/routing/route.hpp:289-302 | being more specific carries over routes that are not more specific than the one in between, so scanning with a running best is right |
| `RouteMatch.IncludedIsMoreSpecific` | include/flash/routing/route.hpp:280-302 | a route whose paths are properly included in those of another is the more specific of the two: literals rank above parameters and parameters above catch-alls |
| `RouteErrors.ErrorNamesFirstBadSegment` | include/flash/routing/route.hpp:80-164 | the error of a refused source names what is wrong with the first segment that fails, behind the segments that were accepted, in the order of the checks |
| `Matcher.SameShapeSameHash` | include/flash/routing/matcher.hpp:61-75 | routes of the same shape have the same hash, so the prefilter hides no ambiguity |
| `MatcherMethods.ValidateRoutePairs` | include/flash/routing/matcher.hpp:61-75 | the hash-prefiltered check accepts exactly when no two endpoints have the same method and shape |
| `MatcherMethods.ApiMatchState.ConsiderRoutes` | include/flash/routing/matcher.hpp:113-153 | the scan ends in the state described by all endpoints: flags, mask and the best endpoint with its captures |
| `MatcherMethods.ApiMatchState.ConsiderRoute` | include/flash/routing/matcher.hpp:118-150 | one endpoint moves the state from that of the endpoints before it to that including it |
| `MatcherMethods.ResolveApi` | include/flash/routing/matcher.hpp:157-173 | the resolution of a request is the specified one |
| `Matcher.BestIsUnbeaten` | include/flash/routing/matcher.hpp:130-149 | no candidate beats the one chosen, and it beats every candidate declared before it |
| `Matcher.BestBeatsAll` | include/flash/routing/matcher.hpp:130-149 | among validated endpoints the one chosen beats every other candidate |
| `Matcher.RouteChoiceInAnyOrder` | include/flash/routing/matcher.hpp:113-173 | if the endpoints are validated, every reordering of them gives the same outcome, chosen endpoint, captures, mask and HEAD fallback for every method and path |
| `Matcher.AmbiguousIff` | include/flash/routing/matcher.hpp:61-75 | two endpoints are ambiguous exactly when some request has both as candidates and prefers neither |
| `Matcher.OutcomeMeaning` | include/flash/routing/matcher.hpp:157-173 | not found means that no route matches the path, method not allowed that one does but none serves the method, automatic options that none declares OPTIONS; otherwise an endpoint that serves the method is found |
| `Matcher.FoundServes` | include/flash/routing/matcher.hpp:118-150 | the endpoint found matches the path, has its captures, and serves the method: its own one if any is declared, and otherwise HEAD by GET |
| `Matcher.NarrowestIsChosen` | include/flash/routing/matcher.hpp:130-149 | no endpoint of the same method whose paths are properly included in those of the chosen one matches the path |
| `Matcher.MaskMeaning` | include/flash/routing/matcher.hpp:122-128 | the mask allows a method exactly when some matching endpoint contributes it, and fits the bits of the methods |
| `Matcher.MaskIsItsMethods` | include/flash/routing/matcher.hpp:90-92 | a mask is determined by the methods it allows: the bits of different methods differ |
| `Matcher.AllowIsTruthful` | include/flash/routing/matcher.hpp:113-173 | on a path that some route matches, the mask allows a method exactly when a request with that method would be found or answered automatically |
| `MatcherMethods.AllowHeader` | include/flash/routing/matcher.hpp:175-194 | prints the names of the allowed methods in order with separators |
| `MatcherMethods.PrintedAllowIsTruthful` | include/flash/routing/matcher.hpp:175-194 | the elements of the printed header are exactly the methods that would be found or answered automatically |
| `Vocabulary.MethodNames` | include/flash/routing/matcher.hpp:175-194 | each method is printed under its own name |
| `Vocabulary.MethodsInOrder` | include/flash/routing/matcher.hpp:175-194 | the methods are listed in the order GET, HEAD, POST, PUT, PATCH, DELETE, OPTIONS |
| `Matcher.MaskIgnoresMethod` | include/flash/routing/matcher.hpp:113-153 | the mask does not depend on the requested method |
| `Binding.CheckPlaceholders` | include/flash/binding/meta.hpp:138-169 | the nested loops decide whether every placeholder is bound exactly once and no parameter is annotated twice |
| `Binding.FindPathValue` | include/flash/binding/bind.hpp:62-70 | finds the value of the first capture with the name |
| `Binding.PathParameterFindsItsValue` | include/flash/binding/meta.hpp:70-96 | on every path its route matches, a path parameter of a checked endpoint is given the value at its own placeholder, which is the only one with its name |
| `Binding.SourceMeaning` | include/flash/binding/meta.hpp:76-103 | a parameter comes from where it says; else from the path exactly when its name is a placeholder; else from the body exactly when it is an aggregate and the method is POST, PUT or PATCH; and from context, state or the query otherwise |
| `Binding.WireNameMeaning` | include/flash/binding/meta.hpp:52-59 | a parameter goes by the name in its annotation, or by its identifier when there is none |
| `Binding.OneBodyAtMost` | include/flash/binding/meta.hpp:196-216 | an endpoint that passes the checks reads its body into one parameter at most |
| `Binding.PathParameterRoundTrip` | include/flash/binding/bind.hpp:62-78 | what a client percent-encodes into a placeholder is what the parameter decodes to |
| `Binding.PlaceholderHasOneReceiver` | include/flash/binding/meta.hpp:138-182 | each placeholder of a checked endpoint is given to exactly one parameter if and only if none carries an annotation with the inferred source under its name, which the check does not count |
| `Binding.PlaceholderWithTwoReceivers` | include/flash/binding/meta.hpp:138-182 | a concrete endpoint that passes every check although two parameters are given the value of its one placeholder |
| `Percent.PercentDecode` | include/flash/binding/scalar.hpp:46-81 | the shortcut and the loop compute the same decoding; the input is lent exactly when nothing had to be decoded |
| `Percent.BorrowedIsDecoded` | include/flash/binding/scalar.hpp:48-52 | text without escapes decodes to itself |
| `Percent.DecodeInvertsEncoding` | include/flash/binding/scalar.hpp:46-81 | every percent-encoding of a byte string, with digits of either case and plus for a space where allowed, decodes to it |
| `Percent.DecodedIsEncoded` | include/flash/binding/scalar.hpp:46-81 | whatever decodes is a percent-encoding of the result |
| `Percent.EncodedDecodes` | include/flash/binding/scalar.hpp:46-88 | whatever bytes an encoder keeps, with digits of either case, and with a plus for a space in forms, the percent-encoding of any byte string decodes to it |
| `Query.FindQueryValue` | include/flash/binding/request.hpp:13-44 | the loop computes the specified answer with its errors in order |
| `Query.LookupSucceedsIff` | include/flash/binding/request.hpp:13-44 | a lookup succeeds if and only if every name in the query decodes and at most one decodes to the wanted name, and returns the raw value of that one |
| `Query.QueryRoundTrip` | include/flash/binding/request.hpp:13-44 | in a query written from encoded pairs, a name that occurs once is found and decodes to its value, one that occurs more often is a duplicate, and any other is absent |
| `Query.FormRoundTrip` | include/flash/binding/request.hpp:14-43 | for any form of names and values, percent-encoded with equals signs and ampersands between them: a name that occurs once is found and decodes to its value, one that occurs more often is a duplicate, and any other is absent |
| `Query.PairIsCut` | include/flash/binding/request.hpp:20-26 | a pair is cut at its first equals sign; one without is a name with an empty value |
| `Scalars.ParseScalarIff` | include/flash/binding/scalar.hpp:127-184 | a string, borrowed string, bool, integer or enum is parsed from a text if and only if the text denotes it: itself, a truth word or digit, decimal digits in range with a minus only for a signed type, or the name of an enumerator |
| `Scalars.ParseScalarRefused` | include/flash/binding/scalar.hpp:127-184 | a text that denotes no value of the type is refused with the failure of the type; for integers it is the range exactly when the text starts with a decimal text of a value outside it, whatever follows |
| `Scalars.BindPathParameter` | include/flash/binding/bind.hpp:72-189 | binds a path parameter from its capture: absence, decoding, borrowing, parsing and constraints in the order of the source |
| `Scalars.BindQueryParameter` | include/flash/binding/bind.hpp:72-189 | binds a query parameter likewise, with plus for a space and a repeated name refused |
| `Scalars.PathParameterIsBound` | include/flash/binding/bind.hpp:72-189 | a path parameter of a checked endpoint is never missing; it is given the value denoted by what the client encoded into its placeholder exactly when the value obeys the constraints, is refused with the failure of its type when the text denotes none, and takes a borrowed string only unencoded |
| `Scalars.QueryParameterIsBound` | include/flash/binding/bind.hpp:72-189 | a query parameter is given the value denoted by what the client encoded under its name, or refused with the failure of its type when that denotes none; a repeated name is refused, an absent one is empty, defaulted or missing |
| `Scalars.GivenFromQuery` | include/flash/binding/bind.hpp:133-189 | for every query: a parameter is given a value only if every name decodes, at most one is the wanted one, and its raw value decodes to a text that denotes the value, which obeys its bounds; without one only the disengaged optional or the default is given |
| `Scalars.MalformedNameIsRefused` | include/flash/binding/request.hpp:14-43 | a name that does not decode is refused as badly encoded, unless the wanted name was repeated before it |
| `Scalars.RepeatedNameIsRefused` | include/flash/binding/request.hpp:14-43 | a repeated name is refused as such, unless a name before it does not decode |
| `Scalars.MalformedValueIsRefused` | include/flash/binding/bind.hpp:72-87 | a wanted value that does not decode is refused as badly encoded |
| `Scalars.MalformedIsRefused` | include/flash/binding/bind.hpp:72-87 | so is a capture or any other raw text that does not decode, whatever the type, the default and the constraints |
| `Scalars.GivenIsDenoted` | include/flash/binding/bind.hpp:72-189 | a raw text gives a value only if it decodes to a text that denotes the value, which obeys its bounds |
| `ProblemMethods.SerializeProblem` | src/runtime/errors.cpp:51-101 | the appended text is the specified document, for any number of errors and locations |
| `ProblemMethods.AppendMember` | src/runtime/errors.cpp:36-47 | appends one text member behind a comma unless it is the first |
| `ProblemMethods.AppendErrors` | src/runtime/errors.cpp:71-95 | appends the error list with its nested loops, or nothing when there are none |
| `JsonOmit.KeptObjectText` | src/runtime/errors.cpp:51-101 | an object printed without its disengaged fields is the text of the tree of the members kept |
| `JsonOmit.KeptObjectMeaning` | include/flash/json/read.hpp:589-613 | reading such an object gives back all fields, the absent ones disengaged |
| `Problem.ProblemIsJson` | src/runtime/errors.cpp:51-101 | for UTF-8 texts and sizes within the limits the document is one JSON text that the skipping scanner consumes to the end |
| `Problem.ProblemReadsBack` | src/runtime/errors.cpp:51-101 | reading the document with the typed reader gives back every text, the status and the errors with their locations |
| `ProblemWords.DocumentIs` | src/runtime/errors.cpp:51-101 | the document is, byte by byte, the object with type, title and status and, as far as they are not empty, detail, instance, errors and request_id, each error with location, code and message |
| `Components.ComponentsAreTheReachable` | include/flash/openapi/schema.hpp:57-157 | collection, which terminates on recursive types, lists exactly the object types reachable from a body or result, each once |
| `Components.CollectAllServes` | include/flash/openapi/schema.hpp:60-81 | collecting a list of types adds every object type in it, and everything added has all it refers to in the list |
| `Components.RefResolvesIff` | include/flash/openapi/schema.hpp:397-400 | a reference in the document resolves to a component if and only if it is not to a response wrapper |
| `Components.AllRefsResolveIff` | include/flash/openapi/schema.hpp:358-405 | all references resolve if and only if response wrappers stand only outermost in results, inside tasks and expected values |
| `Components.DanglingReference` | include/flash/openapi/schema.hpp:397-400 | a concrete document with a reference that nothing answers: an endpoint that returns an optional wrapper |
| `Components.OutermostRefs` | include/flash/openapi/document.hpp:277-308 | the references of a success response are all to object types exactly when its wrapper, if any, is outermost |
| `Components.NamesUniqueFromIff` | include/flash/openapi/schema.hpp:197-220 | the pairwise recursion accepts exactly the lists of distinct names |
| `Components.RefNamesOneComponent` | include/flash/openapi/schema.hpp:222-226 | with distinct names every reference names exactly one component |
| `Components.EveryComponentIsReferred` | include/flash/openapi/schema.hpp:358-405 | the document refers to every component it lists, except to those of results that are printed without a schema |
| `Components.DataRefs` | include/flash/openapi/schema.hpp:358-405 | the schema of a data type refers to the object type inside, once, and to nothing else |
| `Components.ResultDataRefs` | include/flash/openapi/document.hpp:277-308 | so does a success response, unless its type, without tasks and expected values, is printed without a schema |
| `SessionProtocol.StepInv` | include/flash/server.hpp:160-305 | every segment of the session coroutine, every completion of its socket operation and every stop closure keeps the promises of a stopped session |
| `SessionProtocol.RequestStopInv` | include/flash/server.hpp:68-84 | a stop request keeps them too, at whatever point it comes |
| `SessionProtocol.StoppedSessionAdvances` | include/flash/server.hpp:160-305 | after a stop request every segment brings the session nearer its end and nothing takes it back |
| `SessionProtocol.StoppedSessionWaits` | include/flash/server.hpp:71-83 | once its closures have run a stopped session is not blocked in a header read, and once its socket is closed it waits for nothing but its handler |
| `SessionProtocol.BodyReadRefusedIff` | include/flash/server.hpp:71-83 | a pending body read that would have succeeded is refused if and only if a stop closure runs before it completes, whatever closures are posted and whenever further stops are requested; otherwise its request reaches the handler |
| `SessionProtocol.BodyReadIsRefusedOrHandled` | include/flash/server.hpp:223-245 | from a new session a run reaches a pending body read, and from there one run of a stop refuses the request and another lets it reach the handler |
| `SessionProtocol.RunKeepsInv` | include/flash/server.hpp:160-305 | every run of a session with any stop requests keeps the promises |
| `SessionProtocol.EveryRequestIsAnsweredOnce` | include/flash/server.hpp:160-305 | in every run the requests are as many as the responses, those still being dealt with, and those given up because the body was too late or an exception left the coroutine |
| `SessionProtocol.HandlerIsCalledIff` | include/flash/server.hpp:223-290 | the body is read exactly when a header within the limit has been read, and the handler is called exactly when a whole request with a known method has been read |
| `SessionProtocol.ConnectionIsKeptIff` | include/flash/server.hpp:287-299 | an undisturbed exchange is answered once, and the connection is kept exactly when request and response ask for it and the write succeeded |
| `SessionProtocol.ConnectionServes` | include/flash/server.hpp:160-305 | one connection serves any number of requests |
| `SessionProtocol.SoftStopSparesReply` | include/flash/server.hpp:68-84 | a soft stop leaves the handler and a response that is being written alone |
| `SessionProtocol.IdleStopIsSilent` | include/flash/server.hpp:68-84 | a stop closes a connection that waits for a request, without a response |
| `SessionProtocol.CutOffRunsOut` | include/flash/server.hpp:68-84 | a forced session whose closures have run ends after a bounded number of its own segments |
| `ShutdownProtocol.ReachableOk` | include/flash/server.hpp:336-470 | every reachable state is consistent |
| `ShutdownProtocol.CountsAgree` | include/flash/server.hpp:378-470 | in every reachable state the counter, the session list and the sessions whose completion has not run agree, and no stored pointer has expired |
| `ShutdownProtocol.SessionIsAddedIff` | include/flash/server.hpp:442-470 | a session is added, listed and counted exactly when the accept loop resumes with a connection while the acceptor is open |
| `ShutdownProtocol.ServerAccepts` | include/flash/server.hpp:442-456 | until begin_stop runs a started server goes on accepting in every run, through any failures, unless an accept is aborted |
| `ShutdownProtocol.ShutdownInTime` | include/flash/server.hpp:403-440 | without an expiry of the graceful wait nobody is forced, and without one of the force wait the context is not stopped |
| `ShutdownProtocol.QueuedExpiryIsKept` | include/flash/server.hpp:403-440 | an expiry that is queued is not taken back by a cancellation: its handler runs |
| `ShutdownProtocol.StopReachesAll` | include/flash/server.hpp:390-409 | once begin_stop has run no session is added in any continuation, and every incomplete one has been asked to stop |
| `ShutdownProtocol.ShutdownIsDriven` | include/flash/server.hpp:390-440 | in every reachable state after begin_stop with an incomplete session, the graceful or the force timer is outstanding or the context has been stopped, under all races of expiry and completion |
| `ShutdownProtocol.ShutdownSettles` | include/flash/server.hpp:428-440 | when all sessions are complete no timer is left waiting |
| `ShutdownProtocol.StageAdvances` | include/flash/server.hpp:403-426 | no step takes shutdown back and every timer step brings it forward |
| `ShutdownProtocol.StageHasStep` | include/flash/server.hpp:403-426 | while a session is incomplete and the context runs, the timer that drives shutdown can take its step |
| `ShutdownProtocol.ShutdownEnds` | include/flash/server.hpp:390-440 | in any run after begin_stop, four timer steps suffice: then every session is complete or the context is stopped |
| `ShutdownProtocol.GracefulWaitIsGentle` | include/flash/server.hpp:390-409 | in every reachable state before the force stop no session has lost its socket to the server and every posted stop is a soft one |
| `ShutdownProtocol.ForceStopReachesAll` | include/flash/server.hpp:411-426 | in every reachable state once the force wait was started, each incomplete session has its socket closed or the closure posted that closes it; with its closures run it waits for no socket operation and ends after a bounded number of its own segments |
| `ShutdownProtocol.SessionsKeepTheirPromises` | include/flash/server.hpp:168-299 | in every reachable state: a header read started after the stop request belongs to an iteration that had already looked at the flag, at most one handler call started after it, no later decision kept the connection, and a pending header read still has its closure posted |
| `ShutdownProtocol.StoppedSessionEnds` | include/flash/server.hpp:160-305 | in any run a stopped session takes at most as many further segments as its place in the loop allows |
| `ShutdownProtocol.StopBeforeStartIsForgotten` | include/flash/server.hpp:349-354 | a stop before the start changes no later run |
| `ShutdownProtocol.StopIsHeardIff` | include/flash/server.hpp:349-354 | in every reachable state a stop is heard, that is begin_stop is posted or has run, if and only if the server has been started |
| `ShutdownProtocol.StopIsKept` | include/flash/server.hpp:349-354 | a stop that was heard is lost in no run: begin_stop has run or can run |
| `ShutdownProtocol.HeardStopEnds` | include/flash/server.hpp:349-440 | in any run after a stop was heard, four timer steps suffice: then begin_stop has run and every session is complete or the context is stopped |
| `ShutdownProtocol.StopEndsStartedServer` | include/flash/server.hpp:349-440 | the same from a call of stop in any reachable state of a started server |
| `RawServer.Server.Start` | include/flash/server.hpp:336-347 | a second start is refused |
| `RawServer.Server.Stop` | include/flash/server.hpp:349-354 | posts begin_stop once, and only when started |
| `RawServer.Server.SessionSnapshot` | include/flash/server.hpp:378-388 | the loop over the weak pointers finds every listed session |
| `RawServer.Server.RunBeginStop` | include/flash/server.hpp:390-409 | closes the acceptor, asks every session to stop and starts the graceful wait unless there is none, keeping the invariant |
| `RawServer.Server.ForceStop` | include/flash/server.hpp:411-426 | forces every remaining session and starts the force wait unless there is none |
| `RawServer.Server.RunGraceful` | include/flash/server.hpp:403-408 | an expired graceful wait forces the stop, an aborted one does nothing |
| `RawServer.Server.RunForce` | include/flash/server.hpp:420-425 | an expired force wait stops the context |
| `RawServer.Server.RunSessionComplete` | include/flash/server.hpp:428-440 | erases exactly the completed session, counts down without wrap-around, and cancels the timer when it was the last |
| `RawServer.Server.ResumeAccept` | include/flash/server.hpp:442-470 | one round of the accept loop: leave, retry, or list and count a new session |

## Left out

- Error messages and the path strings of errors: they do not influence any outcome.
- JsonReadMethods.ReadValue: floating-point targets are not among the types.
- JsonWriteMethods.AppendValue: the floating-point branch, like every reading and writing of floating point, rests on conversions not shown in the source.
- JsonObjects.MembersInAnyOrder: the code and offset of the error are not compared, because another order may meet another error first.
- JsonTypes.Constraint: exclusive bounds and double bounds appear as the integer thresholds they amount to.
- JsonObjects.ReadInAnyOrder: the outermost object only; JsonShuffle.ReadInAnyOrderAtAnyDepth covers the objects at every depth.
- JsonGrowth.NeverGrowsIff: the lengths are those of texts; whether the serializer throws, which it can only on a declared default that is an enum value without an enumerator, is stated by JsonReserialize.ReadsBackIff.
- Scalars.ParseScalarIff: floating-point parameters.
- Scalars.BindPathParameter: floating-point parameters.
- Scalars.BindQueryParameter: floating-point parameters.
- Scalars.PathParameterIsBound: floating-point parameters.
- Scalars.QueryParameterIsBound: floating-point parameters.
- The limit of 255 bytes on route sources and names, enforced when the program is compiled, and enumerators with an empty name, which the language excludes.
- RouteMethods.ParseRoute: the fixed arrays of a pattern are sequences of their used part.
- Cookie and header lookup and the trimming of optional white space: the same kind of scan as the query, with easier claims.
- Header and cookie parameters and the choice of a body by media type.
- Sockets, HTTP framing, threads and real time: only the events the shutdown protocol reacts to appear, each composed read or write being one operation that can be cancelled.
- RawServer.Server: session objects are values in a map and the coroutine is its step function, so sharing of a session between strands appears only as the interleaving of steps; a failed allocation in the accept loop or in a snapshot is not modelled.
- Cancellation signals: a forced stop closes the socket, and an exception may leave the coroutine at any segment, which covers what a signal can cause.
- Components.RefResolvesIff: references are resolved by the type they were emitted for; a class whose schema name equals the generated name of a wrapper would answer the reference of that wrapper with another schema.
- OpenAPI text other than which references are emitted, parameter schemas (scalars only), the built-in Problem component, and operation identifiers.
- Middleware, error mapping, response headers, configuration checks and the reflection machinery: routes, fields and annotations are input data.
