/** Byte strings, and the outcome of a scanning step over them. */
module Bytes {

  type Byte = b: int | 0 <= b < 256

  const QUOTE: Byte := '"' as int
  const BACKSLASH: Byte := '\\' as int
  const SLASH: Byte := '/' as int
  const COMMA: Byte := ',' as int
  const COLON: Byte := ':' as int
  const OPEN_BRACE: Byte := '{' as int
  const CLOSE_BRACE: Byte := '}' as int
  const OPEN_BRACKET: Byte := '[' as int
  const CLOSE_BRACKET: Byte := ']' as int
  const MINUS: Byte := '-' as int
  const PLUS: Byte := '+' as int
  const DOT: Byte := '.' as int

  const TRUE_TEXT: seq<Byte> := ['t' as int, 'r' as int, 'u' as int, 'e' as int]
  const FALSE_TEXT: seq<Byte> := ['f' as int, 'a' as int, 'l' as int, 's' as int, 'e' as int]
  const NULL_TEXT: seq<Byte> := ['n' as int, 'u' as int, 'l' as int, 'l' as int]

  /** The bytes of an ASCII text. */
  function Ascii(text: string): (bytes: seq<Byte>)
    requires forall k | 0 <= k < |text| :: text[k] < 128 as char
    ensures |bytes| == |text| && forall k | 0 <= k < |text| :: bytes[k] == text[k] as int
  {
    seq(|text|, k requires 0 <= k < |text| => text[k] as int)
  }

  datatype Option<+T> = None | Some(value: T)

  // Sequence facts that proofs by recursion on the front of a sequence need.

  lemma ConsSplit<T>(a: seq<T>, b: seq<T>)
    requires a != []
    ensures a + b != [] && (a + b)[0] == a[0] && (a + b)[1..] == a[1..] + b
  {
  }

  lemma Assoc<T>(a: seq<T>, b: seq<T>, c: seq<T>)
    ensures a + b + c == a + (b + c)
  {
  }

  lemma EmptyLeft<T>(a: seq<T>)
    ensures [] + a == a
  {
  }

  lemma Cons<T>(a: T, b: seq<T>)
    ensures [a] + b != [] && ([a] + b)[0] == a && ([a] + b)[1..] == b
  {
  }

  /** The byte at `p`, or NUL past the end. */
  function At(s: seq<Byte>, p: nat): Byte {
    if p < |s| then s[p] else 0
  }

  /** `t` occurs in `s` at offset `p`. */
  predicate HasAt(s: seq<Byte>, p: nat, t: seq<Byte>) {
    p + |t| <= |s| && s[p..p + |t|] == t
  }

  lemma HasAtConcat(s: seq<Byte>, p: nat, a: seq<Byte>, b: seq<Byte>)
    ensures HasAt(s, p, a + b) <==> HasAt(s, p, a) && HasAt(s, p + |a|, b)
  {
    if HasAt(s, p, a + b) {
      assert s[p..p + |a|] == (a + b)[..|a|];
      assert s[p + |a|..p + |a| + |b|] == (a + b)[|a|..];
    }
    if HasAt(s, p, a) && HasAt(s, p + |a|, b) {
      assert s[p..p + |a + b|] == s[p..p + |a|] + s[p + |a|..p + |a| + |b|];
    }
  }

  lemma HasAtIndex(s: seq<Byte>, p: nat, t: seq<Byte>, k: nat)
    requires HasAt(s, p, t) && k < |t|
    ensures s[p + k] == t[k]
  {
    assert s[p..p + |t|][k] == t[k];
  }

  /** Why a JSON text is rejected. */
  datatype Code =
    | InputTooLarge | TrailingCharacters
    | InvalidLiteral | NullNotAllowed | InvalidBoolean | InvalidEnum
    | ExpectedString | InvalidString | InvalidEscape | InvalidUnicode | InvalidUtf8
    | StringTooLarge | UnterminatedString | EscapedBorrowedString
    | InvalidNumber | NumberOutOfRange
    | MaximumDepth | ExpectedColon | ExpectedComma
    | ExpectedObject | ObjectTooLarge | UnknownField | DuplicateField | MissingField
    | ConstraintFailed
    | ExpectedArray | ArrayTooLarge | ArraySize

  /** A scanned value and the offset behind it, or an error and its offset. */
  datatype Parse<+T> = Ok(value: T, next: nat) | Err(code: Code, offset: nat) {
    /** The same error at another value type. */
    function Fail<U>(): Parse<U>
      requires Err?
    {
      Err(code, offset)
    }

    /** The outcome without the value. */
    function Erase(): Parse<()> {
      match this
      case Ok(_, next) => Ok((), next)
      case Err(code, offset) => Err(code, offset)
    }
  }

  datatype Limits = Limits(
    inputBytes: nat,
    depth: nat,
    stringBytes: nat,
    arrayElements: nat,
    objectMembers: nat,
    rejectUnknown: bool)
}
