/** Vocabulary shared by the JSON encoder and decoder: result codes, events, and
    the character-level functions for strings and integers.  A C `char` is a
    Dafny `char`; the byte values 0 to 255 are all representable. */
module JsonText {
  datatype Option<+T> = None | Some(value: T)

  /** The KSJSON_OK / KSJSON_ERROR_* result codes. */
  datatype Status = Ok | InvalidCharacter | DataTooLong | CannotAddData | Incomplete | InvalidData

  type Failure = s: Status | s != Ok witness Incomplete

  /** A scalar as it is handed to an encoder call or to a decoder callback.
      A floating point value is kept as its sign and its unsigned spelling. */
  datatype Value =
    | BoolV(b: bool)
    | IntV(i: int)
    | UIntV(u: nat)
    | FloatV(negative: bool, digits: string)
    | NullV
    | StrV(s: string)

  /** One decoder callback, or the encoder call of the same name. */
  datatype Event =
    | Begin(isObject: bool, name: Option<string>)
    | End
    | Scalar(name: Option<string>, value: Value)

  const INT64_MAX: int := 0x7FFF_FFFF_FFFF_FFFF
  const INT64_MIN: int := -0x8000_0000_0000_0000
  const UINT64_MAX: int := 0xFFFF_FFFF_FFFF_FFFF

  const NUL: char := '\0'
  const BACKSPACE: char := '\U{0008}'
  const FORM_FEED: char := '\U{000C}'
  const VERTICAL_TAB: char := '\U{000B}'

  predicate IsSpace(c: char) {
    c == ' ' || c == '\t' || c == '\n' || c == '\r' || c == FORM_FEED || c == VERTICAL_TAB
  }

  predicate IsDigit(c: char) {
    '0' <= c <= '9'
  }

  predicate IsFPChar(c: char) {
    IsDigit(c) || c == '.' || c == 'e' || c == 'E' || c == '+' || c == '-'
  }

  /** The text `e` occurs in `s` at position `p`. */
  predicate At(s: string, p: nat, e: string) {
    p + |e| <= |s| && s[p..p + |e|] == e
  }

  lemma AtConcat(s: string, p: nat, a: string, b: string)
    ensures At(s, p, a + b) <==> At(s, p, a) && At(s, p + |a|, b)
  {
    var ab := a + b;
    if At(s, p, ab) {
      var w := s[p..p + |ab|];
      assert s[p..p + |a|] == w[..|a|] == a;
      assert s[p + |a|..p + |a| + |b|] == w[|a|..] == b;
    }
    if At(s, p, a) && At(s, p + |a|, b) {
      assert s[p..p + |ab|] == s[p..p + |a|] + s[p + |a|..p + |a| + |b|];
    }
  }

  /** What a C callee sees of a buffer passed as `char *`: the text up to the first NUL. */
  function CStr(s: string): (r: string)
    ensures NUL !in r && |r| <= |s|
    ensures NUL !in s ==> r == s
  {
    if s == "" || s[0] == NUL then "" else [s[0]] + CStr(s[1..])
  }

  function Zeros(n: nat): (s: string)
    ensures |s| == n && forall i :: 0 <= i < n ==> s[i] == NUL
  {
    seq(n, _ => NUL)
  }

  // ------------------------------------------------------------------ strings

  predicate Escapable(c: char) {
    c >= ' ' || c == '\n' || c == '\r' || c == '\t' || c == BACKSPACE || c == FORM_FEED
  }

  predicate AllEscapable(s: string) {
    forall i :: 0 <= i < |s| ==> Escapable(s[i])
  }

  lemma EscapableSplit(s: string, n: nat)
    requires n <= |s|
    ensures AllEscapable(s) <==> AllEscapable(s[..n]) && AllEscapable(s[n..])
  {
    assert forall i :: 0 <= i < |s| ==> s[i] == if i < n then s[..n][i] else s[n..][i - n];
    if AllEscapable(s) {
      assert forall i :: 0 <= i < |s[n..]| ==> s[n..][i] == s[n + i];
    }
  }

  /** The spelling of one character inside a JSON string. */
  function EscapeChar(c: char): (r: string)
    ensures 1 <= |r| <= 2
  {
    if c == '\\' || c == '\"' then ['\\', c]
    else if c == BACKSPACE then "\\b"
    else if c == FORM_FEED then "\\f"
    else if c == '\n' then "\\n"
    else if c == '\r' then "\\r"
    else if c == '\t' then "\\t"
    else [c]
  }

  function Escape(s: string): (r: string)
    ensures |s| <= |r| <= 2 * |s|
  {
    if s == "" then "" else EscapeChar(s[0]) + Escape(s[1..])
  }

  lemma {:induction false} EscapeConcat(a: string, b: string)
    ensures Escape(a + b) == Escape(a) + Escape(b)
  {
    hide EscapeChar;
    if a == "" {
      assert a + b == b;
    } else {
      EscapeConcat(a[1..], b);
      assert (a + b)[1..] == a[1..] + b && (a + b)[0] == a[0];
      var head := EscapeChar(a[0]);
      assert Escape(a + b) == head + (Escape(a[1..]) + Escape(b)) == (head + Escape(a[1..])) + Escape(b);
    }
  }

  /** Characters that are written as they are. */
  predicate Plain(c: char) {
    c != '\\' && c != '\"' && c >= ' '
  }

  lemma {:induction false} PlainIsItself(s: string)
    requires forall i :: 0 <= i < |s| ==> Plain(s[i])
    ensures Escape(s) == s && AllEscapable(s)
  {
    if s != "" {
      PlainIsItself(s[1..]);
    }
  }

  // ----------------------------------------------------------------- integers

  function DigitChar(d: nat): (c: char)
    requires d < 10
    ensures IsDigit(c) && c as int - '0' as int == d
  {
    ('0' as int + d) as char
  }

  /** The decimal spelling printed for an unsigned integer. */
  function Digits(n: nat): (r: string)
    ensures |r| >= 1 && forall i :: 0 <= i < |r| ==> IsDigit(r[i])
  {
    if n < 10 then [DigitChar(n)] else Digits(n / 10) + [DigitChar(n % 10)]
  }

  function IntText(i: int): string {
    if i < 0 then "-" + Digits(-i) else Digits(i)
  }

  /** The number a run of decimal digits stands for. */
  function DecimalValue(s: string): nat
    requires forall i :: 0 <= i < |s| ==> IsDigit(s[i])
  {
    if s == "" then 0
    else
      assert IsDigit(s[|s| - 1]);
      10 * DecimalValue(s[..|s| - 1]) + (s[|s| - 1] as int - '0' as int)
  }

  lemma {:induction false} DigitsValue(n: nat)
    ensures DecimalValue(Digits(n)) == n
  {
    if n >= 10 {
      DigitsValue(n / 10);
      assert Digits(n)[..|Digits(n)| - 1] == Digits(n / 10);
    } else {
      assert Digits(n)[..0] == "";
    }
  }

  // ---------------------------------------------------------- legal arguments

  /** The opaque unsigned spellings that libc produces for a finite or infinite
      double: they start with a digit and are not plain integers. */
  predicate FloatSpelling(s: string) {
    && |s| > 0 && IsDigit(s[0])
    && (forall i :: 0 <= i < |s| ==> IsFPChar(s[i]))
    && exists i :: 0 <= i < |s| && !IsDigit(s[i])
  }

  /** The values an encoder call can be given (64-bit integers, C strings). */
  predicate Encodable(v: Value) {
    match v
    case BoolV(_) => true
    case IntV(i) => INT64_MIN <= i <= INT64_MAX
    case UIntV(u) => u <= UINT64_MAX
    case FloatV(_, digits) => FloatSpelling(digits)
    case NullV => true
    case StrV(s) => AllEscapable(s) && NUL !in s
  }

  /** The text the encoder writes for a scalar. */
  function ValueText(v: Value): string {
    match v
    case BoolV(b) => if b then "true" else "false"
    case IntV(i) => IntText(i)
    case UIntV(u) => Digits(u)
    case FloatV(negative, digits) => (if negative then "-" else "") + digits
    case NullV => "null"
    case StrV(s) => "\"" + Escape(s) + "\""
  }

  /** The value class the decoder reports: unsigned only above INT64_MAX. */
  function CanonicalValue(v: Value): Value {
    match v
    case UIntV(u) => if u <= INT64_MAX then IntV(u) else v
    case _ => v
  }
}
