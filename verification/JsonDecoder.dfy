/** The JSON decoder as a machine on values.  One step reads from one callback to
    the next; the recursion of the C code is the explicit container stack. */
module JsonDecoder {
  import opened JsonText

  /** Lengths of the two work buffers. */
  datatype Limits = Limits(nameLen: int, stringLen: int)

  function SkipSpace(buf: string, p: nat): (q: nat)
    requires p <= |buf|
    ensures p <= q <= |buf|
    ensures forall i :: p <= i < q ==> IsSpace(buf[i])
    ensures q < |buf| ==> !IsSpace(buf[q])
    decreases |buf| - p
  {
    if p < |buf| && IsSpace(buf[p]) then SkipSpace(buf, p + 1) else p
  }

  // ------------------------------------------------------------------ strings

  datatype StringResult = StringOk(value: string, end: nat) | StringBad(status: Failure)

  datatype Unescaped = Text(s: string) | Malformed(status: Failure)

  /** The position of the closing quote; a backslash hides the character after it.
      Without one, a position at or beyond the end. */
  function ScanQuote(buf: string, p: nat): (q: nat)
    requires p <= |buf| + 1
    ensures p <= q <= |buf| + 1
    ensures q < |buf| ==> buf[q] == '\"'
    decreases |buf| + 1 - p
  {
    if p >= |buf| || buf[p] == '\"' then p
    else if buf[p] == '\\' then ScanQuote(buf, p + 2)
    else ScanQuote(buf, p + 1)
  }

  function HexDigit(c: char): (d: int)
    ensures -1 <= d < 16
  {
    if IsDigit(c) then c as int - '0' as int
    else if 'a' <= c <= 'f' then c as int - 'a' as int + 10
    else if 'A' <= c <= 'F' then c as int - 'A' as int + 10
    else -1
  }

  /** Four hexadecimal digits, or -1. */
  function Hex4(buf: string, p: nat): (h: int)
    requires p + 4 <= |buf|
    ensures -1 <= h <= 0xFFFF
  {
    var a, b, c, d := HexDigit(buf[p]), HexDigit(buf[p + 1]), HexDigit(buf[p + 2]), HexDigit(buf[p + 3]);
    if a < 0 || b < 0 || c < 0 || d < 0 then -1 else ((a * 16 + b) * 16 + c) * 16 + d
  }

  /** UTF-8 of a code point (section 3 of RFC 3629). */
  function Utf8(c: nat): (r: string)
    requires c <= 0x10FFFF
    ensures 1 <= |r| <= 4 && (c <= 0xFFFF ==> |r| <= 3)
  {
    if c <= 0x7F then [c as char]
    else if c <= 0x7FF then [(0xC0 + c / 64) as char, (0x80 + c % 64) as char]
    else if c <= 0xFFFF then
      [(0xE0 + c / 4096) as char, (0x80 + c / 64 % 64) as char, (0x80 + c % 64) as char]
    else
      [(0xF0 + c / 262144) as char, (0x80 + c / 4096 % 64) as char,
       (0x80 + c / 64 % 64) as char, (0x80 + c % 64) as char]
  }

  predicate SimpleEscape(c: char) {
    c == '\"' || c == '\\' || c == 'n' || c == 'r' || c == '/' || c == 't' || c == 'b' || c == 'f'
  }

  function SimpleEscapeValue(c: char): char
    requires SimpleEscape(c)
  {
    if c == 'n' then '\n'
    else if c == 'r' then '\r'
    else if c == 't' then '\t'
    else if c == 'b' then BACKSPACE
    else if c == 'f' then FORM_FEED
    else c
  }

  function Prepend(head: string, tail: Unescaped): Unescaped {
    match tail
    case Text(s) => Text(head + s)
    case Malformed(_) => tail
  }

  datatype Unit = Unit(text: string, length: nat) | NoUnit(status: Failure)

  /** A \u escape at position i.  A surrogate pair is combined without the 0x10000
      offset, as the code does. */
  function UnicodeEscape(buf: string, i: nat, q: nat): (r: Unit)
    requires i < q < |buf|
    ensures r.Unit? ==> |r.text| + 2 < r.length && i + r.length <= q
  {
    if i + 6 > q then NoUnit(Incomplete)
    else
      var h := Hex4(buf, i + 2);
      if h < 0 || 0xDC00 <= h <= 0xDFFF then NoUnit(InvalidCharacter)
      else if h < 0xD800 || 0xDBFF < h then Unit(Utf8(h), 6)
      else if i + 12 > q then NoUnit(Incomplete)
      else if buf[i + 6] != '\\' || buf[i + 7] != 'u' then NoUnit(InvalidCharacter)
      else
        var t := Hex4(buf, i + 8);
        if t < 0xDC00 || t > 0xDFFF then NoUnit(InvalidCharacter)
        else Unit(Utf8((h - 0xD800) * 1024 + (t - 0xDC00)), 12)
  }

  /** The content between positions i and q, where q holds the closing quote. */
  function Unescape(buf: string, i: nat, q: nat): (r: Unescaped)
    requires q < |buf|
    ensures r.Text? ==> |r.s| <= if i <= q then q - i else 0
    decreases q - i
  {
    if i >= q then Text("")
    else if buf[i] != '\\' then Prepend([buf[i]], Unescape(buf, i + 1, q))
    else if SimpleEscape(buf[i + 1]) then Prepend([SimpleEscapeValue(buf[i + 1])], Unescape(buf, i + 2, q))
    else if buf[i + 1] != 'u' then Malformed(InvalidCharacter)
    else
      match UnicodeEscape(buf, i, q)
      case NoUnit(status) => Malformed(status)
      case Unit(text, length) => Prepend(text, Unescape(buf, i + length, q))
  }

  function DecodeString(buf: string, p: nat, dstLen: int): (r: StringResult)
    requires p < |buf|
    ensures r.StringOk? ==> p + 1 < r.end <= |buf| && |r.value| <= r.end - p - 2 < dstLen
  {
    if buf[p] != '\"' then StringBad(InvalidCharacter)
    else
      var q := ScanQuote(buf, p + 1);
      if q >= |buf| then StringBad(Incomplete)
      else if q - (p + 1) >= dstLen then StringBad(DataTooLong)
      else
        match Unescape(buf, p + 1, q)
        case Text(s) => StringOk(s, q + 1)
        case Malformed(status) => StringBad(status)
  }

  // ------------------------------------------------------------------ numbers

  datatype Accumulated = Accumulated(accum: nat, end: nat, overflow: bool)

  function DigitLoop(buf: string, p: nat, accum: nat): (r: Accumulated)
    requires p <= |buf| && accum <= UINT64_MAX
    ensures p <= r.end <= |buf| && r.accum <= UINT64_MAX
    decreases |buf| - p
  {
    if p == |buf| || !IsDigit(buf[p]) then Accumulated(accum, p, false)
    else if accum > UINT64_MAX / 10 then Accumulated(accum, p, true)
    else
      var digit := buf[p] as int - '0' as int;
      if accum * 10 > UINT64_MAX - digit then Accumulated(accum * 10, p, true)
      else DigitLoop(buf, p + 1, accum * 10 + digit)
  }

  function ScanFP(buf: string, p: nat): (q: nat)
    requires p <= |buf|
    ensures p <= q <= |buf|
    ensures forall i :: p <= i < q ==> IsFPChar(buf[i])
    ensures q < |buf| ==> !IsFPChar(buf[q])
    decreases |buf| - p
  {
    if p < |buf| && IsFPChar(buf[p]) then ScanFP(buf, p + 1) else p
  }

  /** What lies between one callback and the next. */
  datatype NextResult = Got(event: Event, end: nat) | Bad(status: Failure)

  function Number(c: Limits, name: Option<string>, buf: string, p: nat, negative: bool): (r: NextResult)
    requires p < |buf| && IsDigit(buf[p])
    ensures r.Got? ==> p < r.end < |buf|
  {
    var acc := DigitLoop(buf, p, 0);
    if acc.end == |buf| then Bad(Incomplete)
    else if !IsFPChar(buf[acc.end]) && !acc.overflow && !negative then
      Got(Scalar(name, if acc.accum <= INT64_MAX then IntV(acc.accum) else UIntV(acc.accum)), acc.end)
    else if !IsFPChar(buf[acc.end]) && !acc.overflow && acc.accum <= INT64_MAX + 1 then
      Got(Scalar(name, IntV(0 - acc.accum)), acc.end)
    else
      var q := ScanFP(buf, acc.end);
      if q == |buf| then Bad(Incomplete)
      else if q - p >= c.stringLen then Bad(DataTooLong)
      else Got(Scalar(name, FloatV(negative, buf[p..q])), q)
  }

  // ----------------------------------------------------------------- elements

  function Literal(name: Option<string>, buf: string, p: nat, word: string, v: Value): NextResult
    requires p < |buf|
  {
    if |buf| - p < |word| then Bad(Incomplete)
    else if At(buf, p, word) then Got(Scalar(name, v), p + |word|)
    else Bad(InvalidCharacter)
  }

  /** decodeElement up to its first callback.  The byte after a trailing minus sign
      is the terminating NUL, which is not a digit. */
  function AtElement(c: Limits, name: Option<string>, buf: string, p: nat): (r: NextResult)
    requires p <= |buf|
    ensures r.Got? ==> p < r.end <= |buf|
  {
    var q := SkipSpace(buf, p);
    if q == |buf| then Bad(Incomplete)
    else if buf[q] == '[' then Got(Begin(false, name), q + 1)
    else if buf[q] == '{' then Got(Begin(true, name), q + 1)
    else if buf[q] == '\"' then
      match DecodeString(buf, q, c.stringLen)
      case StringOk(s, end) => Got(Scalar(name, StrV(CStr(s))), end)
      case StringBad(status) => Bad(status)
    else if buf[q] == 'f' then Literal(name, buf, q, "false", BoolV(false))
    else if buf[q] == 't' then Literal(name, buf, q, "true", BoolV(true))
    else if buf[q] == 'n' then Literal(name, buf, q, "null", NullV)
    else if buf[q] == '-' then
      if q + 1 < |buf| && IsDigit(buf[q + 1]) then Number(c, name, buf, q + 1, true) else Bad(InvalidCharacter)
    else if IsDigit(buf[q]) then Number(c, name, buf, q, false)
    else Bad(InvalidCharacter)
  }

  /** Behind a member's name: the colon and the element. */
  function AtColon(c: Limits, name: string, buf: string, p: nat): (r: NextResult)
    requires p <= |buf|
    ensures r.Got? ==> p < r.end <= |buf|
  {
    var colon := SkipSpace(buf, p);
    if colon == |buf| then Bad(Incomplete)
    else if buf[colon] != ':' then Bad(InvalidCharacter)
    else AtElement(c, Some(name), buf, SkipSpace(buf, colon + 1))
  }

  function AtMember(c: Limits, buf: string, p: nat): (r: NextResult)
    requires p < |buf|
    ensures r.Got? ==> p < r.end <= |buf|
  {
    match DecodeString(buf, p, c.nameLen)
    case StringBad(status) => Bad(status)
    case StringOk(s, end) => AtColon(c, CStr(s), buf, end)
  }

  /** One turn of the loop over the content of the innermost container. */
  function AtLoop(c: Limits, inObject: bool, buf: string, p: nat): (r: NextResult)
    requires p <= |buf|
    ensures r.Got? ==> p < r.end <= |buf|
  {
    var q := SkipSpace(buf, p);
    if q == |buf| then Bad(Incomplete)
    else if buf[q] == (if inObject then '}' else ']') then Got(End, q + 1)
    else if inObject then AtMember(c, buf, q)
    else AtElement(c, None, buf, q)
  }

  /** Where the decoder stands: before an element, at the top of the loop of the
      innermost open container, or behind a finished element. */
  datatype Control =
    | Element(name: Option<string>, stack: seq<bool>)
    | Loop(stack: seq<bool>)
    | After(stack: seq<bool>)

  predicate Running(k: Control) {
    k.Element? || |k.stack| > 0
  }

  function Top(k: Control): bool
    requires |k.stack| > 0
  {
    k.stack[|k.stack| - 1]
  }

  function Next(c: Limits, k: Control, buf: string, p: nat): (r: NextResult)
    requires Running(k) && p <= |buf|
    ensures r.Got? ==> p < r.end <= |buf|
  {
    match k
    case Element(name, _) => AtElement(c, name, buf, p)
    case Loop(_) => AtLoop(c, Top(k), buf, p)
    case After(_) =>
      var q := SkipSpace(buf, p);
      if q == |buf| then Bad(Incomplete)
      else AtLoop(c, Top(k), buf, if buf[q] == ',' then q + 1 else q)
  }

  function Advance(k: Control, ev: Event): Control {
    match ev
    case Begin(isObject, _) => Loop(k.stack + [isObject])
    case Scalar(_, _) => After(k.stack)
    case End => After(if |k.stack| > 0 then k.stack[..|k.stack| - 1] else [])
  }

  /** The buffer and cursor, what reading the file will still deliver behind the buffer
      (none and `eof` when decoding from memory), and the callbacks made so far.  The
      first read that comes back short, be it at the end of the file, early or failed, is
      the last: `rest` is what the reads up to that one bring. */
  datatype Dec = Dec(buf: string, ptr: nat, rest: string, eof: bool, fired: seq<Event>)

  ghost predicate Valid(d: Dec) {
    d.ptr <= |d.buf|
  }

  function InMemory(data: string): Dec {
    Dec(data, 0, "", true, [])
  }

  /** updateDecoder_readFile: slide the unread tail to the front and read more once
      less than half of the buffer is unread. */
  function Refill(d: Dec): (r: Dec)
    requires Valid(d)
    ensures Valid(r) && |r.buf| == |d.buf| && r.fired == d.fired && Size(r) <= Size(d)
  {
    var remaining := |d.buf| - d.ptr;
    if d.eof || remaining >= |d.buf| / 2 then d
    else
      var fill := d.ptr;
      var n := if |d.rest| < fill then |d.rest| else fill;
      Dec(d.buf[d.ptr..] + d.rest[..n] + d.buf[remaining + n..], 0, d.rest[n..], n < fill, d.fired)
  }

  ghost function Size(d: Dec): nat
    requires Valid(d)
  {
    |d.buf| - d.ptr + |d.rest| + if d.eof then 0 else |d.buf|
  }

  function Fire(d: Dec, ev: Event): (r: Dec)
    requires Valid(d)
    ensures Valid(r) && r.fired == d.fired + [ev] && Size(r) <= Size(d) && |r.buf| == |d.buf|
  {
    Refill(d.(fired := d.fired + [ev]))
  }

  /** The result code of the callback that completes a history of callbacks. */
  type Handler = seq<Event> -> Status

  datatype Outcome = Outcome(dec: Dec, status: Status)

  /** The same callbacks and the same result. */
  ghost predicate SameEnd(a: Outcome, b: Outcome) {
    a.status == b.status && a.dec.fired == b.dec.fired
  }

  /** Decode from control point k until the root element is finished or an error. */
  ghost function Run(h: Handler, c: Limits, k: Control, d: Dec): (r: Outcome)
    requires Valid(d)
    ensures Valid(r.dec)
    decreases Size(d)
  {
    if !Running(k) then Outcome(d, Ok)
    else
      match Next(c, k, d.buf, d.ptr)
      case Bad(status) => Outcome(d, status)
      case Got(ev, end) =>
        var d1 := Fire(d.(ptr := end), ev);
        if h(d1.fired) != Ok then Outcome(d1, h(d1.fired)) else Run(h, c, Advance(k, ev), d1)
  }

  /** What one step contributes to a run. */
  lemma StepMade(h: Handler, c: Limits, k: Control, d: Dec, ev: Event, end: nat)
    requires Valid(d) && Running(k) && Next(c, k, d.buf, d.ptr) == Got(ev, end)
    ensures var d1 := Fire(d.(ptr := end), ev);
            Run(h, c, k, d) == if h(d1.fired) != Ok then Outcome(d1, h(d1.fired)) else Run(h, c, Advance(k, ev), d1)
  {
    hide Next, Refill, Advance;
  }

  lemma StepFails(h: Handler, c: Limits, k: Control, d: Dec, status: Failure)
    requires Valid(d) && Running(k) && Next(c, k, d.buf, d.ptr) == Bad(status)
    ensures Run(h, c, k, d) == Outcome(d, status)
  {
    hide Next;
  }

  const ROOT: Control := Element(None, [])

  const AlwaysOk: Handler := (_) => Ok

  /** The callbacks and the result of decoding a text in memory. */
  ghost function Decode(c: Limits, data: string): Outcome {
    Run(AlwaysOk, c, ROOT, InMemory(data))
  }
}
