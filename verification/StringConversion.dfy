/** Copying a UTF-16 string as UTF-8 into a bounded buffer, and the test whether memory
    holds a NUL-terminated UTF-8 string. */
module StringConversion {
  import opened JsonText
  import JsonDecoder

  type CodeUnit = x: int | 0 <= x <= 0xFFFF

  /** A Unicode scalar value: a code point that is not a surrogate. */
  type Scalar = x: int | 0 <= x <= 0x10FFFF && !(0xD800 <= x <= 0xDFFF)

  /** Section 2.1 of RFC 2781. */
  function Utf16(c: Scalar): (r: seq<CodeUnit>)
    ensures 1 <= |r| <= 2
  {
    if c < 0x10000 then [c] else [0xD800 + (c - 0x10000) / 1024, 0xDC00 + (c - 0x10000) % 1024]
  }

  function Utf16All(cs: seq<Scalar>): seq<CodeUnit> {
    if cs == [] then [] else Utf16(cs[0]) + Utf16All(cs[1..])
  }

  function Utf8All(cs: seq<Scalar>): string {
    if cs == [] then "" else JsonDecoder.Utf8(cs[0]) + Utf8All(cs[1..])
  }

  // --------------------------------------------------------------- conversion

  predicate IsTail(u: CodeUnit) {
    0xDC00 <= u <= 0xDFFF
  }

  function Combined(lead: CodeUnit, tail: CodeUnit): (c: nat)
    requires 0xD800 <= lead <= 0xDBFF && IsTail(tail)
    ensures 0x10000 <= c <= 0x10FFFF
  {
    (lead - 0xD800) * 1024 + (tail - 0xDC00) + 0x10000
  }

  predicate IsLead(u: CodeUnit) {
    0xD800 <= u <= 0xDBFF
  }

  /** The units that decoding at i looks at are there. */
  predicate Readable(src: seq<CodeUnit>, i: nat) {
    i < |src| && (IsLead(src[i]) ==> i + 1 < |src|)
  }

  /** All n units from i on can be decoded; one more has to be there only if they end in a
      lead surrogate. */
  predicate AllReadable(src: seq<CodeUnit>, i: nat, n: int) {
    n > 0 ==> i + n <= |src| && Readable(src, i + n - 1)
  }

  /** One code point and the number of units it takes; none for a malformed sequence.
      Behind a lead surrogate the next unit is read even at the end of the string. */
  function Decoded(src: seq<CodeUnit>, i: nat): (r: Option<(nat, nat)>)
    requires Readable(src, i)
    ensures r.Some? ==> r.value.0 <= 0x10FFFF && 1 <= r.value.1 <= 2
  {
    var lead := src[i];
    if lead < 0xD800 || lead > 0xDFFF then Some((lead, 1))
    else if lead > 0xDBFF then None
    else if !IsTail(src[i + 1]) then None
    else Some((Combined(lead, src[i + 1]), 2))
  }

  /** What the n units from i on are converted to when `room` bytes are left. */
  function Converted(src: seq<CodeUnit>, i: nat, n: int, room: nat): (r: Option<string>)
    requires AllReadable(src, i, n)
    ensures r.Some? ==> |r.value| <= room
    decreases if n > 0 then n else 0
  {
    if n <= 0 || room == 0 then Some("")
    else
      match Decoded(src, i)
      case None => None
      case Some((c, used)) =>
        var bytes := JsonDecoder.Utf8(c);
        if |bytes| > room then Some("")
        else
          match Converted(src, i + used, n - used, room - |bytes|)
          case None => None
          case Some(more) => Some(bytes + more)
  }

  /** The number of code points whose UTF-8 fits into `room` bytes. */
  function Fitting(cs: seq<Scalar>, room: nat): (k: nat)
    ensures k <= |cs|
  {
    if cs == [] || |JsonDecoder.Utf8(cs[0])| > room then 0
    else 1 + Fitting(cs[1..], room - |JsonDecoder.Utf8(cs[0])|)
  }

  /** It is the longest prefix that fits. */
  lemma {:induction false} FittingIsLongest(cs: seq<Scalar>, room: nat, k: nat)
    requires k <= |cs|
    ensures |Utf8All(cs[..k])| <= room <==> k <= Fitting(cs, room)
    decreases |cs|
  {
    if k > 0 {
      assert cs[..k][0] == cs[0] && cs[..k][1..] == cs[1..][..k - 1];
      if |JsonDecoder.Utf8(cs[0])| <= room {
        FittingIsLongest(cs[1..], room - |JsonDecoder.Utf8(cs[0])|, k - 1);
      }
    }
  }

  /** At position i the source holds the UTF-16 of cs. */
  predicate HoldsUtf16(src: seq<CodeUnit>, i: nat, cs: seq<Scalar>) {
    i + |Utf16All(cs)| <= |src| && src[i..i + |Utf16All(cs)|] == Utf16All(cs)
  }

  lemma DecodesFirst(src: seq<CodeUnit>, i: nat, cs: seq<Scalar>)
    requires cs != [] && HoldsUtf16(src, i, cs)
    ensures Readable(src, i) && Decoded(src, i) == Some((cs[0], |Utf16(cs[0])|))
    ensures HoldsUtf16(src, i + |Utf16(cs[0])|, cs[1..])
  {
    var all := Utf16All(cs);
    var first := Utf16(cs[0]);
    assert all == first + Utf16All(cs[1..]);
    assert src[i] == src[i..i + |all|][0] == first[0];
    assert |first| == 2 ==> src[i + 1] == src[i..i + |all|][1] == first[1];
    assert src[i + |first|..i + |all|] == src[i..i + |all|][|first|..];
  }

  function Before(done: string, tail: Option<string>): Option<string> {
    match tail
    case None => None
    case Some(more) => Some(done + more)
  }

  lemma NothingConverted(tail: Option<string>)
    ensures Before("", tail) == tail
  {
    if tail.Some? {
      assert "" + tail.value == tail.value;
    }
  }

  lemma BeforeTwice(a: string, b: string, tail: Option<string>)
    ensures Before(a, Before(b, tail)) == Before(a + b, tail)
  {
    if tail.Some? {
      assert a + (b + tail.value) == a + b + tail.value;
    }
  }

  /** A well-formed start of the string is converted first: up to the first code point
      that does not fit, or all of it, and then the conversion goes on behind it. */
  lemma {:induction false} ConvertsStart(src: seq<CodeUnit>, i: nat, cs: seq<Scalar>, n: nat, room: nat)
    requires HoldsUtf16(src, i, cs) && |Utf16All(cs)| <= n && AllReadable(src, i, n)
    ensures Fitting(cs, room) == |cs| ==> |Utf8All(cs)| <= room
    ensures Converted(src, i, n, room) ==
            if Fitting(cs, room) < |cs| then Some(Utf8All(cs[..Fitting(cs, room)]))
            else Before(Utf8All(cs), Converted(src, i + |Utf16All(cs)|, n - |Utf16All(cs)|, room - |Utf8All(cs)|))
    decreases |cs|
  {
    hide JsonDecoder.Utf8, Utf16, Decoded, Converted, Fitting, Readable, HoldsUtf16, Utf8All;
    FirstOf(cs, room);
    if cs == [] {
      NothingConverted(Converted(src, i, n, room));
    } else {
      DecodesFirst(src, i, cs);
      assert |Utf16All(cs)| == |Utf16(cs[0])| + |Utf16All(cs[1..])|;
      ConvertsOne(src, i, n, room);
      var u := JsonDecoder.Utf8(cs[0]);
      if |u| <= room {
        var used := |Utf16(cs[0])|;
        ConvertsStart(src, i + used, cs[1..], n - used, room - |u|);
        if Fitting(cs, room) == |cs| {
          BeforeTwice(u, Utf8All(cs[1..]),
                      Converted(src, i + |Utf16All(cs)|, n - |Utf16All(cs)|, room - |Utf8All(cs)|));
        }
      }
    }
  }

  /** The first code point decides whether any fits, and comes before the others. */
  lemma FirstOf(cs: seq<Scalar>, room: nat)
    ensures cs == [] ==> Fitting(cs, room) == 0 && Utf8All(cs) == ""
    ensures cs != [] && |JsonDecoder.Utf8(cs[0])| > room ==> Fitting(cs, room) == 0 && Utf8All(cs[..0]) == ""
    ensures cs != [] ==> Utf8All(cs) == JsonDecoder.Utf8(cs[0]) + Utf8All(cs[1..])
    ensures cs != [] && |JsonDecoder.Utf8(cs[0])| <= room ==>
              var k := Fitting(cs[1..], room - |JsonDecoder.Utf8(cs[0])|);
              Fitting(cs, room) == 1 + k && Utf8All(cs[..1 + k]) == JsonDecoder.Utf8(cs[0]) + Utf8All(cs[1..][..k])
  {
    hide JsonDecoder.Utf8;
    if cs != [] && |JsonDecoder.Utf8(cs[0])| <= room {
      var k := Fitting(cs[1..], room - |JsonDecoder.Utf8(cs[0])|);
      assert cs[..1 + k][0] == cs[0] && cs[..1 + k][1..] == cs[1..][..k];
    }
  }

  /** One turn of the conversion at a well-formed code point. */
  lemma ConvertsOne(src: seq<CodeUnit>, i: nat, n: nat, room: nat)
    requires 0 < n && AllReadable(src, i, n) && Readable(src, i) && Decoded(src, i).Some?
    requires Decoded(src, i).value.1 <= n
    ensures var (c, used) := Decoded(src, i).value;
            && AllReadable(src, i + used, n - used)
            && Converted(src, i, n, room) ==
               if |JsonDecoder.Utf8(c)| > room then Some("")
               else Before(JsonDecoder.Utf8(c), Converted(src, i + used, n - used, room - |JsonDecoder.Utf8(c)|))
  {
    hide Decoded, Readable;
  }

  lemma {:induction false} NoLeadAtEnd(cs: seq<Scalar>)
    ensures cs != [] ==> Utf16All(cs) != [] && !IsLead(Utf16All(cs)[|Utf16All(cs)| - 1])
    decreases |cs|
  {
    if |cs| == 1 {
      assert Utf16All(cs) == Utf16(cs[0]) + [] == Utf16(cs[0]);
    } else if cs != [] {
      NoLeadAtEnd(cs[1..]);
    }
  }

  lemma WellFormedReadable(src: seq<CodeUnit>, i: nat, cs: seq<Scalar>)
    requires HoldsUtf16(src, i, cs)
    ensures AllReadable(src, i, |Utf16All(cs)|)
  {
    hide Utf16All;
    NoLeadAtEnd(cs);
    var all := Utf16All(cs);
    if all != [] {
      assert cs != [] by { NoUnits(); }
      assert src[i + |all| - 1] == src[i..i + |all|][|all| - 1];
    }
  }

  lemma NoUnits()
    ensures Utf16All([]) == []
  {
  }

  /** For a well-formed string the output is the UTF-8 of the longest prefix of its code
      points that fits: no code point is split. */
  lemma ConvertsLongestPrefix(src: seq<CodeUnit>, i: nat, cs: seq<Scalar>, room: nat)
    requires HoldsUtf16(src, i, cs)
    ensures AllReadable(src, i, |Utf16All(cs)|)
    ensures Converted(src, i, |Utf16All(cs)|, room) == Some(Utf8All(cs[..Fitting(cs, room)]))
  {
    hide Utf8All, Utf16All, Fitting;
    WellFormedReadable(src, i, cs);
    ConvertsStart(src, i, cs, |Utf16All(cs)|, room);
    if Fitting(cs, room) == |cs| {
      assert cs[..|cs|] == cs;
      assert Utf8All(cs) + "" == Utf8All(cs);
    }
  }

  /** No code point's UTF-16 starts here. */
  ghost predicate Malformed(src: seq<CodeUnit>, i: nat) {
    forall c: Scalar :: !HoldsUtf16(src, i, [c])
  }

  lemma OneUtf16(c: Scalar)
    ensures Utf16All([c]) == Utf16(c)
  {
    assert [c][1..] == [];
  }

  /** What is decoded is what stands there; a surrogate that is not the first of a pair is
      malformed, and nothing else is. */
  lemma DecodedExactly(src: seq<CodeUnit>, i: nat)
    requires Readable(src, i)
    ensures Decoded(src, i).None? <==> Malformed(src, i)
    ensures forall c: Scalar :: HoldsUtf16(src, i, [c]) <==> Decoded(src, i) == Some((c, |Utf16(c)|))
  {
    hide HoldsUtf16;
    forall c: Scalar
      ensures HoldsUtf16(src, i, [c]) <==> Decoded(src, i) == Some((c, |Utf16(c)|))
    {
      if HoldsUtf16(src, i, [c]) {
        DecodesFirst(src, i, [c]);
      } else if Decoded(src, i) == Some((c, |Utf16(c)|)) {
        DecodedHolds(src, i);
      }
    }
    if Decoded(src, i).Some? {
      DecodedHolds(src, i);
    }
  }

  lemma DecodedHolds(src: seq<CodeUnit>, i: nat)
    requires Readable(src, i) && Decoded(src, i).Some?
    ensures var c := Decoded(src, i).value.0; !(0xD800 <= c <= 0xDFFF) && HoldsUtf16(src, i, [c])
  {
    var c := Decoded(src, i).value.0;
    OneUtf16(c);
    assert src[i..i + |Utf16(c)|] == Utf16(c);
  }

  /** A malformed sequence behind the code points cs empties the whole output exactly if
      the conversion gets to it: if the UTF-8 of cs leaves room. */
  lemma MalformedEmpties(src: seq<CodeUnit>, cs: seq<Scalar>, n: nat, room: nat)
    requires HoldsUtf16(src, 0, cs) && |Utf16All(cs)| < n && AllReadable(src, 0, n)
    requires Malformed(src, |Utf16All(cs)|)
    ensures Converted(src, 0, n, room) ==
            if |Utf8All(cs)| < room then None else Some(Utf8All(cs[..Fitting(cs, room)]))
  {
    hide Utf8All, Utf16All, Fitting, Decoded, Malformed;
    ConvertsStart(src, 0, cs, n, room);
    DecodedExactly(src, |Utf16All(cs)|);
    FittingIsLongest(cs, room, |cs|);
    assert cs[..|cs|] == cs;
    assert Utf8All(cs) + "" == Utf8All(cs);
  }

  /** copyAndConvertUTF16StringToUTF8.  Behind a string that ends in a lead surrogate one
      more unit must be readable. */
  method CopyAndConvert(src: seq<CodeUnit>, dst: array<char>, charCount: nat, maxByteCount: nat) returns (length: nat)
    requires AllReadable(src, 0, charCount) && 1 <= maxByteCount <= dst.Length
    modifies dst
    ensures length < maxByteCount && dst[length] == NUL
    ensures match Converted(src, 0, charCount, maxByteCount - 1)
            case None => length == 0
            case Some(text) => dst[..length] == text
  {
    hide Decoded, JsonDecoder.Utf8;
    var pSrc: nat := 0;
    length := 0;
    var end := maxByteCount - 1;
    var charsRemaining: int := charCount;
    ghost var all := Converted(src, 0, charCount, end);
    NothingConverted(all);
    while charsRemaining > 0 && length < end
      invariant length <= end && AllReadable(src, pSrc, charsRemaining)
      invariant all == Before(dst[..length], Converted(src, pSrc, charsRemaining, end - length))
      decreases charsRemaining
    {
      var c, used := DecodeUnit(src, pSrc);
      if used == 0 {
        dst[0] := NUL;
        return 0;
      }
      pSrc := pSrc + used;
      ghost var done := dst[..length];
      if |JsonDecoder.Utf8(c)| > end - length {
        assert done + "" == done;
        break;
      }
      BeforeTwice(done, JsonDecoder.Utf8(c),
                  Converted(src, pSrc, charsRemaining - used, end - length - |JsonDecoder.Utf8(c)|));
      length := EncodeUtf8(c, dst, length);
      charsRemaining := charsRemaining - used;
    }
    dst[length] := NUL;
    assert all == Some(dst[..length] + "");
    assert dst[..length] + "" == dst[..length];
  }

  /** The decoding half of the loop body; 0 units for a malformed sequence. */
  method DecodeUnit(src: seq<CodeUnit>, i: nat) returns (c: nat, used: nat)
    requires Readable(src, i)
    ensures c <= 0x10FFFF && used <= 2
    ensures used == 0 <==> Decoded(src, i) == None
    ensures used != 0 ==> Decoded(src, i) == Some((c, used))
  {
    var lead: int := src[i];
    if lead < 0xD800 || lead > 0xDFFF {
      return lead, 1;
    }
    if lead > 0xDBFF {
      return 0, 0;
    }
    var tail: int := src[i + 1];
    if tail < 0xDC00 || tail > 0xDFFF {
      return 0, 0;
    }
    c := (lead - 0xD800) * 1024 + (tail - 0xDC00);
    c := c + 0x10000;
    used := 2;
  }

  /** The encoding half, once the bytes are known to fit. */
  method EncodeUtf8(c: nat, dst: array<char>, at: nat) returns (next: nat)
    requires c <= 0x10FFFF && at + |JsonDecoder.Utf8(c)| <= dst.Length
    modifies dst
    ensures next == at + |JsonDecoder.Utf8(c)| && dst[..next] == old(dst[..at]) + JsonDecoder.Utf8(c)
  {
    ghost var before := dst[..at];
    if c <= 0x7F {
      dst[at] := c as char;
      next := at + 1;
    } else if c <= 0x7FF {
      dst[at] := (0xC0 + c / 64) as char;
      dst[at + 1] := (0x80 + c % 64) as char;
      next := at + 2;
    } else if c <= 0xFFFF {
      dst[at] := (0xE0 + c / 4096) as char;
      dst[at + 1] := (0x80 + c / 64 % 64) as char;
      dst[at + 2] := (0x80 + c % 64) as char;
      next := at + 3;
    } else {
      dst[at] := (0xF0 + c / 262144) as char;
      dst[at + 1] := (0x80 + c / 4096 % 64) as char;
      dst[at + 2] := (0x80 + c / 64 % 64) as char;
      dst[at + 3] := (0x80 + c % 64) as char;
      next := at + 4;
    }
    assert dst[..at] == before;
  }

  // ----------------------------------------------------------------- acceptor

  predicate PrintableControl(b: char) {
    b == '\t' || b == '\n' || b == '\r'
  }

  /** g_continuationByteCount, for a byte from 0xC0 on. */
  function ContinuationBytes(b: char): nat {
    if b < 0xE0 as char then 1
    else if b < 0xF0 as char then 2
    else if b < 0xF8 as char then 3
    else if b < 0xFC as char then 4
    else if b < 0xFE as char then 5
    else 0
  }

  predicate IsContinuation(b: char) {
    0x80 as char <= b < 0xC0 as char
  }

  predicate Continued(memory: string, p: nat, n: nat) {
    p + n <= |memory| && forall i :: p <= i < p + n ==> IsContinuation(memory[i])
  }

  /** kfcstring_isNullTerminatedUTF8String, from position p on. */
  predicate Accepts(memory: string, p: nat, minLength: int)
    requires p <= |memory|
    decreases |memory| - p
  {
    if p == |memory| then false
    else if memory[p] == NUL then p >= minLength
    else if memory[p] >= 0x80 as char then
      var n := ContinuationBytes(memory[p]);
      && memory[p] >= 0xC0 as char && n != 0 && p + n < |memory| && Continued(memory, p + 1, n)
      && Accepts(memory, p + 1 + n, minLength)
    else (memory[p] >= ' ' || PrintableControl(memory[p])) && Accepts(memory, p + 1, minLength)
  }

  /** The acceptor over the first maxLength bytes of memory. */
  method IsNullTerminatedUtf8String(memory: string, minLength: int, maxLength: nat) returns (answer: bool)
    requires maxLength <= |memory|
    ensures answer == Accepts(memory[..maxLength], 0, minLength)
  {
    ghost var window := memory[..maxLength];
    var ptr := 0;
    while ptr < maxLength
      invariant ptr <= maxLength && Accepts(window, 0, minLength) == Accepts(window, ptr, minLength)
    {
      var ch := memory[ptr];
      if ch == NUL {
        return ptr >= minLength;
      }
      if ch >= 0x80 as char {
        if ch < 0xC0 as char {
          return false;
        }
        var continuationBytes := ContinuationBytes(ch);
        if continuationBytes == 0 || ptr + continuationBytes >= maxLength {
          return false;
        }
        ghost var lead := ptr;
        var i := 0;
        while i < continuationBytes
          invariant 0 <= i <= continuationBytes && ptr == lead + i && ptr < maxLength
          invariant Continued(window, lead + 1, i)
        {
          ptr := ptr + 1;
          if !IsContinuation(memory[ptr]) {
            assert !IsContinuation(window[ptr]);
            return false;
          }
          i := i + 1;
        }
      } else if ch < ' ' && !PrintableControl(ch) {
        return false;
      }
      ptr := ptr + 1;
    }
    return false;
  }

  predicate Printable(c: Scalar) {
    c >= 0x20 || c == 9 || c == 10 || c == 13
  }

  lemma Utf8Shape(c: Scalar)
    requires c != 0
    ensures var u := JsonDecoder.Utf8(c);
            && u[0] != NUL && (|u| == 1 <==> u[0] < 0x80 as char)
            && (|u| == 1 ==> (Printable(c) <==> u[0] >= ' ' || PrintableControl(u[0])))
            && (|u| > 1 ==> Printable(c) && u[0] >= 0xC0 as char && ContinuationBytes(u[0]) == |u| - 1)
            && (forall i :: 1 <= i < |u| ==> IsContinuation(u[i]))
  {
  }

  /** The acceptor at the UTF-8 of one code point. */
  lemma AcceptsOne(memory: string, p: nat, c: Scalar, minLength: int)
    requires c != 0 && At(memory, p, JsonDecoder.Utf8(c)) && p + |JsonDecoder.Utf8(c)| < |memory|
    ensures Accepts(memory, p, minLength) <==> Printable(c) && Accepts(memory, p + |JsonDecoder.Utf8(c)|, minLength)
  {
    hide JsonDecoder.Utf8, ContinuationBytes, PrintableControl, Printable;
    var u := JsonDecoder.Utf8(c);
    Utf8Shape(c);
    assert forall i :: p <= i < p + |u| ==> memory[i] == memory[p..p + |u|][i - p];
  }

  /** A NUL-terminated UTF-8 text without NUL is accepted exactly if all its characters
      are printable and it has the minimum length. */
  lemma {:induction false} AcceptsUtf8(memory: string, p: nat, cs: seq<Scalar>, minLength: int)
    requires 0 !in cs && At(memory, p, Utf8All(cs) + [NUL])
    ensures Accepts(memory, p, minLength) <==>
            (forall k :: 0 <= k < |cs| ==> Printable(cs[k])) && p + |Utf8All(cs)| >= minLength
    decreases |cs|
  {
    hide JsonDecoder.Utf8, Printable;
    AtConcat(memory, p, Utf8All(cs), [NUL]);
    if cs == [] {
      assert memory[p] == memory[p..p + 1][0];
    } else {
      var u := JsonDecoder.Utf8(cs[0]);
      var more := Utf8All(cs[1..]);
      assert Utf8All(cs) + [NUL] == u + (more + [NUL]);
      AtConcat(memory, p, u, more + [NUL]);
      AcceptsOne(memory, p, cs[0], minLength);
      AcceptsUtf8(memory, p + |u|, cs[1..], minLength);
      assert forall k :: 1 <= k < |cs| ==> cs[k] == cs[1..][k - 1];
      assert (forall k :: 0 <= k < |cs| ==> Printable(cs[k])) <==>
             Printable(cs[0]) && forall k :: 0 <= k < |cs[1..]| ==> Printable(cs[1..][k]);
    }
  }

  /** What the acceptor takes for one character: a printable ASCII byte, or a lead byte and
      the one to five continuation bytes it announces (section 3 of RFC 3629 has at most
      three, and excludes overlong forms and surrogates; the code does not). */
  predicate Acceptable(u: string) {
    if |u| == 1 then 0x20 <= u[0] as int < 0x80 || u[0] as int == 9 || u[0] as int == 10 || u[0] as int == 13
    else
      && 2 <= |u| <= 6
      && (if |u| == 2 then 0xC0 <= u[0] as int < 0xE0
          else if |u| == 3 then 0xE0 <= u[0] as int < 0xF0
          else if |u| == 4 then 0xF0 <= u[0] as int < 0xF8
          else if |u| == 5 then 0xF8 <= u[0] as int < 0xFC
          else 0xFC <= u[0] as int < 0xFE)
      && forall i :: 1 <= i < |u| ==> 0x80 <= u[i] as int < 0xC0
  }

  predicate AllAcceptable(us: seq<string>) {
    forall i :: 0 <= i < |us| ==> Acceptable(us[i])
  }

  function Flat(us: seq<string>): string {
    if us == [] then "" else us[0] + Flat(us[1..])
  }

  lemma AcceptableAt(memory: string, p: nat, u: string, minLength: int)
    requires Acceptable(u) && At(memory, p, u) && p + |u| < |memory| && memory[p + |u|] as int < 0x100
    ensures Accepts(memory, p, minLength) == Accepts(memory, p + |u|, minLength)
  {
    assert forall i :: p <= i < p + |u| ==> memory[i] == memory[p..p + |u|][i - p] == u[i - p];
  }

  lemma {:induction false} AcceptableAccepted(memory: string, p: nat, us: seq<string>, minLength: int)
    requires AllBytes(memory) && AllAcceptable(us) && At(memory, p, Flat(us) + [NUL]) && p + |Flat(us)| >= minLength
    ensures Accepts(memory, p, minLength)
    decreases |us|
  {
    hide Acceptable, Accepts;
    AtConcat(memory, p, Flat(us), [NUL]);
    if us == [] {
      EndAccepted(memory, p, minLength);
    } else {
      assert Flat(us) + [NUL] == us[0] + (Flat(us[1..]) + [NUL]);
      AtConcat(memory, p, us[0], Flat(us[1..]) + [NUL]);
      AcceptableAt(memory, p, us[0], minLength);
      AcceptableAccepted(memory, p + |us[0]|, us[1..], minLength);
    }
  }

  predicate AllBytes(memory: string) {
    forall i :: 0 <= i < |memory| ==> memory[i] as int < 0x100
  }

  lemma EndAccepted(memory: string, p: nat, minLength: int)
    requires At(memory, p, [NUL]) && p >= minLength
    ensures Accepts(memory, p, minLength)
  {
    assert memory[p] == memory[p..p + 1][0];
  }

  /** The character the acceptor takes at p, if it is not at the end. */
  lemma AcceptedFirst(memory: string, p: nat, minLength: int) returns (u: string)
    requires AllBytes(memory) && p < |memory| && memory[p] != NUL && Accepts(memory, p, minLength)
    ensures Acceptable(u) && At(memory, p, u) && p + |u| <= |memory| && Accepts(memory, p + |u|, minLength)
  {
    var n := if memory[p] >= 0x80 as char then 1 + ContinuationBytes(memory[p]) else 1;
    u := memory[p..p + n];
    assert forall i :: 0 <= i < n ==> u[i] == memory[p + i];
  }

  lemma {:induction false} AcceptedIsAcceptable(memory: string, p: nat, minLength: int) returns (us: seq<string>)
    requires AllBytes(memory) && p <= |memory| && Accepts(memory, p, minLength)
    ensures AllAcceptable(us) && At(memory, p, Flat(us) + [NUL]) && p + |Flat(us)| >= minLength
    decreases |memory| - p
  {
    hide Acceptable;
    us := [];
    if memory[p] == NUL {
      assert Flat([]) + [NUL] == [NUL];
    } else {
      var u := AcceptedFirst(memory, p, minLength);
      SomeBytes(u);
      var more := AcceptedIsAcceptable(memory, p + |u|, minLength);
      us := [u] + more;
      assert us[1..] == more;
      AtConcat(memory, p, u, Flat(more) + [NUL]);
      assert Flat(us) + [NUL] == u + (Flat(more) + [NUL]);
    }
  }

  lemma SomeBytes(u: string)
    requires Acceptable(u)
    ensures u != ""
  {
  }

  /** The bytes from p on are accepted if and only if acceptable characters and a NUL behind
      them stand there, and the NUL comes no earlier than minLength. */
  lemma AcceptsExactly(memory: string, p: nat, minLength: int)
    requires AllBytes(memory) && p <= |memory|
    ensures Accepts(memory, p, minLength) <==>
            exists us :: AllAcceptable(us) && At(memory, p, Flat(us) + [NUL]) && p + |Flat(us)| >= minLength
  {
    hide Accepts, AllAcceptable;
    if Accepts(memory, p, minLength) {
      var us := AcceptedIsAcceptable(memory, p, minLength);
    }
    forall us | AllAcceptable(us) && At(memory, p, Flat(us) + [NUL]) && p + |Flat(us)| >= minLength
      ensures Accepts(memory, p, minLength)
    {
      AcceptableAccepted(memory, p, us, minLength);
    }
  }

  /** Not all that is accepted is UTF-8: an overlong NUL, and a six-byte form. */
  lemma AcceptsMoreThanUtf8()
    ensures Accepts([0xC0 as char, 0x80 as char, NUL], 0, 2)
    ensures forall c: Scalar :: JsonDecoder.Utf8(c) != [0xC0 as char, 0x80 as char]
  {
    var u := [0xC0 as char, 0x80 as char];
    var memory := u + [NUL];
    assert memory == [0xC0 as char, 0x80 as char, NUL];
    assert Flat([u]) == u + Flat([]) == u by { assert [u][1..] == []; }
    assert memory[0..3] == memory;
    AcceptableAccepted(memory, 0, [u], 2);
  }

  /** What a conversion leaves in the buffer is accepted as a string exactly if it is
      printable and long enough. */
  lemma ConvertedIsAccepted(src: seq<CodeUnit>, cs: seq<Scalar>, room: nat, stale: string, minLength: int)
    requires 0 !in cs && HoldsUtf16(src, 0, cs)
    ensures AllReadable(src, 0, |Utf16All(cs)|)
    ensures var text := Converted(src, 0, |Utf16All(cs)|, room);
            var kept := cs[..Fitting(cs, room)];
            && text == Some(Utf8All(kept))
            && (Accepts(text.value + [NUL] + stale, 0, minLength) <==>
                (forall k :: 0 <= k < |kept| ==> Printable(kept[k])) && |Utf8All(kept)| >= minLength)
  {
    hide JsonDecoder.Utf8, Printable, Accepts, Converted, HoldsUtf16, Utf16All, Utf8All, Fitting;
    ConvertsLongestPrefix(src, 0, cs, room);
    var kept := cs[..Fitting(cs, room)];
    var memory := Utf8All(kept) + [NUL] + stale;
    assert memory[0..|Utf8All(kept)| + 1] == Utf8All(kept) + [NUL];
    assert 0 !in kept;
    AcceptsUtf8(memory, 0, kept, minLength);
  }
}
