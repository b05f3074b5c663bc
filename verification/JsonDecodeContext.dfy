/** KSJSONDecodeContext: the recursive decoder over a buffer, with the two work buffers
    it fills, shown to make the callbacks of the machine in JsonDecoder. */
module JsonDecodeContext {
  import opened JsonText
  import opened JsonDecoder

  // -------------------------------------------------- steps of the machine again

  lemma SkipTwice(buf: string, p: nat)
    requires p <= |buf|
    ensures SkipSpace(buf, SkipSpace(buf, p)) == SkipSpace(buf, p)
  {
  }

  /** Two places from which the same is read lead to the same callbacks. */
  lemma SameNext(h: Handler, c: Limits, k: Control, d: Dec, k': Control, d': Dec)
    requires Valid(d) && Valid(d') && d' == d.(ptr := d'.ptr)
    requires Running(k) && Running(k') && k.stack == k'.stack
    requires Next(c, k, d.buf, d.ptr) == Next(c, k', d'.buf, d'.ptr)
    ensures SameEnd(Run(h, c, k, d), Run(h, c, k', d'))
  {
    hide Next, Refill, Run, Fire, Advance;
    var next := Next(c, k, d.buf, d.ptr);
    if next.Bad? {
      StepFails(h, c, k, d, next.status);
      StepFails(h, c, k', d', next.status);
    } else {
      assert d.(ptr := next.end) == d'.(ptr := next.end);
      SameAdvance(k, k', next.event);
      StepMade(h, c, k, d, next.event, next.end);
      StepMade(h, c, k', d', next.event, next.end);
    }
  }

  lemma SameAdvance(k: Control, k': Control, ev: Event)
    requires k.stack == k'.stack
    ensures Advance(k, ev) == Advance(k', ev)
  {
  }

  lemma SpaceIrrelevant(h: Handler, c: Limits, k: Control, d: Dec)
    requires Valid(d) && Running(k)
    ensures Next(c, k, d.buf, SkipSpace(d.buf, d.ptr)) == Next(c, k, d.buf, d.ptr)
    ensures SameEnd(Run(h, c, k, d), Run(h, c, k, d.(ptr := SkipSpace(d.buf, d.ptr))))
  {
    hide DecodeString, Number, IsSpace, SkipSpace, Run;
    SkipTwice(d.buf, d.ptr);
    SameNext(h, c, k, d, k, d.(ptr := SkipSpace(d.buf, d.ptr)));
  }

  /** Behind an element, an optional comma leads back to the top of the loop. */
  lemma CommaSkipped(h: Handler, c: Limits, stack: seq<bool>, d: Dec)
    requires Valid(d) && |stack| > 0 && SkipSpace(d.buf, d.ptr) < |d.buf|
    ensures var q := SkipSpace(d.buf, d.ptr);
            SameEnd(Run(h, c, After(stack), d),
                    Run(h, c, Loop(stack), d.(ptr := if d.buf[q] == ',' then q + 1 else q)))
  {
    hide AtLoop, IsSpace, SkipSpace, Run;
    var q := SkipSpace(d.buf, d.ptr);
    SameNext(h, c, After(stack), d, Loop(stack), d.(ptr := if d.buf[q] == ',' then q + 1 else q));
  }

  /** One callback, successful or not. */
  lemma TakeStep(h: Handler, c: Limits, k: Control, d: Dec, ev: Event, end: nat, status: Status)
    requires Valid(d) && Running(k) && Next(c, k, d.buf, d.ptr) == Got(ev, end)
    requires status == h(d.fired + [ev])
    ensures var d1 := Fire(d.(ptr := end), ev);
            && Size(d1) < Size(d)
            && (status == Ok ==> Run(h, c, k, d) == Run(h, c, Advance(k, ev), d1))
            && (status != Ok ==> Run(h, c, k, d) == Outcome(d1, status))
  {
    hide Next, Refill, Advance, Run;
    StepMade(h, c, k, d, ev, end);
  }

  /** What a step reads at a character that is not white space. */
  lemma NextAt(c: Limits, k: Control, buf: string, p: nat)
    requires p < |buf| && !IsSpace(buf[p]) && Running(k)
    ensures k.Element? && buf[p] == '[' ==> Next(c, k, buf, p) == Got(Begin(false, k.name), p + 1)
    ensures k.Element? && buf[p] == '{' ==> Next(c, k, buf, p) == Got(Begin(true, k.name), p + 1)
    ensures k.Element? ==> Next(c, k, buf, p) == AtElement(c, k.name, buf, p)
    ensures k.Loop? && buf[p] == (if Top(k) then '}' else ']') ==> Next(c, k, buf, p) == Got(End, p + 1)
    ensures k.Loop? && buf[p] != (if Top(k) then '}' else ']') ==>
              Next(c, k, buf, p) == if Top(k) then AtMember(c, buf, p) else AtElement(c, None, buf, p)
  {
    hide AtMember, JsonDecoder.DecodeString, Number, Literal;
  }

  lemma NextAtEnd(c: Limits, k: Control, buf: string, p: nat)
    requires p <= |buf| && SkipSpace(buf, p) == |buf| && Running(k)
    ensures Next(c, k, buf, p) == Bad(Incomplete)
  {
    hide AtMember, JsonDecoder.DecodeString, Number, Literal;
  }

  /** An array's next element is decoded as an element without a name. */
  lemma IntoElement(h: Handler, c: Limits, stack: seq<bool>, d: Dec)
    requires Valid(d) && d.ptr < |d.buf| && !IsSpace(d.buf[d.ptr])
    requires |stack| > 0 && !stack[|stack| - 1] && d.buf[d.ptr] != ']'
    ensures Run(h, c, Loop(stack), d) == Run(h, c, Element(None, stack), d)
  {
    hide AtElement, AtMember, Refill;
    NextAt(c, Loop(stack), d.buf, d.ptr);
    NextAt(c, Element(None, stack), d.buf, d.ptr);
  }

  /** An object's next member is decoded as an element once its name has been read. */
  lemma IntoMember(h: Handler, c: Limits, stack: seq<bool>, d: Dec, name: string, end: nat)
    requires Valid(d) && d.ptr < |d.buf| && !IsSpace(d.buf[d.ptr])
    requires |stack| > 0 && stack[|stack| - 1] && d.buf[d.ptr] != '}'
    requires JsonDecoder.DecodeString(d.buf, d.ptr, c.nameLen) == StringOk(name, end)
    ensures var colon := SkipSpace(d.buf, end);
            && (colon == |d.buf| ==> Next(c, Loop(stack), d.buf, d.ptr) == Bad(Incomplete))
            && (colon < |d.buf| && d.buf[colon] != ':' ==> Next(c, Loop(stack), d.buf, d.ptr) == Bad(InvalidCharacter))
            && (colon < |d.buf| && d.buf[colon] == ':' ==>
                  SameEnd(Run(h, c, Loop(stack), d),
                          Run(h, c, Element(Some(CStr(name)), stack), d.(ptr := SkipSpace(d.buf, colon + 1)))))
  {
    hide AtElement, Refill, CStr, JsonDecoder.DecodeString, IsSpace, SkipSpace, Run, AtLoop;
    NextAt(c, Loop(stack), d.buf, d.ptr);
    var colon := SkipSpace(d.buf, end);
    if colon < |d.buf| && d.buf[colon] == ':' {
      SameNext(h, c, Loop(stack), d, Element(Some(CStr(name)), stack), d.(ptr := SkipSpace(d.buf, colon + 1)));
    }
  }

  lemma CStrOfBuffer(s: string, rest: string)
    ensures CStr(s + [NUL] + rest) == CStr(s)
    decreases |s|
  {
    var all := s + [NUL] + rest;
    if s != "" && s[0] != NUL {
      assert all[1..] == s[1..] + [NUL] + rest;
      CStrOfBuffer(s[1..], rest);
    }
  }

  lemma UnescapeRaw(buf: string, i: nat, q: nat)
    requires i <= q < |buf| && forall j :: i <= j < q ==> buf[j] != '\\'
    ensures Unescape(buf, i, q) == Text(buf[i..q])
    decreases q - i
  {
    if i < q {
      UnescapeRaw(buf, i + 1, q);
      assert [buf[i]] + buf[i + 1..q] == buf[i..q];
    }
  }

  /** The text unescaped so far, followed by what is still to come. */
  function Onward(done: string, tail: Unescaped): Unescaped {
    Prepend(done, tail)
  }

  lemma PrependTwice(a: string, b: string, tail: Unescaped)
    ensures Prepend(a, Prepend(b, tail)) == Prepend(a + b, tail)
  {
    if tail.Text? {
      assert a + (b + tail.s) == a + b + tail.s;
    }
  }

  lemma BracketIsNoSpace(c: char)
    requires c == '[' || c == '{'
    ensures !IsSpace(c)
  {
  }

  class DecodeContext {
    const buffer: array<char>
    var bufferPtr: nat
    const nameBuffer: array<char>
    const stringBuffer: array<char>
    /** What reads of the file will deliver, up to the first short or failed one. */
    var rest: string
    var isEOF: bool
    /** The callbacks made so far and the codes they return. */
    var fired: seq<Event>
    const callbacks: Handler

    ghost predicate Valid()
      reads this
    {
      && bufferPtr <= buffer.Length
      && nameBuffer != stringBuffer && buffer != nameBuffer && buffer != stringBuffer
      && nameBuffer.Length > 0 && stringBuffer.Length > 0
    }

    ghost function Model(): Dec
      reads this, buffer
    {
      Dec(buffer[..], bufferPtr, rest, isEOF, fired)
    }

    ghost function Lens(): Limits
      reads this
    {
      Limits(nameBuffer.Length, stringBuffer.Length)
    }

    constructor InMemory(data: string, nameLen: nat, stringLen: nat, callbacks: Handler)
      requires nameLen > 0 && stringLen > 0
      ensures Valid() && Model() == JsonDecoder.InMemory(data) && Lens() == Limits(nameLen, stringLen)
      ensures fresh(buffer) && fresh(nameBuffer) && fresh(stringBuffer) && this.callbacks == callbacks
    {
      buffer := new char[|data|](i requires 0 <= i < |data| => data[i]);
      bufferPtr := 0;
      nameBuffer := new char[nameLen](_ => NUL);
      stringBuffer := new char[stringLen](_ => NUL);
      rest := "";
      isEOF := true;
      fired := [];
      this.callbacks := callbacks;
      new;
      assert buffer[..] == data;
    }

    method SkipWhitespace()
      requires Valid()
      modifies this`bufferPtr
      ensures Valid() && bufferPtr == SkipSpace(buffer[..], old(bufferPtr))
      ensures Size(Model()) <= old(Size(Model()))
    {
      while bufferPtr < buffer.Length && IsSpace(buffer[bufferPtr])
        invariant old(bufferPtr) <= bufferPtr <= buffer.Length
        invariant SkipSpace(buffer[..], old(bufferPtr)) == SkipSpace(buffer[..], bufferPtr)
        decreases buffer.Length - bufferPtr
      {
        bufferPtr := bufferPtr + 1;
      }
    }

    /** The position of the closing quote and whether nothing before it is escaped. */
    method FindQuote(from: nat) returns (src: nat, fastCopy: bool)
      requires from <= buffer.Length
      ensures src == ScanQuote(buffer[..], from)
      ensures fastCopy && src < buffer.Length ==> forall j :: from <= j < src ==> buffer[j] != '\\'
    {
      src, fastCopy := from, true;
      while src < buffer.Length && buffer[src] != '\"'
        invariant from <= src <= buffer.Length + 1
        invariant ScanQuote(buffer[..], from) == ScanQuote(buffer[..], src)
        invariant fastCopy ==> src <= buffer.Length && forall j :: from <= j < src ==> buffer[j] != '\\'
        decreases buffer.Length + 1 - src
      {
        if buffer[src] == '\\' {
          fastCopy := false;
          src := src + 1;
        }
        src := src + 1;
      }
    }

    /** writeUTF8. */
    static method WriteUtf8(character: nat, dst: array<char>, at: nat) returns (next: nat)
      requires character <= 0x10FFFF && at + |Utf8(character)| <= dst.Length
      modifies dst
      ensures next == at + |Utf8(character)| && dst[..next] == old(dst[..at]) + Utf8(character)
    {
      if character <= 0x7F {
        dst[at] := character as char;
        next := at + 1;
      } else if character <= 0x7FF {
        dst[at] := (0xC0 + character / 64) as char;
        dst[at + 1] := (0x80 + character % 64) as char;
        next := at + 2;
      } else if character <= 0xFFFF {
        dst[at] := (0xE0 + character / 4096) as char;
        dst[at + 1] := (0x80 + character / 64 % 64) as char;
        dst[at + 2] := (0x80 + character % 64) as char;
        next := at + 3;
      } else {
        dst[at] := (0xF0 + character / 262144) as char;
        dst[at + 1] := (0x80 + character / 4096 % 64) as char;
        dst[at + 2] := (0x80 + character / 64 % 64) as char;
        dst[at + 3] := (0x80 + character % 64) as char;
        next := at + 4;
      }
      assert dst[..at] == old(dst[..at]);
    }

    /** The escaped path of decodeString: source position i to the closing quote at q. */
    method CopyUnescaped(from: nat, q: nat, dst: array<char>) returns (status: Status, length: nat)
      requires from <= q < buffer.Length && dst != buffer && q - from < dst.Length
      modifies dst
      ensures status != Ok ==> Unescape(buffer[..], from, q) == Malformed(status)
      ensures status == Ok ==>
                && length < dst.Length && dst[length] == NUL
                && Unescape(buffer[..], from, q) == Text(dst[..length])
    {
      hide Utf8, Hex4, SimpleEscape, SimpleEscapeValue, UnicodeEscape, Unescape, Prepend;
      var src := from;
      length := 0;
      assert dst[..0] == "";
      assert Prepend("", Unescape(buffer[..], from, q)) == Unescape(buffer[..], from, q) by {
        NothingDone(Unescape(buffer[..], from, q));
      }
      while src < q
        invariant from <= src <= q + 1 && length <= (if src <= q then src else q) - from
        invariant Unescape(buffer[..], from, q) == Prepend(dst[..length], Unescape(buffer[..], src, q))
        decreases q + 1 - src
      {
        ghost var done := dst[..length];
        UnescapeTurn(buffer[..], src, q, done);
        if buffer[src] != '\\' {
          PrependTwice(done, [buffer[src]], Unescape(buffer[..], src + 1, q));
          dst[length] := buffer[src];
          assert dst[..length + 1] == done + [buffer[src]];
          src, length := src + 1, length + 1;
        } else if SimpleEscape(buffer[src + 1]) {
          var c := SimpleEscapeValue(buffer[src + 1]);
          PrependTwice(done, [c], Unescape(buffer[..], src + 2, q));
          dst[length] := c;
          assert dst[..length + 1] == done + [c];
          src, length := src + 2, length + 1;
        } else if buffer[src + 1] != 'u' {
          return InvalidCharacter, length;
        } else {
          var s, character, used := ReadUnicodeEscape(src, q);
          if s != Ok {
            return s, length;
          }
          PrependTwice(done, Utf8(character), Unescape(buffer[..], src + used, q));
          length := WriteUtf8(character, dst, length);
          src := src + used;
        }
      }
      UnescapeDone(buffer[..], src, q, dst[..length]);
      dst[length] := NUL;
      return Ok, length;
    }

    static lemma UnescapeDone(buf: string, i: nat, q: nat, done: string)
      requires q <= i && q < |buf|
      ensures Prepend(done, Unescape(buf, i, q)) == Text(done)
    {
      assert done + "" == done;
    }

    /** One turn of the loop above. */
    static lemma UnescapeTurn(buf: string, i: nat, q: nat, done: string)
      requires i < q < |buf|
      ensures buf[i] != '\\' ==> Unescape(buf, i, q) == Prepend([buf[i]], Unescape(buf, i + 1, q))
      ensures buf[i] == '\\' && SimpleEscape(buf[i + 1]) ==>
                Unescape(buf, i, q) == Prepend([SimpleEscapeValue(buf[i + 1])], Unescape(buf, i + 2, q))
      ensures buf[i] == '\\' && !SimpleEscape(buf[i + 1]) && buf[i + 1] != 'u' ==>
                Prepend(done, Unescape(buf, i, q)) == Malformed(InvalidCharacter)
      ensures buf[i] == '\\' && buf[i + 1] == 'u' ==>
                match UnicodeEscape(buf, i, q)
                case NoUnit(status) => Prepend(done, Unescape(buf, i, q)) == Malformed(status)
                case Unit(text, length) => Unescape(buf, i, q) == Prepend(text, Unescape(buf, i + length, q))
    {
      hide Utf8, Hex4, SimpleEscapeValue, UnicodeEscape;
    }

    static lemma NothingDone(tail: Unescaped)
      ensures Prepend("", tail) == tail
    {
    }

    /** A \u escape: its code point and the number of source characters. */
    method ReadUnicodeEscape(src: nat, q: nat) returns (status: Status, character: nat, used: nat)
      requires src < q < buffer.Length
      ensures status != Ok ==> UnicodeEscape(buffer[..], src, q) == NoUnit(status)
      ensures status == Ok ==> character <= 0x10FFFF && UnicodeEscape(buffer[..], src, q) == Unit(Utf8(character), used)
    {
      hide Utf8, HexDigit;
      character, used := 0, 0;
      if src + 6 > q {
        return Incomplete, character, used;
      }
      var accum := Hex4(buffer[..], src + 2);
      if accum < 0 || 0xDC00 <= accum <= 0xDFFF {
        return InvalidCharacter, character, used;
      }
      if accum < 0xD800 || 0xDBFF < accum {
        return Ok, accum, 6;
      }
      if src + 12 > q {
        return Incomplete, character, used;
      }
      if buffer[src + 6] != '\\' || buffer[src + 7] != 'u' {
        return InvalidCharacter, character, used;
      }
      var accum2 := Hex4(buffer[..], src + 8);
      if accum2 < 0xDC00 || accum2 > 0xDFFF {
        return InvalidCharacter, character, used;
      }
      return Ok, (accum - 0xD800) * 1024 + (accum2 - 0xDC00), 12;
    }

    /** decodeString: on success the destination holds the value and a NUL, all within
        its bounds. */
    method DecodeString(dst: array<char>) returns (status: Status, length: nat)
      requires Valid() && bufferPtr < buffer.Length && dst != buffer && dst.Length > 0
      modifies this`bufferPtr, dst
      ensures Valid()
      ensures status != Ok ==>
                JsonDecoder.DecodeString(buffer[..], old(bufferPtr), dst.Length) == StringBad(status)
      ensures status == Ok ==>
                && length < dst.Length && dst[length] == NUL
                && JsonDecoder.DecodeString(buffer[..], old(bufferPtr), dst.Length) ==
                   StringOk(dst[..length], bufferPtr)
    {
      hide ScanQuote, Unescape;
      ghost var text := buffer[..];
      length := 0;
      dst[0] := NUL;
      assert buffer[..] == text;
      if buffer[bufferPtr] != '\"' {
        return InvalidCharacter, length;
      }
      var from := bufferPtr + 1;
      var srcEnd, fastCopy := FindQuote(from);
      if srcEnd >= buffer.Length {
        return Incomplete, length;
      }
      if srcEnd - from >= dst.Length {
        return DataTooLong, length;
      }
      bufferPtr := srcEnd + 1;
      if fastCopy {
        length := srcEnd - from;
        forall i | 0 <= i < length {
          dst[i] := buffer[from + i];
        }
        dst[length] := NUL;
        UnescapeRaw(buffer[..], from, srcEnd);
        assert dst[..length] == buffer[..][from..srcEnd];
        assert Unescape(buffer[..], from, srcEnd) == Text(dst[..length]);
        assert buffer[..] == text;
        return Ok, length;
      }
      status, length := CopyUnescaped(from, srcEnd, dst);
    }

    /** updateDecoder_readFile. */
    method UpdateDecoder()
      requires Valid()
      modifies this`bufferPtr, this`rest, this`isEOF, buffer
      ensures Valid() && Model() == Refill(old(Model()))
    {
      if isEOF {
        return;
      }
      var remaining := buffer.Length - bufferPtr;
      if remaining >= buffer.Length / 2 {
        return;
      }
      var ptr := bufferPtr;
      var n := if |rest| < ptr then |rest| else ptr;
      SlideAndRead(ptr, n);
      isEOF := n < ptr;
      bufferPtr, rest := 0, rest[n..];
    }

    /** The unread bytes in front, and n bytes of the file behind them. */
    method SlideAndRead(ptr: nat, n: nat)
      requires ptr <= buffer.Length && n <= ptr && n <= |rest| && buffer.Length - ptr <= ptr
      modifies buffer
      ensures buffer[..] == old(buffer[ptr..]) + rest[..n] + old(buffer[buffer.Length - ptr + n..])
    {
      var remaining := buffer.Length - ptr;
      forall i | 0 <= i < remaining {
        buffer[i] := buffer[ptr + i];
      }
      forall i | 0 <= i < n {
        buffer[remaining + i] := rest[i];
      }
    }

    /** A callback, and the refill behind it. */
    method Callback(ev: Event) returns (status: Status)
      requires Valid()
      modifies this`bufferPtr, this`rest, this`isEOF, this`fired, buffer
      ensures Valid() && Model() == Fire(old(Model()), ev) && status == callbacks(fired)
    {
      fired := fired + [ev];
      status := callbacks(fired);
      UpdateDecoder();
    }

    /** The number cases of decodeElement, from the first digit on. */
    method ScanNumber(name: Option<string>, negative: bool) returns (status: Status, ev: Event)
      requires Valid() && bufferPtr < buffer.Length && IsDigit(buffer[bufferPtr])
      modifies this`bufferPtr, stringBuffer
      ensures Valid()
      ensures status != Ok ==> Number(Lens(), name, buffer[..], old(bufferPtr), negative) == Bad(status)
      ensures status == Ok ==>
              Number(Lens(), name, buffer[..], old(bufferPtr), negative) == Got(ev, bufferPtr) && ev.Scalar?
    {
      hide IsFPChar, IsDigit, DigitLoop, ScanFP;
      var start := bufferPtr;
      ghost var text := buffer[..];
      ev := End;
      var accum, isOverflow := ScanDigits();
      if bufferPtr >= buffer.Length {
        return Incomplete, ev;
      }
      if !IsFPChar(buffer[bufferPtr]) && !isOverflow {
        if !negative {
          return Ok, Scalar(name, if accum <= INT64_MAX then IntV(accum) else UIntV(accum));
        }
        if accum <= INT64_MAX + 1 {
          return Ok, Scalar(name, IntV(0 - accum));
        }
      }
      ScanFloat();
      if bufferPtr >= buffer.Length {
        return Incomplete, ev;
      }
      var len := bufferPtr - start;
      if len >= stringBuffer.Length {
        return DataTooLong, ev;
      }
      forall i | 0 <= i < len {
        stringBuffer[i] := buffer[start + i];
      }
      stringBuffer[len] := NUL;
      assert buffer[..] == text;
      assert stringBuffer[..len] == text[start..bufferPtr];
      return Ok, Scalar(name, FloatV(negative, stringBuffer[..len]));
    }

    /** The digit loop: 64-bit accumulation with both overflow tests. */
    method ScanDigits() returns (accum: nat, isOverflow: bool)
      requires Valid() && bufferPtr < buffer.Length
      modifies this`bufferPtr
      ensures Valid()
      ensures DigitLoop(buffer[..], old(bufferPtr), 0) == Accumulated(accum, bufferPtr, isOverflow)
    {
      accum, isOverflow := 0, false;
      while bufferPtr < buffer.Length && IsDigit(buffer[bufferPtr])
        invariant old(bufferPtr) <= bufferPtr <= buffer.Length && accum <= UINT64_MAX && !isOverflow
        invariant DigitLoop(buffer[..], old(bufferPtr), 0) == DigitLoop(buffer[..], bufferPtr, accum)
        decreases buffer.Length - bufferPtr
      {
        isOverflow := accum > UINT64_MAX / 10;
        if isOverflow {
          return;
        }
        var nextDigit := buffer[bufferPtr] as int - '0' as int;
        isOverflow := accum * 10 > UINT64_MAX - nextDigit;
        if isOverflow {
          accum := accum * 10;
          return;
        }
        accum := accum * 10 + nextDigit;
        bufferPtr := bufferPtr + 1;
      }
    }

    method ScanFloat()
      requires Valid()
      modifies this`bufferPtr
      ensures Valid() && bufferPtr == ScanFP(buffer[..], old(bufferPtr))
    {
      while bufferPtr < buffer.Length && IsFPChar(buffer[bufferPtr])
        invariant old(bufferPtr) <= bufferPtr <= buffer.Length
        invariant ScanFP(buffer[..], old(bufferPtr)) == ScanFP(buffer[..], bufferPtr)
        decreases buffer.Length - bufferPtr
      {
        bufferPtr := bufferPtr + 1;
      }
    }

    /** What a callee sees of a buffer in which a string of this length ends. */
    static method ReadCString(buf: array<char>, ghost length: nat) returns (s: string)
      requires length < buf.Length && buf[length] == NUL
      ensures s == CStr(buf[..length])
    {
      CStrOfBuffer(buf[..length], buf[length + 1..]);
      assert buf[..] == buf[..length] + [NUL] + buf[length + 1..];
      s := CStr(buf[..]);
    }

    /** The scalar cases of decodeElement at a character that is not white space. */
    method ReadScalar(name: Option<string>) returns (status: Status, ev: Event)
      requires Valid() && bufferPtr < buffer.Length && !IsSpace(buffer[bufferPtr])
      requires buffer[bufferPtr] != '[' && buffer[bufferPtr] != '{'
      modifies this`bufferPtr, stringBuffer
      ensures Valid()
      ensures status != Ok ==> AtElement(Lens(), name, buffer[..], old(bufferPtr)) == Bad(status)
      ensures status == Ok ==> AtElement(Lens(), name, buffer[..], old(bufferPtr)) == Got(ev, bufferPtr) && ev.Scalar?
    {
      hide JsonDecoder.DecodeString, Number, IsDigit, IsSpace, Literal, CStr;
      ev := End;
      ghost var text := buffer[..];
      assert SkipSpace(text, bufferPtr) == bufferPtr;
      var ch := buffer[bufferPtr];
      if ch == '\"' {
        var length;
        status, length := DecodeString(stringBuffer);
        if status == Ok {
          var s := ReadCString(stringBuffer, length);
          ev := Scalar(name, StrV(s));
        }
        assert buffer[..] == text;
      } else if ch == 'f' {
        status, ev := ReadWord(name, "false", BoolV(false));
      } else if ch == 't' {
        status, ev := ReadWord(name, "true", BoolV(true));
      } else if ch == 'n' {
        status, ev := ReadWord(name, "null", NullV);
      } else if ch == '-' {
        bufferPtr := bufferPtr + 1;
        if bufferPtr >= buffer.Length || !IsDigit(buffer[bufferPtr]) {
          return InvalidCharacter, ev;
        }
        status, ev := ScanNumber(name, true);
        assert buffer[..] == text;
      } else if IsDigit(ch) {
        status, ev := ScanNumber(name, false);
        assert buffer[..] == text;
      } else {
        status := InvalidCharacter;
      }
    }

    method ReadWord(name: Option<string>, word: string, v: Value) returns (status: Status, ev: Event)
      requires Valid() && bufferPtr < buffer.Length
      modifies this`bufferPtr
      ensures Valid()
      ensures status != Ok ==> Literal(name, buffer[..], old(bufferPtr), word, v) == Bad(status)
      ensures status == Ok ==> Literal(name, buffer[..], old(bufferPtr), word, v) == Got(ev, bufferPtr) && ev.Scalar?
    {
      ev := Scalar(name, v);
      if buffer.Length - bufferPtr < |word| {
        return Incomplete, ev;
      }
      if buffer[bufferPtr..bufferPtr + |word|] != word {
        return InvalidCharacter, ev;
      }
      bufferPtr := bufferPtr + |word|;
      return Ok, ev;
    }

    /** The opening bracket of a container and its callback. */
    method BeginContainer(name: Option<string>, ghost stack: seq<bool>) returns (status: Status, isObject: bool)
      requires Valid() && bufferPtr < buffer.Length && (buffer[bufferPtr] == '[' || buffer[bufferPtr] == '{')
      modifies this`bufferPtr, this`rest, this`isEOF, this`fired, buffer
      ensures Valid() && isObject == old(buffer[bufferPtr] == '{') && Size(Model()) < old(Size(Model()))
      ensures status == Ok ==>
                SameEnd(Run(callbacks, Lens(), Element(name, stack), old(Model())),
                        Run(callbacks, Lens(), Loop(stack + [isObject]), Model()))
      ensures status != Ok ==>
                var r := Run(callbacks, Lens(), Element(name, stack), old(Model()));
                r.status == status && r.dec.fired == fired
    {
      hide Run, Refill, Next, AtElement, IsSpace, SkipSpace;
      ghost var d := Model();
      ghost var k := Element(name, stack);
      isObject := buffer[bufferPtr] == '{';
      assert !IsSpace(buffer[bufferPtr]) by { BracketIsNoSpace(buffer[bufferPtr]); }
      NextAt(Lens(), k, d.buf, d.ptr);
      var ev := Begin(isObject, name);
      bufferPtr := bufferPtr + 1;
      status := Callback(ev);
      TakeStep(callbacks, Lens(), k, d, ev, d.ptr + 1, status);
    }

    /** A scalar and its callback. */
    method FinishScalar(name: Option<string>, ghost stack: seq<bool>) returns (status: Status)
      requires Valid() && bufferPtr < buffer.Length && !IsSpace(buffer[bufferPtr])
      requires buffer[bufferPtr] != '[' && buffer[bufferPtr] != '{'
      modifies this`bufferPtr, this`rest, this`isEOF, this`fired, buffer, stringBuffer
      ensures Valid() && (status == Ok ==> Size(Model()) < old(Size(Model())))
      ensures status == Ok ==>
                SameEnd(Run(callbacks, Lens(), Element(name, stack), old(Model())),
                        Run(callbacks, Lens(), After(stack), Model()))
      ensures status != Ok ==>
                var r := Run(callbacks, Lens(), Element(name, stack), old(Model()));
                r.status == status && r.dec.fired == fired
    {
      hide Run, Refill, Next, AtElement, IsSpace, SkipSpace;
      ghost var d := Model();
      ghost var k := Element(name, stack);
      NextAt(Lens(), k, d.buf, d.ptr);
      var ev;
      status, ev := ReadScalar(name);
      assert buffer[..] == d.buf;
      if status != Ok {
        StepFails(callbacks, Lens(), k, d, status);
        return;
      }
      ghost var end := bufferPtr;
      assert Model() == d.(ptr := end);
      status := Callback(ev);
      assert Advance(k, ev) == After(stack);
      TakeStep(callbacks, Lens(), k, d, ev, end, status);
    }

    /** decodeElement.  On success the run from here continues behind the element; on
        failure it ends here, with the same callbacks made. */
    method DecodeElement(name: Option<string>, ghost stack: seq<bool>) returns (status: Status)
      requires Valid()
      modifies this`bufferPtr, this`rest, this`isEOF, this`fired, buffer, nameBuffer, stringBuffer
      ensures Valid() && (status == Ok ==> Size(Model()) < old(Size(Model())))
      ensures status == Ok ==>
                SameEnd(Run(callbacks, Lens(), Element(name, stack), old(Model())),
                        Run(callbacks, Lens(), After(stack), Model()))
      ensures status != Ok ==>
                var r := Run(callbacks, Lens(), Element(name, stack), old(Model()));
                r.status == status && r.dec.fired == fired
      decreases Size(Model()), 0
    {
      hide Run, Refill, Next, AtElement, IsSpace, SkipSpace;
      ghost var k := Element(name, stack);
      SpaceIrrelevant(callbacks, Lens(), k, Model());
      SkipWhitespace();
      if bufferPtr >= buffer.Length {
        NextAtEnd(Lens(), k, buffer[..], bufferPtr);
        StepFails(callbacks, Lens(), k, Model(), Incomplete);
        return Incomplete;
      }
      if buffer[bufferPtr] == '[' || buffer[bufferPtr] == '{' {
        var isObject;
        status, isObject := BeginContainer(name, stack);
        if status != Ok {
          return;
        }
        ghost var inner := stack + [isObject];
        assert inner[..|inner| - 1] == stack;
        if isObject {
          status := DecodeMembers(inner);
        } else {
          status := DecodeItems(inner);
        }
      } else {
        status := FinishScalar(name, stack);
      }
    }

    /** The loop over the elements of an array. */
    method DecodeItems(ghost stack: seq<bool>) returns (status: Status)
      requires Valid() && |stack| > 0 && !stack[|stack| - 1]
      modifies this`bufferPtr, this`rest, this`isEOF, this`fired, buffer, nameBuffer, stringBuffer
      ensures Valid() && (status == Ok ==> Size(Model()) < old(Size(Model())))
      ensures status == Ok ==>
                SameEnd(Run(callbacks, Lens(), Loop(stack), old(Model())),
                        Run(callbacks, Lens(), After(stack[..|stack| - 1]), Model()))
      ensures status != Ok ==>
                var r := Run(callbacks, Lens(), Loop(stack), old(Model()));
                r.status == status && r.dec.fired == fired
      decreases Size(Model()), 1
    {
      hide Run, Refill, Next, AtElement, IsSpace, SkipSpace, Size;
      ghost var k := Loop(stack);
      while bufferPtr < buffer.Length
        invariant Valid() && Size(Model()) <= old(Size(Model()))
        invariant SameEnd(Run(callbacks, Lens(), k, old(Model())), Run(callbacks, Lens(), k, Model()))
        decreases Size(Model())
      {
        SpaceIrrelevant(callbacks, Lens(), k, Model());
        SkipWhitespace();
        if bufferPtr >= buffer.Length {
          break;
        }
        ghost var d := Model();
        NextAt(Lens(), k, d.buf, d.ptr);
        if buffer[bufferPtr] == ']' {
          bufferPtr := bufferPtr + 1;
          status := Callback(End);
          TakeStep(callbacks, Lens(), k, d, End, d.ptr + 1, status);
          return;
        }
        IntoElement(callbacks, Lens(), stack, d);
        status := DecodeElement(None, stack);
        if status != Ok {
          return;
        }
        status := SkipComma(stack);
        if status != Ok {
          return;
        }
      }
      NextAtEnd(Lens(), k, Model().buf, Model().ptr);
      StepFails(callbacks, Lens(), k, Model(), Incomplete);
      return Incomplete;
    }

    /** Behind an element: white space and an optional comma. */
    method SkipComma(ghost stack: seq<bool>) returns (status: Status)
      requires Valid() && |stack| > 0
      modifies this`bufferPtr
      ensures Valid() && Size(Model()) <= old(Size(Model()))
      ensures status == Ok ==>
                SameEnd(Run(callbacks, Lens(), After(stack), old(Model())),
                        Run(callbacks, Lens(), Loop(stack), Model()))
      ensures status != Ok ==>
                var r := Run(callbacks, Lens(), After(stack), old(Model()));
                r.status == status && r.dec.fired == fired
    {
      hide Run, Refill, Next, IsSpace, SkipSpace;
      ghost var d := Model();
      SkipWhitespace();
      if bufferPtr >= buffer.Length {
        NextAtEnd(Lens(), After(stack), d.buf, d.ptr);
        StepFails(callbacks, Lens(), After(stack), d, Incomplete);
        return Incomplete;
      }
      CommaSkipped(callbacks, Lens(), stack, d);
      if buffer[bufferPtr] == ',' {
        bufferPtr := bufferPtr + 1;
      }
      return Ok;
    }

    /** A member's name and colon; the name is left in the name buffer. */
    method DecodeName(ghost stack: seq<bool>) returns (status: Status, name: string)
      requires Valid() && |stack| > 0 && stack[|stack| - 1]
      requires bufferPtr < buffer.Length && !IsSpace(buffer[bufferPtr]) && buffer[bufferPtr] != '}'
      modifies this`bufferPtr, nameBuffer
      ensures Valid() && (status == Ok ==> Size(Model()) < old(Size(Model())))
      ensures status == Ok ==>
                SameEnd(Run(callbacks, Lens(), Loop(stack), old(Model())),
                        Run(callbacks, Lens(), Element(Some(name), stack), Model()))
      ensures status != Ok ==>
                var r := Run(callbacks, Lens(), Loop(stack), old(Model()));
                r.status == status && r.dec.fired == fired
    {
      hide Run, Refill, Next, IsSpace, SkipSpace, JsonDecoder.DecodeString, CStr;
      ghost var d := Model();
      var length;
      name := "";
      status, length := DecodeString(nameBuffer);
      assert buffer[..] == d.buf;
      if status != Ok {
        NameFails(Lens(), stack, d, status);
        StepFails(callbacks, Lens(), Loop(stack), d, status);
        return;
      }
      ghost var v := nameBuffer[..length];
      name := ReadCString(nameBuffer, length);
      IntoMember(callbacks, Lens(), stack, d, v, bufferPtr);
      status := ReadColon();
      if status != Ok {
        StepFails(callbacks, Lens(), Loop(stack), d, status);
        return;
      }
      assert Model() == d.(ptr := bufferPtr);
    }

    /** The colon behind a name, with the white space around it. */
    method ReadColon() returns (status: Status)
      requires Valid()
      modifies this`bufferPtr
      ensures Valid() && bufferPtr >= old(bufferPtr)
      ensures var colon := SkipSpace(buffer[..], old(bufferPtr));
              status == if colon == buffer.Length then Incomplete
                        else if buffer[colon] != ':' then InvalidCharacter
                        else Ok
      ensures status == Ok ==> bufferPtr == SkipSpace(buffer[..], SkipSpace(buffer[..], old(bufferPtr)) + 1)
    {
      hide SkipSpace, IsSpace;
      SkipWhitespace();
      if bufferPtr >= buffer.Length {
        return Incomplete;
      }
      if buffer[bufferPtr] != ':' {
        return InvalidCharacter;
      }
      bufferPtr := bufferPtr + 1;
      SkipWhitespace();
      return Ok;
    }

    static lemma NameFails(c: Limits, stack: seq<bool>, d: Dec, status: Failure)
      requires JsonDecoder.Valid(d) && d.ptr < |d.buf| && !IsSpace(d.buf[d.ptr])
      requires |stack| > 0 && stack[|stack| - 1] && d.buf[d.ptr] != '}'
      requires JsonDecoder.DecodeString(d.buf, d.ptr, c.nameLen) == StringBad(status)
      ensures Next(c, Loop(stack), d.buf, d.ptr) == Bad(status)
    {
      hide AtElement;
      NextAt(c, Loop(stack), d.buf, d.ptr);
    }

    /** The loop over the members of an object. */
    method DecodeMembers(ghost stack: seq<bool>) returns (status: Status)
      requires Valid() && |stack| > 0 && stack[|stack| - 1]
      modifies this`bufferPtr, this`rest, this`isEOF, this`fired, buffer, nameBuffer, stringBuffer
      ensures Valid() && (status == Ok ==> Size(Model()) < old(Size(Model())))
      ensures status == Ok ==>
                SameEnd(Run(callbacks, Lens(), Loop(stack), old(Model())),
                        Run(callbacks, Lens(), After(stack[..|stack| - 1]), Model()))
      ensures status != Ok ==>
                var r := Run(callbacks, Lens(), Loop(stack), old(Model()));
                r.status == status && r.dec.fired == fired
      decreases Size(Model()), 1
    {
      hide Run, Refill, Next, AtElement, IsSpace, SkipSpace, Size;
      ghost var k := Loop(stack);
      while bufferPtr < buffer.Length
        invariant Valid() && Size(Model()) <= old(Size(Model()))
        invariant SameEnd(Run(callbacks, Lens(), k, old(Model())), Run(callbacks, Lens(), k, Model()))
        decreases Size(Model())
      {
        SpaceIrrelevant(callbacks, Lens(), k, Model());
        SkipWhitespace();
        if bufferPtr >= buffer.Length {
          break;
        }
        ghost var d := Model();
        NextAt(Lens(), k, d.buf, d.ptr);
        if buffer[bufferPtr] == '}' {
          bufferPtr := bufferPtr + 1;
          status := Callback(End);
          TakeStep(callbacks, Lens(), k, d, End, d.ptr + 1, status);
          return;
        }
        var name;
        status, name := DecodeName(stack);
        if status != Ok {
          return;
        }
        status := DecodeElement(Some(name), stack);
        if status != Ok {
          return;
        }
        status := SkipComma(stack);
        if status != Ok {
          return;
        }
      }
      NextAtEnd(Lens(), k, Model().buf, Model().ptr);
      StepFails(callbacks, Lens(), k, Model(), Incomplete);
      return Incomplete;
    }

    /** ksjson_decode: the callbacks made and the result are those of the machine. */
    method Decode() returns (status: Status)
      requires Valid()
      modifies this`bufferPtr, this`rest, this`isEOF, this`fired, buffer, nameBuffer, stringBuffer
      ensures var r := Run(callbacks, Lens(), ROOT, old(Model()));
              r.status == status && r.dec.fired == fired
    {
      status := DecodeElement(None, []);
    }
  }
}
