/** Files that break off: behind their end the window still holds older bytes, and the
    decoder reads on into them. */
module JsonStale {
  import opened JsonText
  import opened JsonDecoder
  import opened JsonWindow

  // ------------------------------------------- a step depends on what lies ahead only

  /** From p on m holds what w holds from q on, up to the end of both. */
  predicate Same(m: string, p: nat, w: string, q: nat) {
    |m| - p == |w| - q && forall i :: p <= i < |m| ==> m[i] == w[i - p + q]
  }

  lemma {:induction false} SkipSpaceSame(m: string, p: nat, w: string, q: nat)
    requires p <= |m| && q <= |w| && Same(m, p, w, q)
    ensures SkipSpace(w, q) - q == SkipSpace(m, p) - p
    ensures Same(m, SkipSpace(m, p), w, SkipSpace(w, q))
    decreases |m| - p
  {
    if p < |m| {
      assert m[p] == w[q];
      if IsSpace(m[p]) {
        SkipSpaceSame(m, p + 1, w, q + 1);
      }
    }
  }

  lemma {:induction false} ScanQuoteSame(m: string, p: nat, w: string, q: nat)
    requires p <= |m| + 1 && q <= |w| + 1 && Same(m, p, w, q)
    ensures ScanQuote(w, q) - q == ScanQuote(m, p) - p
    decreases |m| + 1 - p
  {
    if p < |m| {
      assert m[p] == w[q];
      if m[p] == '\\' {
        ScanQuoteSame(m, p + 2, w, q + 2);
      } else if m[p] != '\"' {
        ScanQuoteSame(m, p + 1, w, q + 1);
      }
    }
  }

  lemma DecodeStringSame(m: string, p: nat, w: string, q: nat, len: int)
    requires p < |m| && q < |w| && Same(m, p, w, q)
    ensures DecodeString(w, q, len) == Shift(DecodeString(m, p, len), p, q)
  {
    hide ScanQuote, Unescape;
    assert m[p] == w[q];
    ScanQuoteSame(m, p + 1, w, q + 1);
    var end := ScanQuote(m, p + 1);
    if end < |m| {
      UnescapeLocal(m, p + 1, w, q + 1, end - (p + 1), |m| - (p + 1));
    }
  }

  lemma {:induction false} DigitLoopSame(m: string, p: nat, w: string, q: nat, accum: nat)
    requires p <= |m| && q <= |w| && Same(m, p, w, q) && accum <= UINT64_MAX
    ensures var a, b := DigitLoop(m, p, accum), DigitLoop(w, q, accum);
            a.accum == b.accum && a.overflow == b.overflow && b.end - q == a.end - p
    decreases |m| - p
  {
    if p < |m| {
      assert m[p] == w[q];
      if IsDigit(m[p]) && accum <= UINT64_MAX / 10 {
        var digit := m[p] as int - '0' as int;
        if accum * 10 <= UINT64_MAX - digit {
          DigitLoopSame(m, p + 1, w, q + 1, accum * 10 + digit);
        }
      }
    }
  }

  lemma {:induction false} ScanFPSame(m: string, p: nat, w: string, q: nat)
    requires p <= |m| && q <= |w| && Same(m, p, w, q)
    ensures ScanFP(w, q) - q == ScanFP(m, p) - p
    decreases |m| - p
  {
    if p < |m| {
      assert m[p] == w[q];
      if IsFPChar(m[p]) {
        ScanFPSame(m, p + 1, w, q + 1);
      }
    }
  }

  lemma NumberSame(c: Limits, name: Option<string>, m: string, p: nat, w: string, q: nat, negative: bool)
    requires p < |m| && q < |w| && Same(m, p, w, q) && IsDigit(m[p])
    ensures IsDigit(w[q])
    ensures Number(c, name, w, q, negative) == ShiftNext(Number(c, name, m, p, negative), p, q)
  {
    hide IsFPChar, IsDigit, ScanFP, DigitLoop;
    assert m[p] == w[q];
    DigitLoopSame(m, p, w, q, 0);
    var a, b := DigitLoop(m, p, 0), DigitLoop(w, q, 0);
    if a.end < |m| {
      assert m[a.end] == w[b.end];
      ScanFPSame(m, a.end, w, b.end);
      var r, s := ScanFP(m, a.end), ScanFP(w, b.end);
      assert m[p..r] == w[q..s];
    }
  }

  lemma LiteralSame(name: Option<string>, m: string, p: nat, w: string, q: nat, word: string, v: Value)
    requires p < |m| && q < |w| && Same(m, p, w, q)
    ensures Literal(name, w, q, word, v) == ShiftNext(Literal(name, m, p, word, v), p, q)
  {
    if |word| <= |m| - p {
      assert m[p..p + |word|] == w[q..q + |word|];
    }
  }

  /** Behind their white space both texts go on alike. */
  predicate Alike(m: string, p: nat, w: string, q: nat) {
    && p <= |m| && q <= |w| && SkipSpace(m, p) < |m| && SkipSpace(w, q) < |w|
    && SkipSpace(w, q) - q == SkipSpace(m, p) - p && Same(m, SkipSpace(m, p), w, SkipSpace(w, q))
    && m[SkipSpace(m, p)] == w[SkipSpace(w, q)]
  }

  lemma QuotedSame(c: Limits, name: Option<string>, m: string, p: nat, w: string, q: nat)
    requires Alike(m, p, w, q) && m[SkipSpace(m, p)] == '\"'
    ensures AtElement(c, name, w, q) == ShiftNext(AtElement(c, name, m, p), p, q)
  {
    hide DecodeString, Number, Literal, SkipSpace, CStr, Same;
    DecodeStringSame(m, SkipSpace(m, p), w, SkipSpace(w, q), c.stringLen);
  }

  lemma WordSame(c: Limits, name: Option<string>, m: string, p: nat, w: string, q: nat)
    requires Alike(m, p, w, q)
    requires var first := m[SkipSpace(m, p)]; first == 'f' || first == 't' || first == 'n'
    ensures AtElement(c, name, w, q) == ShiftNext(AtElement(c, name, m, p), p, q)
  {
    hide DecodeString, Number, Literal, SkipSpace, CStr, Same;
    var a, b := SkipSpace(m, p), SkipSpace(w, q);
    LiteralSame(name, m, a, w, b, "false", BoolV(false));
    LiteralSame(name, m, a, w, b, "true", BoolV(true));
    LiteralSame(name, m, a, w, b, "null", NullV);
  }

  lemma NumeralSame(c: Limits, name: Option<string>, m: string, p: nat, w: string, q: nat)
    requires Alike(m, p, w, q) && (m[SkipSpace(m, p)] == '-' || IsDigit(m[SkipSpace(m, p)]))
    ensures AtElement(c, name, w, q) == ShiftNext(AtElement(c, name, m, p), p, q)
  {
    hide DecodeString, Number, Literal, SkipSpace, CStr;
    var a, b := SkipSpace(m, p), SkipSpace(w, q);
    if m[a] == '-' {
      assert a + 1 < |m| ==> m[a + 1] == w[b + 1];
      if a + 1 < |m| && IsDigit(m[a + 1]) {
        NumberSame(c, name, m, a + 1, w, b + 1, true);
      }
    } else {
      NumberSame(c, name, m, a, w, b, false);
    }
  }

  lemma OtherSame(c: Limits, name: Option<string>, m: string, p: nat, w: string, q: nat)
    requires Alike(m, p, w, q)
    requires var first := m[SkipSpace(m, p)];
             first != '\"' && first != 'f' && first != 't' && first != 'n' && first != '-' && !IsDigit(first)
    ensures AtElement(c, name, w, q) == ShiftNext(AtElement(c, name, m, p), p, q)
  {
    hide DecodeString, Number, Literal, SkipSpace, CStr, Same;
  }

  lemma AtElementSame(c: Limits, name: Option<string>, m: string, p: nat, w: string, q: nat)
    requires p <= |m| && q <= |w| && Same(m, p, w, q)
    ensures AtElement(c, name, w, q) == ShiftNext(AtElement(c, name, m, p), p, q)
  {
    SkipSpaceSame(m, p, w, q);
    hide SkipSpace, IsSpace, IsDigit, DecodeString, Number, Literal, CStr;
    var a := SkipSpace(m, p);
    if a < |m| {
      assert Alike(m, p, w, q);
      TokenSame(c, name, m, p, w, q);
    }
  }

  lemma TokenSame(c: Limits, name: Option<string>, m: string, p: nat, w: string, q: nat)
    requires Alike(m, p, w, q)
    ensures AtElement(c, name, w, q) == ShiftNext(AtElement(c, name, m, p), p, q)
  {
    hide AtElement, SkipSpace, IsDigit, Same;
    var first := m[SkipSpace(m, p)];
    if first == '\"' {
      QuotedSame(c, name, m, p, w, q);
    } else if first == 'f' || first == 't' || first == 'n' {
      WordSame(c, name, m, p, w, q);
    } else if first == '-' || IsDigit(first) {
      NumeralSame(c, name, m, p, w, q);
    } else {
      OtherSame(c, name, m, p, w, q);
    }
  }

  lemma AtColonSame(c: Limits, name: string, m: string, p: nat, w: string, q: nat)
    requires p <= |m| && q <= |w| && Same(m, p, w, q)
    ensures AtColon(c, name, w, q) == ShiftNext(AtColon(c, name, m, p), p, q)
  {
    hide AtElement, SkipSpace, IsSpace;
    SkipSpaceSame(m, p, w, q);
    var a, b := SkipSpace(m, p), SkipSpace(w, q);
    if a < |m| {
      assert m[a] == w[b];
      SkipSpaceSame(m, a + 1, w, b + 1);
      AtElementSame(c, Some(name), m, SkipSpace(m, a + 1), w, SkipSpace(w, b + 1));
    }
  }

  lemma AtMemberSame(c: Limits, m: string, p: nat, w: string, q: nat)
    requires p < |m| && q < |w| && Same(m, p, w, q)
    ensures AtMember(c, w, q) == ShiftNext(AtMember(c, m, p), p, q)
  {
    hide DecodeString, AtColon, CStr;
    DecodeStringSame(m, p, w, q, c.nameLen);
    var str := DecodeString(m, p, c.nameLen);
    if str.StringOk? {
      AtColonSame(c, CStr(str.value), m, str.end, w, str.end - p + q);
    }
  }

  lemma AtLoopSame(c: Limits, inObject: bool, m: string, p: nat, w: string, q: nat)
    requires p <= |m| && q <= |w| && Same(m, p, w, q)
    ensures AtLoop(c, inObject, w, q) == ShiftNext(AtLoop(c, inObject, m, p), p, q)
  {
    hide AtElement, AtMember, SkipSpace, IsSpace;
    SkipSpaceSame(m, p, w, q);
    var a, b := SkipSpace(m, p), SkipSpace(w, q);
    if a < |m| {
      assert m[a] == w[b];
      if inObject {
        AtMemberSame(c, m, a, w, b);
      } else {
        AtElementSame(c, None, m, a, w, b);
      }
    }
  }

  lemma NextSame(c: Limits, k: Control, m: string, p: nat, w: string, q: nat)
    requires Running(k) && p <= |m| && q <= |w| && Same(m, p, w, q)
    ensures Next(c, k, w, q) == ShiftNext(Next(c, k, m, p), p, q)
  {
    hide AtElement, AtLoop, SkipSpace, IsSpace;
    match k
    case Element(name, _) => AtElementSame(c, name, m, p, w, q);
    case Loop(_) => AtLoopSame(c, Top(k), m, p, w, q);
    case After(_) =>
      SkipSpaceSame(m, p, w, q);
      var a, b := SkipSpace(m, p), SkipSpace(w, q);
      if a < |m| {
        assert m[a] == w[b];
        AtLoopSame(c, Top(k), m, if m[a] == ',' then a + 1 else a, w, if w[b] == ',' then b + 1 else b);
      }
  }

  /** Without refills a run depends on what lies ahead only. */
  lemma {:induction false} RunSame(h: Handler, c: Limits, k: Control, m: Dec, w: Dec)
    requires Valid(m) && Valid(w) && m.eof && w.eof && m.fired == w.fired && Same(m.buf, m.ptr, w.buf, w.ptr)
    ensures SameEnd(Run(h, c, k, m), Run(h, c, k, w))
    decreases Size(m)
  {
    hide Next, Advance;
    if Running(k) {
      NextSame(c, k, m.buf, m.ptr, w.buf, w.ptr);
      var got := Next(c, k, m.buf, m.ptr);
      if got.Got? {
        var end := w.ptr + (got.end - m.ptr);
        var m1, w1 := Fire(m.(ptr := got.end), got.event), Fire(w.(ptr := end), got.event);
        if h(m1.fired) == Ok {
          RunSame(h, c, Advance(k, got.event), m1, w1);
        }
      }
    }
  }

  // ------------------------------------------------------------ what is left behind

  /** What can stand in the window behind the end of a file: NULs if the file is shorter
      than the window, otherwise an earlier stretch of the end of the file. */
  predicate Stale(file: string, size: nat, stale: string) {
    || (|file| < size && stale == Zeros(size - |file|))
    || exists p: nat, n: nat :: n <= p <= size && p <= |file| && stale == Stretch(file, p, n)
  }

  /** From p bytes before the end of a file to n bytes before it. */
  function Stretch(file: string, p: nat, n: nat): string {
    if n <= p <= |file| then file[|file| - p..|file| - n] else ""
  }

  lemma NothingStale(file: string, size: nat)
    ensures Stale(file, size, "")
  {
    assert Stretch(file, 0, 0) == "";
  }

  /** The window as it slides along the file: before the end, what was consumed is still in
      it, and behind the end come stale bytes. */
  ghost predicate Along(m: Dec, w: Dec)
    requires Valid(m) && Valid(w) && Holds(m, w)
  {
    if w.eof then Stale(m.buf, |w.buf|, w.buf[w.ptr + (|m.buf| - m.ptr)..])
    else w.ptr <= m.ptr && w.buf[..w.ptr] == m.buf[m.ptr - w.ptr..m.ptr]
  }

  lemma OpensAlong(file: string, size: nat)
    requires size >= 2
    ensures var m, w := InMemory(file), OpenWindow(file, size);
            && Holds(m, w) && Filled(w) && |w.buf| == size && w.fired == [] && Along(m, w)
  {
    var w0 := Dec(Zeros(size), size, file, false, []);
    assert file[0..] == file;
    RefillHolds(InMemory(file), w0);
    var w := OpenWindow(file, size);
    var n := if |file| < size then |file| else size;
    assert w.buf == w0.buf[size..] + file[..n] + w0.buf[n..];
    if w.eof {
      assert w.buf[|file|..] == Zeros(size - |file|);
    }
  }

  lemma TwoSlices(s: string, a: nat, b: nat, c: nat)
    requires a <= b <= c <= |s|
    ensures s[a..c] == s[a..b] + s[b..c]
  {
  }

  lemma ConsumedAlong(m: Dec, w: Dec, used: nat, ev: Event)
    requires Valid(m) && Valid(w) && Holds(m, w) && Along(m, w)
    requires used <= |m.buf| - m.ptr && used <= |w.buf| - w.ptr
    ensures var m1 := m.(ptr := m.ptr + used, fired := m.fired + [ev]);
            var w1 := w.(ptr := w.ptr + used, fired := w.fired + [ev]);
            Holds(m1, w1) && Along(m1, w1)
  {
    hide Stale;
    HoldsAfter(m, w, used, ev);
    if !w.eof {
      TwoSlices(w.buf, 0, w.ptr, w.ptr + used);
      assert w.buf[w.ptr..w.ptr + used] == m.buf[m.ptr..m.ptr + used];
      TwoSlices(m.buf, m.ptr - w.ptr, m.ptr, m.ptr + used);
    }
  }

  /** Before the end of the file the window is a stretch of it, and the file the rest. */
  lemma WindowIsStretch(m: Dec, w: Dec)
    requires Valid(m) && Valid(w) && Holds(m, w) && Along(m, w) && !w.eof
    ensures var a := m.ptr - w.ptr;
            && a + |w.buf| + |w.rest| == |m.buf|
            && w.buf == m.buf[a..a + |w.buf|]
  {
    hide Stale, Agree;
    var a, room := m.ptr - w.ptr, |w.buf| - w.ptr;
    AgreeIsSlice(m.buf, m.ptr, w.buf, w.ptr, room);
    assert w.buf == w.buf[..w.ptr] + w.buf[w.ptr..w.ptr + room];
    TwoSlices(m.buf, a, m.ptr, m.ptr + room);
  }

  lemma RefilledAlong(m: Dec, w: Dec)
    requires Valid(m) && Valid(w) && Holds(m, w) && Along(m, w)
    ensures Holds(m, Refill(w)) && Filled(Refill(w)) && Along(m, Refill(w))
  {
    hide Stale;
    RefillHolds(m, w);
    if Refill(w) != w {
      WindowIsStretch(m, w);
      SlidAlong(m, w);
    }
  }

  lemma SlidAlong(m: Dec, w: Dec)
    requires Valid(m) && Valid(w) && Holds(m, w) && Refill(w) != w && Holds(m, Refill(w))
    requires w.ptr <= m.ptr && m.ptr - w.ptr + |w.buf| + |w.rest| == |m.buf|
    requires w.buf == m.buf[m.ptr - w.ptr..m.ptr - w.ptr + |w.buf|]
    ensures Along(m, Refill(w))
  {
    hide Holds;
    var a, room := m.ptr - w.ptr, |w.buf| - w.ptr;
    var n := if |w.rest| < w.ptr then |w.rest| else w.ptr;
    var r := Refill(w);
    var head := w.buf[w.ptr..] + w.rest[..n];
    assert r.buf == head + w.buf[room + n..] && |head| == room + n && r.ptr == 0;
    if r.eof {
      assert |m.buf| - m.ptr == room + n;
      assert r.buf[room + n..] == w.buf[room + n..];
      assert w.buf[room + n..] == m.buf[a + room + n..a + |w.buf|];
      assert w.buf[room + n..] == Stretch(m.buf, w.ptr, n);
    } else {
      assert r.buf[..0] == m.buf[m.ptr..m.ptr];
    }
  }

  // ------------------------------------------------------------- files that break off

  /** No stretch between two callbacks, with one byte of lookahead, exceeds half of the
      window, and less than that is left where the decoder fails. */
  ghost predicate FitsToEnd(h: Handler, c: Limits, k: Control, m: Dec, half: nat)
    requires Valid(m)
    decreases Size(m)
  {
    Running(k) ==>
      match Next(c, k, m.buf, m.ptr)
      case Bad(_) => |m.buf| - m.ptr < half
      case Got(ev, end) =>
        var next := Fire(m.(ptr := end), ev);
        end + 1 - m.ptr <= half && (h(next.fired) == Ok ==> FitsToEnd(h, c, Advance(k, ev), next, half))
  }

  /** Where a run meets an error of the decoder itself. */
  ghost function Stuck(h: Handler, c: Limits, k: Control, m: Dec): (r: Option<(Control, nat)>)
    requires Valid(m)
    ensures r.Some? ==> Running(r.value.0) && r.value.1 <= |m.buf|
    decreases Size(m)
  {
    if !Running(k) then None
    else
      match Next(c, k, m.buf, m.ptr)
      case Bad(_) => Some((k, m.ptr))
      case Got(ev, end) =>
        var next := Fire(m.(ptr := end), ev);
        if h(next.fired) != Ok then None else Stuck(h, c, Advance(k, ev), next)
  }

  function Longer(m: Dec, stale: string): Dec {
    m.(buf := m.buf + stale)
  }

  /** A step that is made is made in the same way if more bytes follow. */
  lemma StepInLonger(c: Limits, k: Control, m: Dec, stale: string, ev: Event, end: nat)
    requires Valid(m) && m.eof && Running(k) && Next(c, k, m.buf, m.ptr) == Got(ev, end)
    ensures Next(c, k, Longer(m, stale).buf, m.ptr) == Got(ev, end)
    ensures var next := Fire(m.(ptr := end), ev);
            && next == m.(ptr := end, fired := m.fired + [ev])
            && Fire(Longer(m, stale).(ptr := end), ev) == Longer(next, stale)
  {
    hide Next;
    assert Agree(m.buf, m.ptr, m.buf + stale, m.ptr, |m.buf| - m.ptr);
    NextLocal(c, k, m.buf, m.ptr, m.buf + stale, m.ptr, |m.buf| - m.ptr);
  }

  /** Once the file has ended, the window is all there is. */
  lemma EndsInWindow(h: Handler, c: Limits, k: Control, m: Dec, w: Dec) returns (stale: string)
    requires Valid(m) && Valid(w) && Holds(m, w) && Along(m, w) && w.eof
    ensures Stale(m.buf, |w.buf|, stale)
    ensures SameEnd(Run(h, c, k, w), Run(h, c, k, Longer(m, stale)))
  {
    hide Run, Stale;
    var left := |m.buf| - m.ptr;
    stale := w.buf[w.ptr + left..];
    assert forall i :: m.ptr <= i < |m.buf| ==> m.buf[i] == w.buf[i - m.ptr + w.ptr];
    RunSame(h, c, k, Longer(m, stale), w);
  }

  lemma NotRunning(h: Handler, c: Limits, k: Control, m: Dec, w: Dec)
    requires Valid(m) && Valid(w) && Holds(m, w) && !Running(k)
    ensures SameEnd(Run(h, c, k, w), Run(h, c, k, Longer(m, "")))
  {
    hide Agree;
    NothingToRun(h, c, k, w);
    NothingToRun(h, c, k, Longer(m, ""));
  }

  lemma NotAtEnd(h: Handler, c: Limits, k: Control, m: Dec, w: Dec)
    requires Valid(m) && Valid(w) && Holds(m, w) && Filled(w) && !w.eof && |w.buf| >= 2
    requires Running(k) && FitsToEnd(h, c, k, m, |w.buf| / 2)
    ensures var got := Next(c, k, m.buf, m.ptr);
            && got.Got? && got.end + 1 - m.ptr <= |w.buf| / 2 && got.end - m.ptr <= |w.buf| - w.ptr
            && (h(Fire(m.(ptr := got.end), got.event).fired) == Ok ==>
                  FitsToEnd(h, c, Advance(k, got.event), Fire(m.(ptr := got.end), got.event), |w.buf| / 2))
  {
    hide Next, Agree, Advance;
  }

  lemma StepAlong(m: Dec, w: Dec, used: nat, ev: Event)
    requires Valid(m) && Valid(w) && Holds(m, w) && Along(m, w)
    requires used <= |m.buf| - m.ptr && used <= |w.buf| - w.ptr
    ensures var m1, w1 := Fire(m.(ptr := m.ptr + used), ev), Fire(w.(ptr := w.ptr + used), ev);
            && Holds(m1, w1) && Along(m1, w1)
            && m1 == m.(ptr := m.ptr + used, fired := m.fired + [ev]) && m1.fired == w1.fired && |w1.buf| == |w.buf|
  {
    hide Stale, Agree, Along;
    ConsumedAlong(m, w, used, ev);
    var m1 := m.(ptr := m.ptr + used, fired := m.fired + [ev]);
    MemoryStays(m, w, m1);
    RefilledAlong(m1, w.(ptr := w.ptr + used, fired := w.fired + [ev]));
  }

  lemma InMemoryOnly(m: Dec, w: Dec)
    requires Valid(m) && Valid(w) && Holds(m, w)
    ensures m.eof
  {
  }

  /** The windowed run goes on like a run in memory over the file and the stale bytes. */
  lemma {:induction false} RunsOn(h: Handler, c: Limits, k: Control, m: Dec, w: Dec) returns (stale: string)
    requires Valid(m) && Valid(w) && Holds(m, w) && Filled(w) && Along(m, w) && |w.buf| >= 2
    requires FitsToEnd(h, c, k, m, |w.buf| / 2)
    ensures Stale(m.buf, |w.buf|, stale)
    ensures SameEnd(Run(h, c, k, w), Run(h, c, k, Longer(m, stale)))
    decreases Size(m)
  {
    hide Next, Fire, Advance, Run, Refill, Holds, Filled, Along, Stale, FitsToEnd;
    stale := "";
    NothingStale(m.buf, |w.buf|);
    if w.eof {
      stale := EndsInWindow(h, c, k, m, w);
    } else if !Running(k) {
      NotRunning(h, c, k, m, w);
    } else {
      var got := Next(c, k, m.buf, m.ptr);
      NotAtEnd(h, c, k, m, w);
      OneStep(c, k, m, w, got.event, got.end);
      var used := got.end - m.ptr;
      StepAlong(m, w, used, got.event);
      var m1 := Fire(m.(ptr := got.end), got.event);
      var w1 := Fire(w.(ptr := w.ptr + used), got.event);
      InMemoryOnly(m, w);
      if h(m1.fired) == Ok {
        stale := RunsOn(h, c, Advance(k, got.event), m1, w1);
      }
      StepInLonger(c, k, m, stale, got.event, got.end);
      StepMade(h, c, k, w, got.event, w.ptr + used);
      StepMade(h, c, k, Longer(m, stale), got.event, got.end);
      assert Longer(m1, stale).fired == w1.fired;
    }
  }

  lemma {:induction false} FiredStays(h: Handler, c: Limits, k: Control, m: Dec, ev: Event, end: nat)
    requires Valid(m) && Running(k) && Next(c, k, m.buf, m.ptr) == Got(ev, end)
    ensures |Run(h, c, k, m).dec.fired| > |m.fired|
  {
    hide Next, Refill, Advance, Run;
    StepMade(h, c, k, m, ev, end);
    RunExtends(h, c, Advance(k, ev), Fire(m.(ptr := end), ev));
  }

  /** More bytes behind a text change nothing if the decoder did not fail on it, and
      otherwise exactly if they change what it reads where it failed. */
  lemma {:induction false} LongerDecides(h: Handler, c: Limits, k: Control, m: Dec, stale: string)
    requires Valid(m) && m.eof
    ensures var same := SameEnd(Run(h, c, k, Longer(m, stale)), Run(h, c, k, m));
            match Stuck(h, c, k, m)
            case None => same
            case Some((at, p)) => same <==> Next(c, at, m.buf + stale, p) == Next(c, at, m.buf, p)
    decreases Size(m)
  {
    hide Next, Advance, Refill, Fire, Run;
    if !Running(k) {
      NothingToRun(h, c, k, m);
      NothingToRun(h, c, k, Longer(m, stale));
    } else {
      var got := Next(c, k, m.buf, m.ptr);
      if got.Bad? {
        FailureInLonger(h, c, k, m, stale, got.status);
      } else {
        var m1 := Fire(m.(ptr := got.end), got.event);
        StepInLonger(c, k, m, stale, got.event, got.end);
        StepMade(h, c, k, m, got.event, got.end);
        StepMade(h, c, k, Longer(m, stale), got.event, got.end);
        if h(m1.fired) == Ok {
          LongerDecides(h, c, Advance(k, got.event), m1, stale);
        }
      }
    }
  }

  lemma FailureInLonger(h: Handler, c: Limits, k: Control, m: Dec, stale: string, status: Failure)
    requires Valid(m) && Running(k) && Next(c, k, m.buf, m.ptr) == Bad(status)
    ensures SameEnd(Run(h, c, k, Longer(m, stale)), Run(h, c, k, m)) <==>
            Next(c, k, m.buf + stale, m.ptr) == Next(c, k, m.buf, m.ptr)
  {
    hide Next, Run;
    StepFails(h, c, k, m, status);
    var got := Next(c, k, m.buf + stale, m.ptr);
    if got.Bad? {
      StepFails(h, c, k, Longer(m, stale), got.status);
    } else {
      FiredStays(h, c, k, Longer(m, stale), got.event, got.end);
    }
  }

  /** Decoding a file that may break off, through a window: the run is that in memory over
      the file and the stale bytes behind its end.  So it differs from the run over the file
      alone if and only if that run meets an error of the decoder, at some place, and with
      the stale bytes something else is read there. */
  lemma FileReadsStaleBytes(h: Handler, c: Limits, name: Option<string>, file: string, size: nat)
      returns (stale: string)
    requires size >= 2 && FitsToEnd(h, c, Element(name, []), InMemory(file), size / 2)
    ensures Stale(file, size, stale)
    ensures var windowed := Run(h, c, Element(name, []), OpenWindow(file, size));
            var memory := Run(h, c, Element(name, []), InMemory(file));
            && SameEnd(windowed, Run(h, c, Element(name, []), InMemory(file + stale)))
            && match Stuck(h, c, Element(name, []), InMemory(file))
               case None => SameEnd(windowed, memory)
               case Some((at, p)) => SameEnd(windowed, memory) <==> Next(c, at, file + stale, p) == Next(c, at, file, p)
  {
    hide Run, FitsToEnd, Stuck, Next, Along, Holds, Filled, OpenWindow, Stale;
    OpensAlong(file, size);
    stale := RunsOn(h, c, Element(name, []), InMemory(file), OpenWindow(file, size));
    LongerDecides(h, c, Element(name, []), InMemory(file), stale);
    assert Longer(InMemory(file), stale) == InMemory(file + stale);
  }

  /** A file that is a number and no more: in memory the number could go on, but in the
      window a NUL ends it. */
  lemma NumberEndsInWindow(c: Limits, name: Option<string>)
    ensures Run(AlwaysOk, c, Element(name, []), InMemory("7")).status == Incomplete
    ensures Run(AlwaysOk, c, Element(name, []), InMemory("7")).dec.fired == []
    ensures Run(AlwaysOk, c, Element(name, []), OpenWindow("7", 1000)).status == Ok
    ensures Run(AlwaysOk, c, Element(name, []), OpenWindow("7", 1000)).dec.fired == [Scalar(name, IntV(7))]
  {
    hide Run, Next, OpenWindow;
    var k := Element(name, []);
    assert Next(c, k, "7", 0) == Bad(Incomplete) by { NumberBreaksOff(c, name); }
    StepFails(AlwaysOk, c, k, InMemory("7"), Incomplete);
    SevenOpens();
    var w := OpenWindow("7", 1000);
    NumberEnds(c, name, w.buf);
    StepMade(AlwaysOk, c, k, w, Scalar(name, IntV(7)), 1);
    var w1 := Fire(w.(ptr := 1), Scalar(name, IntV(7)));
    assert w1.fired == [Scalar(name, IntV(7))];
    NothingToRun(AlwaysOk, c, After([]), w1);
  }

  lemma SevenOpens()
    ensures var w := OpenWindow("7", 1000);
            Valid(w) && w.ptr == 0 && w.fired == [] && |w.buf| == 1000 && w.buf[0] == '7' && w.buf[1] == NUL
  {
  }

  lemma NumberBreaksOff(c: Limits, name: Option<string>)
    ensures Next(c, Element(name, []), "7", 0) == Bad(Incomplete)
  {
    assert SkipSpace("7", 0) == 0;
    assert DigitLoop("7", 0, 0).end == 1;
  }

  lemma NumberEnds(c: Limits, name: Option<string>, buf: string)
    requires |buf| > 1 && buf[0] == '7' && buf[1] == NUL
    ensures Next(c, Element(name, []), buf, 0) == Got(Scalar(name, IntV(7)), 1)
  {
    assert SkipSpace(buf, 0) == 0;
    assert DigitLoop(buf, 1, 7) == Accumulated(7, 1, false);
    assert DigitLoop(buf, 0, 0) == Accumulated(7, 1, false);
  }
}
