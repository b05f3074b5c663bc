/** Decoding a file through a sliding window is decoding the whole file in memory. */
module JsonWindow {
  import opened JsonText
  import opened JsonDecoder

  /** From w, at position q, the text of m from position p on can be read for k bytes. */
  predicate Agree(m: string, p: nat, w: string, q: nat, k: nat) {
    p + k <= |m| && q + k <= |w| && forall i :: p <= i < p + k ==> m[i] == w[i - p + q]
  }

  lemma {:induction false} SkipSpaceLocal(m: string, p: nat, w: string, q: nat, k: nat)
    requires Agree(m, p, w, q, k) && SkipSpace(m, p) - p < k
    ensures SkipSpace(w, q) == q + (SkipSpace(m, p) - p)
    decreases k
  {
    assert m[p] == w[q];
    if IsSpace(m[p]) {
      SkipSpaceLocal(m, p + 1, w, q + 1, k - 1);
    }
  }

  lemma {:induction false} ScanQuoteLocal(m: string, p: nat, w: string, q: nat, k: nat)
    requires Agree(m, p, w, q, k) && ScanQuote(m, p) - p < k
    ensures ScanQuote(w, q) == q + (ScanQuote(m, p) - p)
    decreases k
  {
    assert m[p] == w[q];
    if m[p] != '\"' {
      var step := if m[p] == '\\' then 2 else 1;
      ScanQuoteLocal(m, p + step, w, q + step, k - step);
    }
  }

  lemma Hex4Local(m: string, p: nat, w: string, q: nat, k: nat)
    requires Agree(m, p, w, q, k) && k >= 4
    ensures Hex4(m, p) == Hex4(w, q)
  {
    assert m[p] == w[q] && m[p + 1] == w[q + 1] && m[p + 2] == w[q + 2] && m[p + 3] == w[q + 3];
  }

  lemma {:induction false} UnescapeLocal(m: string, i: nat, w: string, j: nat, n: nat, k: nat)
    requires Agree(m, i, w, j, k) && n < k
    ensures Unescape(m, i, i + n) == Unescape(w, j, j + n)
    decreases n
  {
    hide UnicodeEscape, SimpleEscape;
    if n > 0 {
      assert m[i] == w[j] && m[i + 1] == w[j + 1];
      if m[i] != '\\' {
        UnescapeLocal(m, i + 1, w, j + 1, n - 1, k - 1);
      } else if SimpleEscape(m[i + 1]) {
        if n >= 2 {
          UnescapeLocal(m, i + 2, w, j + 2, n - 2, k - 2);
        }
      } else if m[i + 1] == 'u' {
        UnicodeLocal(m, i, w, j, n, k);
        var unit := UnicodeEscape(m, i, i + n);
        if unit.Unit? {
          UnescapeLocal(m, i + unit.length, w, j + unit.length, n - unit.length, k - unit.length);
        }
      }
    }
  }

  lemma UnicodeLocal(m: string, i: nat, w: string, j: nat, n: nat, k: nat)
    requires Agree(m, i, w, j, k) && 0 < n < k
    ensures UnicodeEscape(m, i, i + n) == UnicodeEscape(w, j, j + n)
  {
    hide Utf8, Hex4;
    if n >= 6 {
      Hex4Local(m, i + 2, w, j + 2, k - 2);
    }
    if n >= 12 {
      assert m[i + 6] == w[j + 6] && m[i + 7] == w[j + 7];
      Hex4Local(m, i + 8, w, j + 8, k - 8);
    }
  }

  function Shift(r: StringResult, p: nat, q: nat): StringResult
    requires r.StringOk? ==> r.end >= p
  {
    if r.StringOk? then StringOk(r.value, q + (r.end - p)) else r
  }

  lemma DecodeStringLocal(m: string, p: nat, w: string, q: nat, k: nat, len: int)
    requires p < |m| && Agree(m, p, w, q, k)
    requires DecodeString(m, p, len).StringOk? && DecodeString(m, p, len).end - p <= k
    ensures q < |w| && DecodeString(w, q, len) == Shift(DecodeString(m, p, len), p, q)
  {
    assert m[p] == w[q];
    var n := ScanQuote(m, p + 1) - (p + 1);
    ScanQuoteLocal(m, p + 1, w, q + 1, k - 1);
    UnescapeLocal(m, p + 1, w, q + 1, n, k - 1);
  }

  lemma {:induction false} DigitLoopLocal(m: string, p: nat, w: string, q: nat, k: nat, accum: nat)
    requires Agree(m, p, w, q, k) && accum <= UINT64_MAX && DigitLoop(m, p, accum).end - p < k
    ensures var a, b := DigitLoop(m, p, accum), DigitLoop(w, q, accum);
            a.accum == b.accum && a.overflow == b.overflow && b.end == q + (a.end - p)
    decreases k
  {
    assert m[p] == w[q];
    if IsDigit(m[p]) && accum <= UINT64_MAX / 10 {
      var digit := m[p] as int - '0' as int;
      if accum * 10 <= UINT64_MAX - digit {
        DigitLoopLocal(m, p + 1, w, q + 1, k - 1, accum * 10 + digit);
      }
    }
  }

  lemma {:induction false} ScanFPLocal(m: string, p: nat, w: string, q: nat, k: nat)
    requires Agree(m, p, w, q, k) && ScanFP(m, p) - p < k
    ensures ScanFP(w, q) == q + (ScanFP(m, p) - p)
    decreases k
  {
    assert m[p] == w[q];
    if IsFPChar(m[p]) {
      ScanFPLocal(m, p + 1, w, q + 1, k - 1);
    }
  }

  /** The bytes a step looks at: what it consumes and one more if there is one. */
  function Looked(m: string, p: nat, end: nat): nat
    requires p <= end <= |m|
  {
    (if end < |m| then end + 1 else end) - p
  }

  function ShiftNext(r: NextResult, p: nat, q: nat): NextResult
    requires r.Got? ==> r.end >= p
  {
    if r.Got? then Got(r.event, q + (r.end - p)) else r
  }

  lemma NumberLocal(c: Limits, name: Option<string>, m: string, p: nat, w: string, q: nat, k: nat, negative: bool)
    requires p < |m| && IsDigit(m[p]) && Agree(m, p, w, q, k)
    requires var r := Number(c, name, m, p, negative); r.Got? && Looked(m, p, r.end) <= k
    ensures q < |w| && IsDigit(w[q])
    ensures Number(c, name, w, q, negative) == ShiftNext(Number(c, name, m, p, negative), p, q)
  {
    hide IsFPChar, IsDigit, ScanFP, DigitLoop;
    var r := Number(c, name, m, p, negative);
    assert m[p] == w[q];
    var acc := DigitLoop(m, p, 0);
    assert acc.end <= r.end;
    DigitLoopLocal(m, p, w, q, k, 0);
    assert m[acc.end] == w[acc.end - p + q];
    if r.event.value.FloatV? {
      ScanFPLocal(m, acc.end, w, acc.end - p + q, k - (acc.end - p));
      assert m[p..r.end] == w[q..r.end - p + q];
    }
  }

  lemma LiteralLocal(name: Option<string>, m: string, p: nat, w: string, q: nat, k: nat, word: string, v: Value)
    requires p < |m| && Agree(m, p, w, q, k) && q < |w| && |word| > 0
    requires var r := Literal(name, m, p, word, v); r.Got? && r.end - p <= k
    ensures Literal(name, w, q, word, v) == ShiftNext(Literal(name, m, p, word, v), p, q)
  {
    assert m[p..p + |word|] == w[q..q + |word|];
  }

  lemma AtElementLocal(c: Limits, name: Option<string>, m: string, p: nat, w: string, q: nat, k: nat)
    requires p <= |m| && Agree(m, p, w, q, k)
    requires var r := AtElement(c, name, m, p); r.Got? && Looked(m, p, r.end) <= k
    ensures AtElement(c, name, w, q) == ShiftNext(AtElement(c, name, m, p), p, q)
  {
    hide DecodeString, Number, Literal, SkipSpace, IsSpace, CStr;
    var a := SkipSpace(m, p);
    var r := AtElement(c, name, m, p);
    assert a < r.end by { ElementConsumes(c, name, m, p); }
    SkipSpaceLocal(m, p, w, q, k);
    var b := a - p + q;
    assert m[a] == w[b];
    if m[a] == '\"' {
      DecodeStringLocal(m, a, w, b, k - (a - p), c.stringLen);
    } else if m[a] == 'f' {
      LiteralLocal(name, m, a, w, b, k - (a - p), "false", BoolV(false));
    } else if m[a] == 't' {
      LiteralLocal(name, m, a, w, b, k - (a - p), "true", BoolV(true));
    } else if m[a] == 'n' {
      LiteralLocal(name, m, a, w, b, k - (a - p), "null", NullV);
    } else if m[a] == '-' {
      NumberLocal(c, name, m, a + 1, w, b + 1, k - (a + 1 - p), true);
    } else if IsDigit(m[a]) {
      NumberLocal(c, name, m, a, w, b, k - (a - p), false);
    }
  }

  lemma ElementConsumes(c: Limits, name: Option<string>, m: string, p: nat)
    requires p <= |m| && AtElement(c, name, m, p).Got?
    ensures SkipSpace(m, p) < AtElement(c, name, m, p).end
  {
    hide DecodeString, Number;
  }

  lemma AtColonLocal(c: Limits, name: string, m: string, p: nat, w: string, q: nat, k: nat)
    requires p <= |m| && Agree(m, p, w, q, k)
    requires var r := AtColon(c, name, m, p); r.Got? && Looked(m, p, r.end) <= k
    ensures AtColon(c, name, w, q) == ShiftNext(AtColon(c, name, m, p), p, q)
  {
    hide AtElement, IsSpace, SkipSpace;
    var colon := SkipSpace(m, p);
    var value := SkipSpace(m, colon + 1);
    ElementConsumes(c, Some(name), m, value);
    SkipSpaceLocal(m, p, w, q, k);
    assert m[colon] == w[colon - p + q];
    SkipSpaceLocal(m, colon + 1, w, colon + 1 - p + q, k - (colon + 1 - p));
    AtElementLocal(c, Some(name), m, value, w, value - p + q, k - (value - p));
  }

  lemma AtMemberLocal(c: Limits, m: string, p: nat, w: string, q: nat, k: nat)
    requires p < |m| && Agree(m, p, w, q, k) && q < |w|
    requires var r := AtMember(c, m, p); r.Got? && Looked(m, p, r.end) <= k
    ensures AtMember(c, w, q) == ShiftNext(AtMember(c, m, p), p, q)
  {
    hide DecodeString, AtColon, CStr;
    var str := DecodeString(m, p, c.nameLen);
    DecodeStringLocal(m, p, w, q, k, c.nameLen);
    AtColonLocal(c, CStr(str.value), m, str.end, w, str.end - p + q, k - (str.end - p));
  }

  lemma AtLoopLocal(c: Limits, inObject: bool, m: string, p: nat, w: string, q: nat, k: nat)
    requires p <= |m| && Agree(m, p, w, q, k)
    requires var r := AtLoop(c, inObject, m, p); r.Got? && Looked(m, p, r.end) <= k
    ensures AtLoop(c, inObject, w, q) == ShiftNext(AtLoop(c, inObject, m, p), p, q)
  {
    hide AtMember, AtElement, IsSpace;
    var a := SkipSpace(m, p);
    SkipSpaceLocal(m, p, w, q, k);
    var b := a - p + q;
    assert m[a] == w[b];
    if m[a] != (if inObject then '}' else ']') {
      if inObject {
        AtMemberLocal(c, m, a, w, b, k - (a - p));
      } else {
        AtElementLocal(c, None, m, a, w, b, k - (a - p));
      }
    }
  }

  /** A decoder step depends only on the bytes it looks at. */
  lemma NextLocal(c: Limits, ctl: Control, m: string, p: nat, w: string, q: nat, k: nat)
    requires Running(ctl) && p <= |m| && Agree(m, p, w, q, k)
    requires var r := Next(c, ctl, m, p); r.Got? && Looked(m, p, r.end) <= k
    ensures Next(c, ctl, w, q) == ShiftNext(Next(c, ctl, m, p), p, q)
  {
    hide AtElement, AtLoop;
    match ctl
    case Element(name, _) => AtElementLocal(c, name, m, p, w, q, k);
    case Loop(_) => AtLoopLocal(c, Top(ctl), m, p, w, q, k);
    case After(_) =>
      var a := SkipSpace(m, p);
      var next := if m[a] == ',' then a + 1 else a;
      SkipSpaceLocal(m, p, w, q, k);
      assert m[a] == w[a - p + q];
      AtLoopLocal(c, Top(ctl), m, next, w, next - p + q, k - (next - p));
  }

  // ----------------------------------------------------------------- the window

  /** The window holds the next bytes of the document, the file the bytes behind them;
      after end of file everything unread is in the window, with stale bytes behind it. */
  ghost predicate Holds(m: Dec, w: Dec)
    requires Valid(m) && Valid(w)
  {
    var left := |m.buf| - m.ptr;
    var room := |w.buf| - w.ptr;
    && m.eof && m.fired == w.fired
    && (w.eof ==> left <= room && Agree(m.buf, m.ptr, w.buf, w.ptr, left))
    && (!w.eof ==>
          && left == room + |w.rest|
          && Agree(m.buf, m.ptr, w.buf, w.ptr, room)
          && m.buf[m.ptr + room..] == w.rest)
  }

  /** At least half of the window is unread, unless the file has ended. */
  ghost predicate Filled(w: Dec)
    requires Valid(w)
  {
    w.eof || |w.buf| - w.ptr >= |w.buf| / 2
  }

  lemma AgreeIsSlice(m: string, p: nat, w: string, q: nat, k: nat)
    requires p + k <= |m| && q + k <= |w|
    ensures Agree(m, p, w, q, k) <==> m[p..p + k] == w[q..q + k]
  {
    if m[p..p + k] == w[q..q + k] {
      forall i | p <= i < p + k
        ensures m[i] == w[i - p + q]
      {
        assert m[i] == m[p..p + k][i - p] == w[q..q + k][i - p];
      }
    }
  }

  /** The text in the window after it slid: what was unread, then what was read. */
  lemma RefillText(w: Dec)
    requires Valid(w) && Refill(w) != w
    ensures var r, room := Refill(w), |w.buf| - w.ptr;
            var n := if |w.rest| < w.ptr then |w.rest| else w.ptr;
            && r.ptr == 0 && room + n <= |r.buf|
            && r.buf[0..room + n] == w.buf[w.ptr..] + w.rest[..n]
            && r.rest == w.rest[n..] && r.eof == (n < w.ptr) && !w.eof
  {
    var room := |w.buf| - w.ptr;
    var n := if |w.rest| < w.ptr then |w.rest| else w.ptr;
    var head := w.buf[w.ptr..] + w.rest[..n];
    assert |head| == room + n;
    assert Refill(w).buf == head + w.buf[room + n..];
  }

  /** Before the end of the file, window and file hold exactly what is unread. */
  lemma TextAhead(m: Dec, w: Dec)
    requires Valid(m) && Valid(w) && Holds(m, w) && !w.eof
    ensures m.buf[m.ptr..] == w.buf[w.ptr..] + w.rest
  {
    hide Agree;
    var room := |w.buf| - w.ptr;
    AgreeIsSlice(m.buf, m.ptr, w.buf, w.ptr, room);
    assert m.buf[m.ptr..] == m.buf[m.ptr..m.ptr + room] + m.buf[m.ptr + room..];
  }

  lemma SliceOfTail(s: string, p: nat, n: nat)
    requires p + n <= |s|
    ensures s[p..p + n] == s[p..][..n] && s[p..][n..] == s[p + n..]
  {
  }

  /** The window after it slid still agrees with the text. */
  lemma RefillAgrees(m: Dec, w: Dec)
    requires Valid(m) && Valid(w) && Holds(m, w) && Refill(w) != w
    ensures var r, room := Refill(w), |w.buf| - w.ptr;
            var n := if |w.rest| < w.ptr then |w.rest| else w.ptr;
            && m.ptr + room + n <= |m.buf| && room + n <= |r.buf| && Agree(m.buf, m.ptr, r.buf, 0, room + n)
            && m.buf[m.ptr + room + n..] == r.rest
  {
    RefillText(w);
    hide Refill, Agree, Holds;
    TextAhead(m, w);
    var room := |w.buf| - w.ptr;
    var n := if |w.rest| < w.ptr then |w.rest| else w.ptr;
    TailSplits(w.buf[w.ptr..], w.rest, n);
    SliceOfTail(m.buf, m.ptr, room + n);
    AgreeIsSlice(m.buf, m.ptr, Refill(w).buf, 0, room + n);
  }

  lemma TailSplits(a: string, b: string, n: nat)
    requires n <= |b|
    ensures (a + b)[..|a| + n] == a + b[..n] && (a + b)[|a| + n..] == b[n..]
  {
  }

  lemma RefillFills(w: Dec)
    requires Valid(w)
    ensures Filled(Refill(w))
  {
    if Refill(w) != w {
      RefillText(w);
      hide Refill;
      var n := if |w.rest| < w.ptr then |w.rest| else w.ptr;
    }
  }

  lemma SlidHolds(m: Dec, w: Dec)
    requires Valid(m) && Valid(w) && Holds(m, w) && Refill(w) != w
    ensures Holds(m, Refill(w))
  {
    RefillText(w);
    RefillAgrees(m, w);
    hide Refill, Agree;
    var r := Refill(w);
    assert |r.buf| == |w.buf| && m.eof && m.fired == r.fired;
  }

  lemma RefillHolds(m: Dec, w: Dec)
    requires Valid(m) && Valid(w) && Holds(m, w)
    ensures Holds(m, Refill(w)) && Filled(Refill(w))
  {
    RefillFills(w);
    if Refill(w) != w {
      SlidHolds(m, w);
    }
  }

  /** No step of the run fails, and none looks at more than `half` bytes. */
  ghost predicate FitsWindow(h: Handler, c: Limits, k: Control, m: Dec, half: nat)
    requires Valid(m)
    decreases Size(m)
  {
    Running(k) ==>
      match Next(c, k, m.buf, m.ptr)
      case Bad(_) => false
      case Got(ev, end) =>
        var next := Fire(m.(ptr := end), ev);
        end + 1 - m.ptr <= half && (h(next.fired) == Ok ==> FitsWindow(h, c, Advance(k, ev), next, half))
  }

  lemma OneStep(c: Limits, k: Control, m: Dec, w: Dec, ev: Event, end: nat)
    requires Valid(m) && Valid(w) && Holds(m, w) && Filled(w) && |w.buf| >= 2
    requires Running(k) && Next(c, k, m.buf, m.ptr) == Got(ev, end) && end + 1 - m.ptr <= |w.buf| / 2
    ensures Next(c, k, w.buf, w.ptr) == Got(ev, w.ptr + (end - m.ptr)) && w.ptr + (end - m.ptr) <= |w.buf|
    ensures var w' := Fire(w.(ptr := w.ptr + (end - m.ptr)), ev);
            Holds(Fire(m.(ptr := end), ev), w') && Filled(w')
  {
    hide Next, Refill, Holds, Filled, Agree;
    var used := end - m.ptr;
    assert Agree(m.buf, m.ptr, w.buf, w.ptr, Looked(m.buf, m.ptr, end)) && used <= |w.buf| - w.ptr by {
      LooksInside(m, w, end);
    }
    NextLocal(c, k, m.buf, m.ptr, w.buf, w.ptr, Looked(m.buf, m.ptr, end));
    var m1 := m.(ptr := end, fired := m.fired + [ev]);
    var w1 := w.(ptr := w.ptr + used, fired := w.fired + [ev]);
    HoldsAfter(m, w, used, ev);
    RefillHolds(m1, w1);
    assert Refill(m1) == m1 by { MemoryStays(m, w, m1); }
  }

  /** What a step looks at is in the window. */
  lemma LooksInside(m: Dec, w: Dec, end: nat)
    requires Valid(m) && Valid(w) && Holds(m, w) && Filled(w) && |w.buf| >= 2
    requires m.ptr < end <= |m.buf| && end + 1 - m.ptr <= |w.buf| / 2
    ensures Agree(m.buf, m.ptr, w.buf, w.ptr, Looked(m.buf, m.ptr, end)) && end - m.ptr <= |w.buf| - w.ptr
  {
  }

  lemma HoldsAfter(m: Dec, w: Dec, used: nat, ev: Event)
    requires Valid(m) && Valid(w) && Holds(m, w) && used <= |m.buf| - m.ptr && used <= |w.buf| - w.ptr
    ensures Holds(m.(ptr := m.ptr + used, fired := m.fired + [ev]), w.(ptr := w.ptr + used, fired := w.fired + [ev]))
  {
  }

  lemma MemoryStays(m: Dec, w: Dec, m1: Dec)
    requires Valid(m) && Valid(w) && Holds(m, w) && Valid(m1) && m1.eof == m.eof
    ensures Refill(m1) == m1
  {
  }

  /** The windowed run makes the same callbacks and ends with the same result, and the
      window still holds what is unread. */
  lemma {:induction false} WindowRefines(h: Handler, c: Limits, k: Control, m: Dec, w: Dec)
    requires Valid(m) && Valid(w) && Holds(m, w) && Filled(w) && |w.buf| >= 2
    requires FitsWindow(h, c, k, m, |w.buf| / 2)
    ensures Run(h, c, k, w).status == Run(h, c, k, m).status
    ensures Holds(Run(h, c, k, m).dec, Run(h, c, k, w).dec)
    decreases Size(m)
  {
    hide Next, Holds, Fire, Advance;
    if Running(k) {
      var got := Next(c, k, m.buf, m.ptr);
      OneStep(c, k, m, w, got.event, got.end);
      var m' := Fire(m.(ptr := got.end), got.event);
      var w' := Fire(w.(ptr := w.ptr + (got.end - m.ptr)), got.event);
      assert m'.fired == w'.fired by { SameHistory(m', w'); }
      if h(m'.fired) == Ok {
        WindowRefines(h, c, Advance(k, got.event), m', w');
      }
    }
  }

  lemma SameHistory(m: Dec, w: Dec)
    requires Valid(m) && Valid(w) && Holds(m, w)
    ensures m.fired == w.fired
  {
  }

  /** The window of ksjson_addJSONFromFile when decoding starts; `file` is what reading
      the file delivers. */
  function OpenWindow(file: string, size: nat): Dec {
    Refill(Dec(Zeros(size), size, file, false, []))
  }

  /** Decoding a file through a window of any size, whatever the callbacks do, fires
      the events and returns the result of decoding the whole file in memory, provided
      that no stretch between two callbacks, with one byte of lookahead, exceeds half
      of the window. */
  lemma FileDecodesLikeMemory(h: Handler, c: Limits, name: Option<string>, file: string, size: nat)
    requires size >= 2 && FitsWindow(h, c, Element(name, []), InMemory(file), size / 2)
    ensures var a := Run(h, c, Element(name, []), OpenWindow(file, size));
            var b := Run(h, c, Element(name, []), InMemory(file));
            a.status == b.status && a.dec.fired == b.dec.fired
  {
    hide Run, FitsWindow;
    var w0 := Dec(Zeros(size), size, file, false, []);
    assert file[0..] == file;
    RefillHolds(InMemory(file), w0);
    WindowRefines(h, c, Element(name, []), InMemory(file), OpenWindow(file, size));
    SameHistory(Run(h, c, Element(name, []), InMemory(file)).dec,
                Run(h, c, Element(name, []), OpenWindow(file, size)).dec);
  }

  // -------------------------------------------------------- malformed documents

  /** No step before the first error looks at more than `half` bytes. */
  ghost predicate FitsUntilError(h: Handler, c: Limits, k: Control, m: Dec, half: nat)
    requires Valid(m)
    decreases Size(m)
  {
    Running(k) && Next(c, k, m.buf, m.ptr).Got? ==>
      var got := Next(c, k, m.buf, m.ptr);
      var next := Fire(m.(ptr := got.end), got.event);
      && got.end + 1 - m.ptr <= half
      && (h(next.fired) == Ok ==> FitsUntilError(h, c, Advance(k, got.event), next, half))
  }

  lemma {:induction false} RunExtends(h: Handler, c: Limits, k: Control, d: Dec)
    requires Valid(d)
    ensures d.fired <= Run(h, c, k, d).dec.fired
    decreases Size(d)
  {
    hide Next, Refill, Advance;
    if Running(k) {
      var got := Next(c, k, d.buf, d.ptr);
      if got.Got? {
        var d1 := Fire(d.(ptr := got.end), got.event);
        if h(d1.fired) == Ok {
          RunExtends(h, c, Advance(k, got.event), d1);
        }
      }
    }
  }

  lemma {:induction false} WindowUntilError(h: Handler, c: Limits, k: Control, m: Dec, w: Dec)
    requires Valid(m) && Valid(w) && Holds(m, w) && Filled(w) && |w.buf| >= 2
    requires FitsUntilError(h, c, k, m, |w.buf| / 2)
    ensures Run(h, c, k, m).dec.fired <= Run(h, c, k, w).dec.fired
    decreases Size(m)
  {
    hide Next, Holds, Fire, Advance, Run, Refill;
    SameHistory(m, w);
    RunExtends(h, c, k, w);
    if Running(k) {
      var got := Next(c, k, m.buf, m.ptr);
      if got.Got? {
        OneStep(c, k, m, w, got.event, got.end);
        var m' := Fire(m.(ptr := got.end), got.event);
        var w' := Fire(w.(ptr := w.ptr + (got.end - m.ptr)), got.event);
        SameHistory(m', w');
        StepMade(h, c, k, m, got.event, got.end);
        StepMade(h, c, k, w, got.event, w.ptr + (got.end - m.ptr));
        if h(m'.fired) == Ok {
          WindowUntilError(h, c, Advance(k, got.event), m', w');
        }
      } else {
        StepFails(h, c, k, m, got.status);
      }
    } else {
      NothingToRun(h, c, k, m);
    }
  }

  lemma NothingToRun(h: Handler, c: Limits, k: Control, m: Dec)
    requires Valid(m) && !Running(k)
    ensures Run(h, c, k, m) == Outcome(m, Ok)
  {
  }

  /** For any file, malformed or not, the windowed decoder makes at least the callbacks
      that decoding in memory makes before its first error, in the same order. */
  lemma FileAgreesUntilError(h: Handler, c: Limits, name: Option<string>, file: string, size: nat)
    requires size >= 2 && FitsUntilError(h, c, Element(name, []), InMemory(file), size / 2)
    ensures Run(h, c, Element(name, []), InMemory(file)).dec.fired <=
            Run(h, c, Element(name, []), OpenWindow(file, size)).dec.fired
  {
    hide Run, FitsUntilError;
    var w0 := Dec(Zeros(size), size, file, false, []);
    assert file[0..] == file;
    RefillHolds(InMemory(file), w0);
    WindowUntilError(h, c, Element(name, []), InMemory(file), OpenWindow(file, size));
  }
}
