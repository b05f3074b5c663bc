/** What the decoder can report, and how callbacks that fail cut a run short. */
module JsonEvents {
  import opened JsonText
  import opened JsonEncoder
  import opened JsonDecoder
  import opened JsonRoundTrip
  import opened JsonDocument

  // --------------------------------------------------------- the shape of a run

  /** An event that can come at control point k: named exactly inside objects. */
  predicate Shaped(k: Control, ev: Event) {
    && Running(k)
    && (ev.End? ==> |k.stack| > 0 && !k.Element?)
    && (!ev.End? && !k.Element? ==> ev.name.Some? == Top(k) && (ev.name.Some? ==> NUL !in ev.name.value))
    && (!ev.End? && k.Element? ==> ev.name == k.name)
  }

  /** The scalars a decoder can report. */
  predicate Decoded(v: Value) {
    match v
    case IntV(i) => INT64_MIN <= i <= INT64_MAX
    case UIntV(u) => INT64_MAX < u <= UINT64_MAX
    case FloatV(_, digits) =>
      |digits| > 0 && IsDigit(digits[0]) && forall i :: 0 <= i < |digits| ==> IsFPChar(digits[i])
    case StrV(s) => NUL !in s
    case _ => true
  }

  predicate DecodedEvent(ev: Event) {
    ev.Scalar? ==> Decoded(ev.value)
  }

  lemma ElementReports(c: Limits, name: Option<string>, buf: string, p: nat)
    requires p <= |buf| && AtElement(c, name, buf, p).Got?
    ensures var ev := AtElement(c, name, buf, p).event;
            !ev.End? && ev.name == name && DecodedEvent(ev)
  {
    hide DecodeString, SkipSpace;
    var q := SkipSpace(buf, p);
    if buf[q] == '-' {
      NumberReports(c, name, buf, q + 1, true);
    } else if IsDigit(buf[q]) {
      NumberReports(c, name, buf, q, false);
    }
  }

  lemma NumberReports(c: Limits, name: Option<string>, buf: string, p: nat, negative: bool)
    requires p < |buf| && IsDigit(buf[p]) && Number(c, name, buf, p, negative).Got?
    ensures var ev := Number(c, name, buf, p, negative).event;
            ev.Scalar? && ev.name == name && Decoded(ev.value)
  {
    var acc := DigitLoop(buf, p, 0);
    DigitsBefore(buf, p, 0);
    var q := ScanFP(buf, acc.end);
    assert forall i :: p <= i < q ==> IsFPChar(buf[i]);
  }

  lemma {:induction false} DigitsBefore(buf: string, p: nat, accum: nat)
    requires p <= |buf| && accum <= UINT64_MAX
    ensures forall i :: p <= i < DigitLoop(buf, p, accum).end ==> IsDigit(buf[i])
    ensures p < |buf| && IsDigit(buf[p]) && accum == 0 ==> DigitLoop(buf, p, accum).end > p
    decreases |buf| - p
  {
    if p < |buf| && IsDigit(buf[p]) && accum <= UINT64_MAX / 10 {
      var digit := buf[p] as int - '0' as int;
      if accum * 10 <= UINT64_MAX - digit {
        DigitsBefore(buf, p + 1, accum * 10 + digit);
      }
    }
  }

  lemma NextReports(c: Limits, k: Control, buf: string, p: nat)
    requires Running(k) && p <= |buf| && Next(c, k, buf, p).Got?
    ensures Shaped(k, Next(c, k, buf, p).event) && DecodedEvent(Next(c, k, buf, p).event)
  {
    hide AtElement, AtMember, AtLoop;
    match k
    case Element(name, _) => ElementReports(c, name, buf, p);
    case Loop(_) => LoopReports(c, Top(k), buf, p);
    case After(_) =>
      var q := SkipSpace(buf, p);
      LoopReports(c, Top(k), buf, if buf[q] == ',' then q + 1 else q);
  }

  lemma LoopReports(c: Limits, inObject: bool, buf: string, p: nat)
    requires p <= |buf| && AtLoop(c, inObject, buf, p).Got?
    ensures var ev := AtLoop(c, inObject, buf, p).event;
            && DecodedEvent(ev)
            && (!ev.End? ==> ev.name.Some? == inObject && (inObject ==> NUL !in ev.name.value))
  {
    hide AtElement, DecodeString;
    var q := SkipSpace(buf, p);
    if buf[q] != (if inObject then '}' else ']') {
      if inObject {
        var str := DecodeString(buf, q, c.nameLen);
        var colon := SkipSpace(buf, str.end);
        ElementReports(c, Some(CStr(str.value)), buf, SkipSpace(buf, colon + 1));
      } else {
        ElementReports(c, None, buf, q);
      }
    }
  }

  /** A sequence of events the decoder can report from k on. */
  ghost predicate Follows(k: Control, evs: seq<Event>)
    decreases |evs|
  {
    evs != [] ==> Shaped(k, evs[0]) && Follows(Advance(k, evs[0]), evs[1..])
  }

  ghost function AdvanceAll(k: Control, evs: seq<Event>): Control
    decreases |evs|
  {
    if evs == [] then k else AdvanceAll(Advance(k, evs[0]), evs[1..])
  }

  /** The events a run adds follow from its control point; a run that succeeds ends
      behind the root element. */
  lemma {:induction false} RunReports(h: Handler, c: Limits, k: Control, d: Dec) returns (evs: seq<Event>)
    requires Valid(d)
    ensures Run(h, c, k, d).dec.fired == d.fired + evs
    ensures Follows(k, evs) && forall i :: 0 <= i < |evs| ==> DecodedEvent(evs[i])
    ensures Run(h, c, k, d).status == Ok ==> !Running(AdvanceAll(k, evs))
    ensures Run(h, c, k, d).status == Ok && Running(k) ==> evs != []
    decreases Size(d)
  {
    hide Next, Shaped, DecodedEvent, Refill, Advance, Run, Follows, AdvanceAll;
    evs := [];
    assert d.fired + [] == d.fired;
    NothingReported(h, c, k, d);
    if Running(k) {
      var next := Next(c, k, d.buf, d.ptr);
      if next.Got? {
        StepMade(h, c, k, d, next.event, next.end);
        NextReports(c, k, d.buf, d.ptr);
        var d1 := Fire(d.(ptr := next.end), next.event);
        var more := [];
        NothingReported(h, c, Advance(k, next.event), d1);
        if h(d1.fired) == Ok {
          more := RunReports(h, c, Advance(k, next.event), d1);
        }
        evs := [next.event] + more;
        OneMoreReported(k, next.event, more);
        assert d.fired + [next.event] + more == d.fired + evs;
      } else {
        StepFails(h, c, k, d, next.status);
      }
    }
  }

  lemma NothingReported(h: Handler, c: Limits, k: Control, d: Dec)
    requires Valid(d)
    ensures Follows(k, []) && AdvanceAll(k, []) == k
    ensures !Running(k) ==> Run(h, c, k, d) == Outcome(d, Ok)
  {
  }

  lemma OneMoreReported(k: Control, ev: Event, more: seq<Event>)
    ensures Follows(k, [ev] + more) <==> Shaped(k, ev) && Follows(Advance(k, ev), more)
    ensures AdvanceAll(k, [ev] + more) == AdvanceAll(Advance(k, ev), more)
  {
    hide Shaped, Advance;
    assert ([ev] + more)[1..] == more;
  }

  // ------------------------------------------------------- callbacks that fail

  /** A run that succeeds made only successful callbacks, and is the run that an
      always successful handler would have seen. */
  lemma {:induction false} SuccessIgnoresHandler(h: Handler, c: Limits, k: Control, d: Dec)
    requires Valid(d) && Run(h, c, k, d).status == Ok
    ensures Run(AlwaysOk, c, k, d) == Run(h, c, k, d)
    decreases Size(d)
  {
    hide Next, Refill;
    if Running(k) {
      var next := Next(c, k, d.buf, d.ptr);
      SuccessIgnoresHandler(h, c, Advance(k, next.event), Fire(d.(ptr := next.end), next.event));
    }
  }

  /** The last callback of a run decides: it failed exactly if the run reports a
      callback's failure, and all callbacks before it succeeded. */
  lemma {:induction false} CallbacksSucceed(h: Handler, c: Limits, k: Control, d: Dec)
    requires Valid(d)
    ensures var r := Run(h, c, k, d);
            && |d.fired| <= |r.dec.fired| && r.dec.fired[..|d.fired|] == d.fired
            && (forall n :: |d.fired| < n < |r.dec.fired| ==> h(r.dec.fired[..n]) == Ok)
            && (r.dec.fired != d.fired ==> h(r.dec.fired) == Ok || h(r.dec.fired) == r.status)
            && (r.status == Ok && r.dec.fired != d.fired ==> h(r.dec.fired) == Ok)
    decreases Size(d)
  {
    hide Next, Refill;
    if Running(k) {
      var next := Next(c, k, d.buf, d.ptr);
      if next.Got? {
        var d1 := Fire(d.(ptr := next.end), next.event);
        if h(d1.fired) == Ok {
          CallbacksSucceed(h, c, Advance(k, next.event), d1);
          var r := Run(h, c, k, d);
          assert r.dec.fired[..|d.fired|] == r.dec.fired[..|d1.fired|][..|d.fired|];
          assert r.dec.fired[..|d1.fired|] == d1.fired;
        }
      }
    }
  }

  /** Callbacks that never fail do not change a run. */
  lemma {:induction false} HarmlessHandler(h: Handler, c: Limits, k: Control, d: Dec)
    requires Valid(d)
    requires var fired := Run(AlwaysOk, c, k, d).dec.fired;
             forall n :: |d.fired| < n <= |fired| ==> h(fired[..n]) == Ok
    ensures Run(h, c, k, d) == Run(AlwaysOk, c, k, d)
    decreases Size(d)
  {
    hide Next, Refill;
    if Running(k) {
      var next := Next(c, k, d.buf, d.ptr);
      if next.Got? {
        var d1 := Fire(d.(ptr := next.end), next.event);
        CallbacksSucceed(AlwaysOk, c, Advance(k, next.event), d1);
        assert Run(AlwaysOk, c, k, d) == Run(AlwaysOk, c, Advance(k, next.event), d1);
        assert Run(AlwaysOk, c, k, d).dec.fired[..|d1.fired|] == d1.fired;
        HarmlessHandler(h, c, Advance(k, next.event), d1);
      }
    }
  }

  /** A handler that first fails at the n-th callback ends the run there. */
  lemma {:induction false} FirstFailure(h: Handler, c: Limits, k: Control, d: Dec, n: nat)
    requires Valid(d)
    requires var fired := Run(AlwaysOk, c, k, d).dec.fired;
             && |d.fired| < n <= |fired| && h(fired[..n]) != Ok
             && forall m :: |d.fired| < m < n ==> h(fired[..m]) == Ok
    ensures var fired := Run(AlwaysOk, c, k, d).dec.fired;
            Run(h, c, k, d).dec.fired == fired[..n] && Run(h, c, k, d).status == h(fired[..n])
    decreases Size(d)
  {
    hide Next, Refill, Run, Advance;
    var all := Run(AlwaysOk, c, k, d).dec.fired;
    NothingReported(AlwaysOk, c, k, d);
    assert Running(k);
    var next := Next(c, k, d.buf, d.ptr);
    if next.Bad? {
      StepFails(AlwaysOk, c, k, d, next.status);
    } else {
      var d1 := Fire(d.(ptr := next.end), next.event);
      StepMade(AlwaysOk, c, k, d, next.event, next.end);
      StepMade(h, c, k, d, next.event, next.end);
      CallbacksSucceed(AlwaysOk, c, Advance(k, next.event), d1);
      assert all[..|d1.fired|] == d1.fired;
      if n > |d1.fired| {
        FirstFailure(h, c, Advance(k, next.event), d1, n);
      }
    }
  }

  lemma {:induction false} FirstRefused(h: Handler, all: seq<Event>, from: nat) returns (n: nat)
    requires from <= |all| && forall m :: 0 < m < from ==> h(all[..m]) == Ok
    ensures from <= n <= |all| && forall m :: 0 < m < n ==> h(all[..m]) == Ok
    ensures n == |all| || (n > 0 && h(all[..n]) != Ok)
    decreases |all| - from
  {
    n := from;
    if from < |all| && (from == 0 || h(all[..from]) == Ok) {
      n := FirstRefused(h, all, from + 1);
    }
  }

  /** A handler sees the callbacks that an always successful one would see, up to the
      first that it fails. */
  lemma CallbacksMade(h: Handler, c: Limits, k: Control, d: Dec) returns (n: nat)
    requires Valid(d) && d.fired == []
    ensures var all := Run(AlwaysOk, c, k, d).dec.fired;
            && n <= |all| && Run(h, c, k, d).dec.fired == all[..n]
            && (forall m :: 0 < m < n ==> h(all[..m]) == Ok)
            && (if n == 0 || h(all[..n]) == Ok then n == |all| && Run(h, c, k, d) == Run(AlwaysOk, c, k, d)
                else Run(h, c, k, d).status == h(all[..n]))
  {
    hide Run;
    var all := Run(AlwaysOk, c, k, d).dec.fired;
    n := FirstRefused(h, all, 0);
    if n > 0 && h(all[..n]) != Ok {
      FirstFailure(h, c, k, d, n);
    } else {
      assert all[..n] == all;
      HarmlessHandler(h, c, k, d);
    }
  }

  /** Rewriting values keeps the shape of the event sequence. */
  lemma {:induction false} SameShape(k: Control, a: seq<Event>, b: seq<Event>)
    requires |a| == |b| && forall i :: 0 <= i < |a| ==> SameFrame(a[i], b[i])
    requires Follows(k, a)
    ensures Follows(k, b) && AdvanceAll(k, a) == AdvanceAll(k, b)
    decreases |a|
  {
    if a != [] {
      assert SameFrame(a[0], b[0]);
      SameShape(Advance(k, a[0]), a[1..], b[1..]);
    }
  }

  predicate SameFrame(a: Event, b: Event) {
    a == b || (a.Scalar? && b.Scalar? && a.name == b.name)
  }

  /** How the C library spells a double that it has read from a spelling. */
  type Respelling = (bool, string) -> (bool, string)

  ghost predicate SpellsFloats(r: Respelling) {
    forall negative, digits {:trigger r(negative, digits)} :: FloatSpelling(r(negative, digits).1)
  }

  function Respelled(r: Respelling, ev: Event): Event {
    if ev.Scalar? && ev.value.FloatV? then
      var f := r(ev.value.negative, ev.value.digits);
      Scalar(ev.name, FloatV(f.0, f.1))
    else ev
  }

  /** The encoder calls that a decoder's callbacks make: doubles are spelled anew. */
  function RespelledAll(r: Respelling, evs: seq<Event>): (t: seq<Event>)
    ensures |t| == |evs| && forall i :: 0 <= i < |evs| ==> SameFrame(evs[i], t[i])
  {
    seq(|evs|, i requires 0 <= i < |evs| => Respelled(r, evs[i]))
  }

  // ------------------------------------------- re-encoding what was decoded

  /** An event whose name and string the encoder can spell. */
  predicate Clean(ev: Event) {
    && (!ev.End? && ev.name.Some? ==> AllEscapable(ev.name.value))
    && (ev.Scalar? && ev.value.StrV? ==> AllEscapable(ev.value.s))
  }

  /** Scalars that come back as they were written. */
  predicate Writable(v: Value) {
    match v
    case IntV(i) => INT64_MIN <= i <= INT64_MAX
    case UIntV(u) => INT64_MAX < u <= UINT64_MAX
    case FloatV(_, digits) => FloatSpelling(digits)
    case StrV(s) => NUL !in s
    case _ => true
  }

  predicate WritableEvents(evs: seq<Event>) {
    forall i :: 0 <= i < |evs| && evs[i].Scalar? ==> Writable(evs[i].value)
  }

  /** Starting inside `depth` containers, no container is begun that isObject could not
      hold. */
  predicate Shallow(depth: nat, evs: seq<Event>)
    decreases |evs|
  {
    evs != [] ==>
      && (evs[0].Begin? ==> depth + 1 < MAX_LEVELS)
      && Shallow(DepthBehind(depth, evs[0]), evs[1..])
  }

  function DepthBehind(depth: nat, ev: Event): nat {
    if ev.Begin? then depth + 1 else if ev.End? && depth > 0 then depth - 1 else depth
  }

  /** A name or value that was written is no longer than the text. */
  lemma PartsFit(e: Enc, ev: Event)
    requires !ev.End?
    ensures InObject(e) && ev.name.Some? ==> |Escape(ev.name.value)| < |CallText(e, ev)|
    ensures ev.Scalar? && ev.value.StrV? ==> |Escape(ev.value.s)| < |CallText(e, ev)|
    ensures ev.Scalar? && ev.value.FloatV? ==> |ev.value.digits| <= |CallText(e, ev)|
  {
    hide Escape, Separator, Digits;
  }

  lemma AcceptedValue(c: Limits, e: Enc, ev: Event)
    requires Spellable(e, ev) && (ev.Scalar? ==> Writable(ev.value))
    requires |CallText(e, ev)| < c.nameLen && |CallText(e, ev)| < c.stringLen
    ensures LegalValue(c, ev) && (ev.Scalar? ==> CanonicalValue(ev.value) == ev.value)
  {
    hide Escape, CallText, FloatSpelling, AllEscapable;
    if ev.Scalar? {
      PartsFit(e, ev);
    }
  }

  lemma AcceptedName(c: Limits, e: Enc, k: Control, ev: Event)
    requires Shaped(k, ev) && k.stack == e.stack && !k.Element? && Spellable(e, ev) && !ev.End? && InObject(e)
    requires |CallText(e, ev)| < c.nameLen
    ensures LegalName(c, ev.name)
  {
    hide Escape, CallText, AllEscapable;
    PartsFit(e, ev);
  }

  lemma AcceptedCall(c: Limits, e: Enc, k: Control, ev: Event)
    requires Call(e, ev).status == Ok && Shaped(k, ev) && k.stack == e.stack
    requires k.Element? ==> k == ROOT && e.first && ev.Begin?
    requires ev.Scalar? ==> Writable(ev.value)
    requires ev.Begin? ==> |e.stack| + 1 < MAX_LEVELS
    requires |Call(e, ev).enc.out| < c.nameLen && |Call(e, ev).enc.out| < c.stringLen
    ensures LegalCall(c, e, ev) && Reported(InObject(e), ev) == ev && Call(e, ev).enc == AfterCall(e, ev)
    ensures AfterCall(e, ev).stack == Advance(k, ev).stack
  {
    hide Call, CallText, Spellable, LegalValue, LegalName, Writable;
    CallEffect(e, ev);
    assert |CallText(e, ev)| <= |AfterCall(e, ev).out|;
    AcceptedValue(c, e, ev);
    if !ev.End? && InObject(e) {
      AcceptedName(c, e, k, ev);
    }
  }

  lemma LevelBehind(e: Enc, ev: Event)
    ensures |AfterCall(e, ev).stack| == DepthBehind(|e.stack|, ev)
  {
    hide CallText;
  }

  /** If an encoder has accepted a sequence of events that a decoder can report, the
      calls were legal for any decoder whose buffers hold the whole text. */
  lemma {:induction false} AcceptedIsLegal(c: Limits, e: Enc, k: Control, evs: seq<Event>)
    requires Calls(e, evs).status == Ok && Follows(k, evs) && WritableEvents(evs) && Shallow(|e.stack|, evs)
    requires k.stack == e.stack && (k.Element? ==> k == ROOT && e.first && (evs != [] ==> evs[0].Begin?))
    requires |Calls(e, evs).enc.out| < c.nameLen && |Calls(e, evs).enc.out| < c.stringLen
    ensures LegalCalls(c, e, evs) && ReportedAll(e, evs) == evs && AfterCalls(e, evs) == Calls(e, evs).enc
    ensures AfterCalls(e, evs).stack == AdvanceAll(k, evs).stack
    decreases |evs|
  {
    hide Shaped, Writable, LegalCall, Reported, Call, AfterCall;
    if evs != [] {
      var next := Call(e, evs[0]).enc;
      CallEffect(e, evs[0]);
      assert evs[0].Scalar? ==> Writable(evs[0].value);
      OutputGrows(next, evs[1..]);
      AcceptedCall(c, e, k, evs[0]);
      assert |next.stack| == DepthBehind(|e.stack|, evs[0]) by { LevelBehind(e, evs[0]); }
      AcceptedIsLegal(c, next, Advance(k, evs[0]), evs[1..]);
    }
  }

  lemma {:induction false} OutputGrows(e: Enc, evs: seq<Event>)
    requires Calls(e, evs).status == Ok
    ensures e.out <= Calls(e, evs).enc.out
    decreases |evs|
  {
    hide CallText, Call;
    if evs != [] {
      CallEffect(e, evs[0]);
      OutputGrows(Call(e, evs[0]).enc, evs[1..]);
    }
  }

  lemma CleanInPlace(e: Enc, k: Control, ev: Event)
    requires Shaped(k, ev) && k.stack == e.stack && (k.Element? ==> k == ROOT)
    ensures Spellable(e, ev) <==> Clean(ev)
    ensures AfterCall(e, ev).stack == Advance(k, ev).stack && AfterCall(e, ev).limit == e.limit
  {
    hide CallText, AllEscapable;
  }

  /** An encoder accepts what a decoder can report exactly if it can spell every name
      and string and its handler takes the whole text. */
  lemma {:induction false} AcceptedExactly(e: Enc, k: Control, evs: seq<Event>)
    requires Follows(k, evs) && k.stack == e.stack && (k.Element? ==> k == ROOT) && Within(e)
    ensures Calls(e, evs).status == Ok <==> (forall i :: 0 <= i < |evs| ==> Clean(evs[i])) && Within(AfterCalls(e, evs))
    ensures Calls(e, evs).status == Ok ==>
              Calls(e, evs).enc == AfterCalls(e, evs) && AfterCalls(e, evs).stack == AdvanceAll(k, evs).stack
    decreases |evs|
  {
    hide Shaped, Call, Spellable, Clean, Advance, CallText;
    if evs != [] {
      var next := AfterCall(e, evs[0]);
      CallEffect(e, evs[0]);
      CleanInPlace(e, k, evs[0]);
      assert |next.out| == |e.out| + |CallText(e, evs[0])|;
      assert next.out <= AfterCalls(e, evs).out && AfterCalls(e, evs).limit == e.limit;
      if Calls(e, evs).status == Ok || ((forall i :: 0 <= i < |evs| ==> Clean(evs[i])) && Within(AfterCalls(e, evs))) {
        assert Call(e, evs[0]).status == Ok && Clean(evs[0]);
        NotElement(k, evs[0]);
        AcceptedExactly(next, Advance(k, evs[0]), evs[1..]);
        assert forall i :: 0 < i < |evs| ==> evs[i] == evs[1..][i - 1];
      }
    }
  }

  lemma NotElement(k: Control, ev: Event)
    ensures !Advance(k, ev).Element?
  {
  }

  lemma {:induction false} LimitIrrelevant(e: Enc, f: Enc, evs: seq<Event>)
    requires f == e.(limit := f.limit)
    ensures AfterCalls(f, evs) == AfterCalls(e, evs).(limit := f.limit)
    decreases |evs|
  {
    hide Separator, NameText, ValueText;
    if evs != [] {
      assert CallText(e, evs[0]) == CallText(f, evs[0]) by { SameText(e, f, evs[0]); }
      LimitIrrelevant(AfterCall(e, evs[0]), AfterCall(f, evs[0]), evs[1..]);
    }
  }

  lemma SameText(e: Enc, f: Enc, ev: Event)
    requires f == e.(limit := f.limit)
    ensures CallText(e, ev) == CallText(f, ev)
  {
    hide Escape, ValueText;
  }
}
