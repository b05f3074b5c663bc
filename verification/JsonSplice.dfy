/** Adding JSON text to an encoding in progress: the decoder's callbacks are calls of
    the encoder. */
module JsonSplice {
  import opened JsonText
  import opened JsonEncoder
  import opened JsonDecoder
  import opened JsonRoundTrip
  import opened JsonDocument
  import opened JsonEvents
  import opened JsonWindow
  import opened JsonBalance

  /** ksjson_addJSONElement and ksjson_addJSONFromFile use these buffers. */
  const ELEMENT_LIMITS: Limits := Limits(100, 5000)
  const FILE_LIMITS: Limits := Limits(100, 500)

  /** addJSONFromFile_on...: every event is the encoder call of the same name, but
      without `close` a container at level 1 or 2 is not closed. */
  function Callback(close: bool, e: Enc, ev: Event): EncResult {
    if ev.End? && !close && |e.stack| <= 2 then EncResult(e, Ok) else Call(e, ev)
  }

  function Replay(close: bool, e: Enc, evs: seq<Event>): EncResult
    decreases |evs|
  {
    if evs == [] then EncResult(e, Ok)
    else
      var r := Callback(close, e, evs[0]);
      if r.status != Ok then r else Replay(close, r.enc, evs[1..])
  }

  /** The result of the latest callback, given all callbacks so far. */
  ghost function Replaying(r: Respelling, close: bool, e: Enc): Handler {
    evs => Replay(close, e, RespelledAll(r, evs)).status
  }

  function CloseTo(e: Enc, level: nat): Enc
    decreases |e.stack|
  {
    if |e.stack| <= level then e
    else
      PopsOne(e);
      CloseTo(EndContainer(e).enc, level)
  }

  /** The encoder behind the callbacks of a splice and, with `close`, its closing loop. */
  ghost function Spliced(r: Respelling, e: Enc, fired: seq<Event>, close: bool): Enc {
    var after := Replay(close, e, RespelledAll(r, fired)).enc;
    if close then CloseTo(after, |e.stack|) else after
  }

  ghost function Decoding(c: Limits, r: Respelling, e: Enc, name: Option<string>, json: string, close: bool): Outcome {
    Run(Replaying(r, close, e), c, Element(name, []), InMemory(json))
  }

  /** ksjson_addJSONElement; r is how the C library respells doubles. */
  ghost function Splice(c: Limits, r: Respelling, e: Enc, name: Option<string>, json: string, close: bool): EncResult {
    var decoded := Decoding(c, r, e, name, json, close);
    EncResult(Spliced(r, e, decoded.dec.fired, close), decoded.status)
  }

  /** ksjson_addJSONFromFile: the same through a window of 1000 bytes. */
  ghost function SpliceFile(r: Respelling, e: Enc, name: Option<string>, file: string, close: bool): EncResult {
    var decoded := Run(Replaying(r, close, e), FILE_LIMITS, Element(name, []), OpenWindow(file, 1000));
    EncResult(Spliced(r, e, decoded.dec.fired, close), decoded.status)
  }

  /** What the text would call if no callback failed. */
  ghost function TextEvents(c: Limits, name: Option<string>, json: string): seq<Event> {
    Run(AlwaysOk, c, Element(name, []), InMemory(json)).dec.fired
  }

  // ------------------------------------------------------------ every splice

  lemma {:induction false} ClosesTo(e: Enc, level: nat)
    requires level <= |e.stack|
    ensures CloseTo(e, level).stack == e.stack[..level]
    ensures e.limit.None? ==> CloseTo(e, level) == AfterCalls(e, Ends(|e.stack| - level))
    decreases |e.stack|
  {
    hide CallText;
    if |e.stack| > level {
      PopsOne(e);
      CallEffect(e, End);
      var ends := Ends(|e.stack| - level);
      assert ends[0] == End && ends[1..] == Ends(|e.stack| - level - 1);
      ClosesTo(EndContainer(e).enc, level);
    } else {
      assert e.stack[..level] == e.stack;
    }
  }

  /** Failed calls may leave partial text but never change the container stack below
      what the splice itself opened. */
  lemma FailedCallKeepsStack(e: Enc, ev: Event)
    requires !ev.End? && Call(e, ev).status != Ok
    ensures Call(e, ev).enc.stack == e.stack || (ev.Begin? && Call(e, ev).enc.stack == e.stack + [ev.isObject])
    ensures Call(e, ev).enc.limit == e.limit
  {
    BeginElementStack(e, ev.name);
    if ev.Scalar? && ev.value.StrV? {
      QuotedStack(BeginElement(e, ev.name).enc, ev.value.s);
    }
  }

  lemma BeginElementStack(e: Enc, name: Option<string>)
    ensures BeginElement(e, name).enc.stack == e.stack && BeginElement(e, name).enc.limit == e.limit
  {
    hide AddEscaped, EmitIndent;
    var comma := if e.first then EncResult(e.(first := false), Ok) else Emit(e, ",");
    IndentKeepsStack(Emit(comma.enc, "\n").enc, |e.stack|);
    var lead := Separate(e);
    assert lead.enc.stack == e.stack && lead.enc.limit == e.limit;
    if InObject(e) && name.Some? {
      QuotedStack(lead.enc, name.value);
    }
  }

  lemma QuotedStack(e: Enc, s: string)
    ensures AddQuoted(e, s).enc.stack == e.stack && AddQuoted(e, s).enc.limit == e.limit
  {
    EscapedStack(Emit(e, "\"").enc, s);
  }

  lemma {:induction false} EscapedStack(e: Enc, s: string)
    ensures AddEscaped(e, s).enc.stack == e.stack && AddEscaped(e, s).enc.limit == e.limit
    decreases |s|
  {
    hide Escape, AllEscapable;
    if s != "" {
      var n := if |s| > MAX_CHUNK then MAX_CHUNK else |s|;
      EscapedStack(AppendEscaped(e, s[..n]).enc, s[n..]);
    }
  }

  /** However the decoding ends, the containers open before the splice are still open. */
  lemma {:induction false} ReplayKeepsBase(base: seq<bool>, e: Enc, k: Control, evs: seq<Event>)
    requires Follows(k, evs) && e.stack == base + k.stack && |base| >= 1
    ensures var r := Replay(true, e, evs);
            |base| <= |r.enc.stack| && r.enc.stack[..|base|] == base && r.enc.limit == e.limit
    decreases |evs|
  {
    hide CallText, Spellable;
    if evs == [] {
    } else {
      var ev := evs[0];
      CallEffect(e, ev);
      if Call(e, ev).status == Ok {
        assert Call(e, ev).enc.stack == base + Advance(k, ev).stack;
        ReplayKeepsBase(base, Call(e, ev).enc, Advance(k, ev), evs[1..]);
      } else if ev.End? {
        PopsOne(e);
      } else {
        FailedCallKeepsStack(e, ev);
      }
    }
  }

  /** What endContainer calls make of an encoder until so many containers are open. */
  ghost predicate ClosedByEnds(after: Enc, closed: Enc, level: nat) {
    |after.stack| >= level && closed == AfterCalls(after, Ends(|after.stack| - level))
  }

  /** Whatever was called back before the decoder stopped, the closing loop restores the
      level. */
  lemma ClosingRestores(r: Respelling, e: Enc, name: Option<string>, fired: seq<Event>)
    requires |e.stack| >= 1 && Follows(Element(name, []), fired)
    ensures Spliced(r, e, fired, true).stack == e.stack
    ensures e.limit.None? ==> ClosedByEnds(Replay(true, e, RespelledAll(r, fired)).enc,
                                           Spliced(r, e, fired, true), |e.stack|)
  {
    hide Replay, CloseTo, AfterCalls, Follows, AdvanceAll, SameFrame;
    var calls := RespelledAll(r, fired);
    SameShape(Element(name, []), fired, calls);
    assert e.stack + [] == e.stack && e.stack[..|e.stack|] == e.stack;
    ReplayKeepsBase(e.stack, e, Element(name, []), calls);
    ClosesTo(Replay(true, e, calls).enc, |e.stack|);
  }

  lemma FiredFollows(h: Handler, c: Limits, name: Option<string>, d: Dec)
    requires Valid(d) && d.fired == []
    ensures var fired := Run(h, c, Element(name, []), d).dec.fired;
            Follows(Element(name, []), fired) && forall i :: 0 <= i < |fired| ==> DecodedEvent(fired[i])
  {
    hide Run, DecodedEvent;
    var evs := RunReports(h, c, Element(name, []), d);
    assert [] + evs == evs;
  }

  /** A closing splice of any text, whether it succeeds or fails, restores the level:
      exactly the containers open before are open after, and with a handler that takes
      everything the closings are endContainer calls. */
  lemma ClosingSpliceRestores(c: Limits, r: Respelling, e: Enc, name: Option<string>, json: string)
    requires |e.stack| >= 1 && Shallow(|e.stack|, TextEvents(c, name, json))
    ensures Splice(c, r, e, name, json, true).enc.stack == e.stack
    ensures e.limit.None? ==>
              ClosedByEnds(Replay(true, e, RespelledAll(r, Decoding(c, r, e, name, json, true).dec.fired)).enc,
                           Splice(c, r, e, name, json, true).enc, |e.stack|)
  {
    hide Run, Replay, CloseTo, AfterCalls, DecodedEvent, Spliced, Follows;
    FiredFollows(Replaying(r, true, e), c, name, InMemory(json));
    ClosingRestores(r, e, name, Decoding(c, r, e, name, json, true).dec.fired);
  }

  /** The same for any file, malformed or not, whatever the window makes of it. */
  lemma ClosingFileSpliceRestores(r: Respelling, e: Enc, name: Option<string>, file: string)
    requires |e.stack| >= 1
    requires Shallow(|e.stack|, Run(AlwaysOk, FILE_LIMITS, Element(name, []), OpenWindow(file, 1000)).dec.fired)
    ensures SpliceFile(r, e, name, file, true).enc.stack == e.stack
  {
    hide Run, DecodedEvent, Spliced, Follows, OpenWindow;
    assert OpenWindow(file, 1000).fired == [] && Valid(OpenWindow(file, 1000)) by { WindowUnused(file, 1000); }
    FiredFollows(Replaying(r, true, e), FILE_LIMITS, name, OpenWindow(file, 1000));
    ClosingRestores(r, e, name,
                    Run(Replaying(r, true, e), FILE_LIMITS, Element(name, []), OpenWindow(file, 1000)).dec.fired);
  }

  lemma WindowUnused(file: string, size: nat)
    ensures Valid(OpenWindow(file, size)) && OpenWindow(file, size).fired == []
  {
  }

  // ------------------------------------------------------------- what is left behind

  lemma {:induction false} ReplayBalanced(close: bool, e: Enc, evs: seq<Event>)
    requires Balanced(e) && forall i :: 0 <= i < |evs| ==> PlainFloat(evs[i])
    ensures Balanced(Replay(close, e, evs).enc)
    decreases |evs|
  {
    hide Call, Balanced, PlainFloat;
    if evs != [] {
      CallBalanced(e, evs[0]);
      var r := Callback(close, e, evs[0]);
      if r.status == Ok {
        ReplayBalanced(close, r.enc, evs[1..]);
      }
    }
  }

  lemma {:induction false} CloseToBalanced(e: Enc, level: nat)
    requires Balanced(e)
    ensures Balanced(CloseTo(e, level))
    decreases |e.stack|
  {
    hide Balanced, EndContainer;
    if |e.stack| > level {
      EndBalanced(e);
      CloseToBalanced(EndContainer(e).enc, level);
    }
  }

  lemma RespelledPlain(r: Respelling, fired: seq<Event>)
    requires SpellsFloats(r)
    ensures forall i :: 0 <= i < |fired| ==> PlainFloat(RespelledAll(r, fired)[i])
  {
    forall i | 0 <= i < |fired|
      ensures PlainFloat(Respelled(r, fired[i]))
    {
      if fired[i].Scalar? && fired[i].value.FloatV? {
        assert FloatSpelling(r(fired[i].value.negative, fired[i].value.digits).1);
      }
    }
  }

  /** Every splice, of text or of a file, closing or not, and however it fails, keeps
      brackets and quotes matched: the open brackets are the container stack, and
      endEncode closes them. */
  lemma SpliceBalanced(c: Limits, r: Respelling, e: Enc, name: Option<string>, json: string, close: bool)
    requires Balanced(e) && SpellsFloats(r)
    requires Shallow(|e.stack|, TextEvents(c, name, json))
    requires Shallow(|e.stack|, Run(AlwaysOk, FILE_LIMITS, Element(name, []), OpenWindow(json, 1000)).dec.fired)
    ensures Balanced(Splice(c, r, e, name, json, close).enc) && Balanced(SpliceFile(r, e, name, json, close).enc)
    ensures Balanced(EndEncode(Splice(c, r, e, name, json, close).enc).enc)
  {
    hide Run, Balanced, SpellsFloats, Shallow, EndEncode;
    var fired := Decoding(c, r, e, name, json, close).dec.fired;
    SplicedBalanced(r, e, fired, close);
    SplicedBalanced(r, e,
        Run(Replaying(r, close, e), FILE_LIMITS, Element(name, []), OpenWindow(json, 1000)).dec.fired, close);
    EndEncodeBalanced(Splice(c, r, e, name, json, close).enc);
  }

  lemma SplicedBalanced(r: Respelling, e: Enc, fired: seq<Event>, close: bool)
    requires Balanced(e) && SpellsFloats(r)
    ensures Balanced(Spliced(r, e, fired, close))
  {
    hide Balanced, SpellsFloats, Replay, CloseTo, PlainFloat, SameFrame;
    RespelledPlain(r, fired);
    ReplayBalanced(close, e, RespelledAll(r, fired));
    if close {
      CloseToBalanced(Replay(close, e, RespelledAll(r, fired)).enc, |e.stack|);
    }
  }

  // ---------------------------------------------------- the document that results

  lemma {:induction false} EndEncodeClosesRest(e: Enc, level: nat)
    requires e.limit.None?
    ensures EndEncode(CloseTo(e, level)) == EndEncode(e)
    decreases |e.stack|
  {
    hide EndContainer;
    if |e.stack| > level {
      PopsOne(e);
      EndAlwaysSucceeds(e);
      EndEncodeClosesRest(EndContainer(e).enc, level);
    }
  }

  /** The control point of a splice, seen from the document it is spliced into. */
  function Lifted(base: seq<bool>, k: Control): Control {
    if k.After? then After(base + k.stack) else Loop(base + k.stack)
  }

  lemma {:induction false} FollowsLifted(base: seq<bool>, k: Control, evs: seq<Event>)
    requires |base| >= 1 && Follows(k, evs)
    requires k.Element? ==>
               && k.stack == [] && k.name.Some? == base[|base| - 1]
               && (k.name.Some? ==> NUL !in k.name.value)
    ensures Follows(Lifted(base, k), evs)
    decreases |evs|
  {
    if evs != [] {
      assert Advance(Lifted(base, k), evs[0]) == Lifted(base, Advance(k, evs[0])) by { AdvanceLifted(base, k, evs[0]); }
      FollowsLifted(base, Advance(k, evs[0]), evs[1..]);
    }
  }

  lemma AdvanceLifted(base: seq<bool>, k: Control, ev: Event)
    requires Shaped(k, ev) && (k.Element? ==> k.stack == [])
    ensures Advance(Lifted(base, k), ev) == Lifted(base, Advance(k, ev))
  {
    match ev
    case Begin(isObject, _) => assert base + k.stack + [isObject] == base + (k.stack + [isObject]);
    case End => assert (base + k.stack)[..|base + k.stack| - 1] == base + k.stack[..|k.stack| - 1];
    case Scalar(_, _) =>
  }

  lemma RespelledWritable(r: Respelling, fired: seq<Event>)
    requires SpellsFloats(r) && forall i :: 0 <= i < |fired| ==> DecodedEvent(fired[i])
    ensures WritableEvents(RespelledAll(r, fired))
  {
    hide FloatSpelling;
    forall i | 0 <= i < |fired| && fired[i].Scalar?
      ensures Writable(Respelled(r, fired[i]).value)
    {
      assert DecodedEvent(fired[i]);
      if fired[i].value.FloatV? {
        assert FloatSpelling(r(fired[i].value.negative, fired[i].value.digits).1);
      }
    }
  }

  lemma {:induction false} ShallowCalls(r: Respelling, depth: nat, evs: seq<Event>, calls: seq<Event>)
    requires |calls| == |evs| && forall i :: 0 <= i < |evs| ==> calls[i] == Respelled(r, evs[i])
    requires Shallow(depth, evs)
    ensures Shallow(depth, calls)
    decreases |evs|
  {
    if evs != [] {
      assert calls[0] == Respelled(r, evs[0]);
      ShallowCalls(r, DepthBehind(depth, evs[0]), evs[1..], calls[1..]);
    }
  }

  /** What was accepted from a splice is a legal continuation of the document. */
  lemma SplicedIsLegal(c: Limits, big: Limits, r: Respelling, e: Enc, name: Option<string>, json: string)
    requires |e.stack| >= 1 && name.Some? == InObject(e) && (name.Some? ==> NUL !in name.value)
    requires SpellsFloats(r) && Shallow(|e.stack|, TextEvents(c, name, json))
    requires var calls := RespelledAll(r, TextEvents(c, name, json));
             && Calls(e, calls).status == Ok
             && |Calls(e, calls).enc.out| < big.nameLen && |Calls(e, calls).enc.out| < big.stringLen
    ensures var calls := RespelledAll(r, TextEvents(c, name, json));
            && LegalCalls(big, e, calls) && ReportedAll(e, calls) == calls
            && AfterCalls(e, calls) == Calls(e, calls).enc
  {
    hide Run, Calls, Follows, DecodedEvent, SameFrame, Shallow, LegalCalls, AfterCalls, ReportedAll, WritableEvents,
         SpellsFloats, AdvanceAll;
    var evs := TextEvents(c, name, json);
    var calls := RespelledAll(r, evs);
    FiredFollows(AlwaysOk, c, name, InMemory(json));
    SameShape(Element(name, []), evs, calls);
    FollowsLifted(e.stack, Element(name, []), calls);
    assert e.stack + [] == e.stack;
    RespelledWritable(r, evs);
    ShallowCalls(r, |e.stack|, evs, calls);
    AcceptedIsLegal(big, e, Loop(e.stack), calls);
  }

  /** A closing splice into a document, of text that decodes, breaks off or turns
      malformed at any point, as long as the encoder accepts its callbacks: the document
      that endEncode finishes decodes to the earlier calls, the callbacks made, and the
      closings of every container. */
  lemma ClosingSpliceDocument(c: Limits, big: Limits, r: Respelling, pretty: bool, before: seq<Event>,
      name: Option<string>, json: string)
    requires LegalDocument(big, before) && SpellsFloats(r)
    requires var e := AfterCalls(BeginEncode(pretty, None), before);
             && |e.stack| >= 1 && name.Some? == InObject(e) && (name.Some? ==> NUL !in name.value)
             && Shallow(|e.stack|, TextEvents(c, name, json))
             && var calls := RespelledAll(r, TextEvents(c, name, json));
             && Calls(e, calls).status == Ok
             && |Calls(e, calls).enc.out| < big.nameLen && |Calls(e, calls).enc.out| < big.stringLen
    ensures var e := AfterCalls(BeginEncode(pretty, None), before);
            var all := before + RespelledAll(r, TextEvents(c, name, json));
            var document := EndEncode(Splice(c, r, e, name, json, true).enc).enc.out;
            && LegalDocument(big, all) && document == DocumentText(pretty, all)
            && Decode(big, document).status == Ok
            && Decode(big, document).dec.fired == ReportedCalls(all) + Ends(OpenLevels(all))
  {
    hide Run, Calls, SameFrame, Shallow, LegalCalls, AfterCalls, ReportedAll, SpellsFloats, EndEncode, CloseTo,
         SeparatedFrom;
    var begin := BeginEncode(pretty, None);
    var e := AfterCalls(begin, before);
    var calls := RespelledAll(r, TextEvents(c, name, json));
    SplicedIsLegal(c, big, r, e, name, json);
    PrettyIrrelevant(big, BeginEncode(false, None), begin, before);
    PrettyIrrelevant(big, BeginEncode(false, None), begin, before + calls);
    CallsAppend(big, begin, before, calls);
    LegalCallsSucceed(big, begin, before);
    LegalCallsSucceed(big, begin, before + calls);
    ReplayIsCalls(e, calls);
    ReplayedToTheEnd(c, r, e, name, json, true);
    EndEncodeClosesRest(AfterCalls(e, calls), |e.stack|);
    assert before + calls != [] by { DocumentNotEmpty(big, before); }
    assert LegalDocument(big, before + calls);
    RoundTrip(big, pretty, before + calls);
  }

  lemma DocumentNotEmpty(c: Limits, evs: seq<Event>)
    requires LegalDocument(c, evs)
    ensures evs != []
  {
  }

  // ------------------------------------------------------- successful splices

  lemma {:induction false} ReplayIsCalls(e: Enc, evs: seq<Event>)
    ensures Replay(true, e, evs) == Calls(e, evs)
    decreases |evs|
  {
    hide Call;
    if evs != [] {
      ReplayIsCalls(Call(e, evs[0]).enc, evs[1..]);
    }
  }

  /** While its root is unfinished, text spliced into a level-1 container makes the same
      calls with and without closing. */
  lemma {:induction false} OpenReplay(base: seq<bool>, e: Enc, k: Control, evs: seq<Event>)
    requires Follows(k, evs) && Running(AdvanceAll(k, evs)) && e.stack == base + k.stack && |base| >= 1
    requires Calls(e, evs).status == Ok
    ensures Replay(false, e, evs) == Calls(e, evs)
    ensures Calls(e, evs).enc.stack == base + AdvanceAll(k, evs).stack
    decreases |evs|
  {
    hide CallText, Spellable;
    if evs != [] {
      var ev := evs[0];
      CallEffect(e, ev);
      var next := Advance(k, ev);
      assert Call(e, ev).enc.stack == base + next.stack;
      assert Running(next) by {
        if evs[1..] != [] { assert Shaped(next, evs[1..][0]); }
      }
      OpenReplay(base, Call(e, ev).enc, next, evs[1..]);
    }
  }

  /** The last event of a finished container root closes it. */
  lemma {:induction false} LastCloses(k: Control, evs: seq<Event>)
    requires Follows(k, evs) && evs != [] && !Running(AdvanceAll(k, evs))
    requires k.Element? && k.stack == [] ==> evs[0].Begin?
    ensures evs[|evs| - 1] == End
    ensures Follows(k, evs[..|evs| - 1]) && AdvanceAll(k, evs[..|evs| - 1]).stack == [RootKind(k, evs)]
    ensures Running(AdvanceAll(k, evs[..|evs| - 1]))
    decreases |evs|
  {
    var next := Advance(k, evs[0]);
    if |evs| == 1 {
      assert evs[..0] == [] && evs[1..] == [];
    } else {
      var rest := evs[1..];
      assert rest[..|rest| - 1] == evs[..|evs| - 1][1..];
      assert Shaped(next, rest[0]);
      LastCloses(next, rest);
    }
  }

  /** Whether the root of the event sequence is an object. */
  function RootKind(k: Control, evs: seq<Event>): bool
    requires evs != [] && (k.Element? && k.stack == [] ==> evs[0].Begin?)
  {
    if |k.stack| > 0 then k.stack[0] else if evs[0].Begin? then evs[0].isObject else false
  }

  lemma {:induction false} ReplaySplit(close: bool, e: Enc, a: seq<Event>, b: seq<Event>)
    ensures Replay(close, e, a + b) ==
            if Replay(close, e, a).status == Ok then Replay(close, Replay(close, e, a).enc, b) else Replay(close, e, a)
    decreases |a|
  {
    hide Callback;
    if a == [] {
      assert a + b == b;
    } else {
      assert (a + b)[0] == a[0] && (a + b)[1..] == a[1..] + b;
      ReplaySplit(close, Callback(close, e, a[0]).enc, a[1..], b);
    }
  }

  lemma RespelledPrefix(r: Respelling, evs: seq<Event>, n: nat)
    requires n <= |evs|
    ensures RespelledAll(r, evs[..n]) == RespelledAll(r, evs)[..n]
  {
  }

  /** If the whole replay succeeds, so did every callback, and none cut the run short. */
  lemma ReplayedToTheEnd(c: Limits, r: Respelling, e: Enc, name: Option<string>, json: string, close: bool)
    requires Replay(close, e, RespelledAll(r, TextEvents(c, name, json))).status == Ok
    ensures Decoding(c, r, e, name, json, close) == Run(AlwaysOk, c, Element(name, []), InMemory(json))
  {
    hide Run, Replay;
    var all := TextEvents(c, name, json);
    var calls := RespelledAll(r, all);
    forall n | 0 < n <= |all| ensures Replaying(r, close, e)(all[..n]) == Ok {
      RespelledPrefix(r, all, n);
      assert calls == calls[..n] + calls[n..];
      ReplaySplit(close, e, calls[..n], calls[n..]);
    }
    HarmlessHandler(Replaying(r, close, e), c, Element(name, []), InMemory(json));
  }

  /** Without closing, the root's own end is skipped exactly at level 1. */
  lemma RootEnd(e: Enc, name: Option<string>, evs: seq<Event>)
    requires |e.stack| >= 1 && evs != [] && evs[0].Begin? && Calls(e, evs).status == Ok
    requires Follows(Element(name, []), evs) && !Running(AdvanceAll(Element(name, []), evs))
    ensures Calls(e, evs).enc.stack == e.stack
    ensures var n := |evs| - 1;
            var open := Calls(e, evs[..n]).enc;
            && open.stack == e.stack + [evs[0].isObject]
            && EndContainer(open) == Calls(e, evs)
            && Replay(false, e, evs) == if |e.stack| == 1 then EncResult(open, Ok) else Calls(e, evs)
  {
    hide Replay, Calls, Follows, AdvanceAll, CallText;
    var n := |evs| - 1;
    var k := Element(name, []);
    LastCloses(k, evs);
    assert evs == evs[..n] + [End];
    CallsSplit(e, evs[..n], [End]);
    ReplaySplit(false, e, evs[..n], [End]);
    assert e.stack + [] == e.stack;
    OpenReplay(e.stack, e, k, evs[..n]);
    var open := Calls(e, evs[..n]).enc;
    SingleCall(open, End);
    CallEffect(open, End);
    assert (e.stack + [evs[0].isObject])[..|e.stack|] == e.stack;
  }

  lemma SingleCall(e: Enc, ev: Event)
    ensures Calls(e, [ev]) == Call(e, ev)
    ensures Replay(false, e, [ev]) == Callback(false, e, ev)
  {
  }

  /** Splicing text whose root is a container makes, in order, the calls its events
      name.  With closing that is all; without, at level 1 the root stays open, one
      endContainer completes it, and calls in between land inside it; at deeper levels
      the flag makes no difference. */
  lemma SpliceMakesCalls(c: Limits, r: Respelling, e: Enc, name: Option<string>, json: string, calls: seq<Event>)
    requires |e.stack| >= 1 && Shallow(|e.stack|, TextEvents(c, name, json))
    requires Run(AlwaysOk, c, Element(name, []), InMemory(json)).status == Ok
    requires calls == RespelledAll(r, TextEvents(c, name, json))
    requires calls != [] && calls[0].Begin? && Calls(e, calls).status == Ok
    ensures Splice(c, r, e, name, json, true) == Calls(e, calls)
    ensures var open := Splice(c, r, e, name, json, false);
            && open.status == Ok
            && (|e.stack| == 1 ==>
                  open.enc.stack == e.stack + [calls[0].isObject] && EndContainer(open.enc) == Calls(e, calls))
            && (|e.stack| >= 2 ==> open == Calls(e, calls))
  {
    hide Run, Replay, Calls, AdvanceAll, Follows, DecodedEvent, CloseTo, SameFrame;
    var k := Element(name, []);
    var evs := RunReports(AlwaysOk, c, k, InMemory(json));
    assert [] + evs == evs == TextEvents(c, name, json);
    SameShape(k, evs, calls);
    RootEnd(e, name, calls);
    ReplayIsCalls(e, calls);
    ReplayedToTheEnd(c, r, e, name, json, true);
    ReplayedToTheEnd(c, r, e, name, json, false);
    NothingToCloseTo(Calls(e, calls).enc, |e.stack|);
  }

  lemma NothingToCloseTo(e: Enc, level: nat)
    requires |e.stack| <= level
    ensures CloseTo(e, level) == e
  {
  }

  /** Splicing a rendering of a tree, in either layout, adds the tree as direct calls
      would add it. */
  lemma SpliceAddsTree(c: Limits, r: Respelling, e: Enc, name: Option<string>, t: Tree, pretty: bool)
    requires |e.stack| >= 1 && e.limit.None? && Nameable(e, name)
    requires t.Node? && TreeFits(c, t) && |e.stack| + Depth(t) < MAX_LEVELS
    ensures var calls := RespelledAll(r, TreeEvents(name, t));
            && Calls(e, calls).status == Ok
            && Splice(c, r, e, name, DocumentText(pretty, TreeEvents(None, t)), true) == Calls(e, calls)
            && (|e.stack| == 1 ==>
                  var open := Splice(c, r, e, name, DocumentText(pretty, TreeEvents(None, t)), false).enc;
                  open.stack == e.stack + [t.isObject] && EndContainer(open) == Calls(e, calls))
  {
    hide Run, Splice, Calls, DocumentText, TreeFits, Shallow, SameFrame, KidEvents;
    var json := DocumentText(pretty, TreeEvents(None, t));
    var evs := TreeEvents(name, t);
    TreeFromElement(c, name, t, pretty);
    TreeIsSpellable(c, e, name, t);
    TreeShallow(|e.stack|, name, t, []);
    assert evs + [] == evs;
    RespelledSucceeds(r, e, evs);
    SpliceMakesCalls(c, r, e, name, json, RespelledAll(r, evs));
  }

  lemma {:induction false} TreeShallow(depth: nat, name: Option<string>, t: Tree, more: seq<Event>)
    requires depth + Depth(t) < MAX_LEVELS && Shallow(depth, more)
    ensures Shallow(depth, TreeEvents(name, t) + more)
    decreases t, 0
  {
    match t
    case Leaf(v) =>
      assert ([Scalar(name, v)] + more)[1..] == more;
    case Node(isObject, kids) =>
      var all := TreeEvents(name, t) + more;
      assert ([End] + more)[1..] == more;
      KidsShallow(depth + 1, isObject, kids, [End] + more);
      assert all[1..] == KidEvents(isObject, kids) + ([End] + more);
  }

  lemma {:induction false} KidsShallow(depth: nat, isObject: bool, kids: Kids, more: seq<Event>)
    requires depth + KidsDepth(kids) < MAX_LEVELS && Shallow(depth, more)
    ensures Shallow(depth, KidEvents(isObject, kids) + more)
    decreases kids, 1
  {
    match kids
    case NoKids => assert [] + more == more;
    case Kid(name, t, rest) =>
      KidsShallow(depth, isObject, rest, more);
      TreeShallow(depth, if isObject then Some(name) else None, t, KidEvents(isObject, rest) + more);
      var one := TreeEvents(if isObject then Some(name) else None, t);
      assert one + KidEvents(isObject, rest) + more == one + (KidEvents(isObject, rest) + more);
  }

  /** Respelling a double changes nothing about which calls an unlimited handler accepts. */
  lemma RespelledSucceeds(r: Respelling, e: Enc, evs: seq<Event>)
    requires e.limit.None? && Calls(e, evs).status == Ok
    ensures Calls(e, RespelledAll(r, evs)).status == Ok
  {
    hide Calls, SameFrame;
    LikeCalls(r, e, e, evs, RespelledAll(r, evs));
  }

  lemma {:induction false} LikeCalls(r: Respelling, e: Enc, f: Enc, evs: seq<Event>, calls: seq<Event>)
    requires e.limit.None? && f.limit.None? && e.stack == f.stack && Calls(e, evs).status == Ok
    requires |calls| == |evs| && forall i :: 0 <= i < |evs| ==> calls[i] == Respelled(r, evs[i])
    ensures Calls(f, calls).status == Ok
    decreases |evs|
  {
    hide Call, CallText;
    if evs != [] {
      CallEffect(e, evs[0]);
      assert calls[0] == Respelled(r, evs[0]);
      assert Spellable(f, calls[0]);
      CallEffect(f, calls[0]);
      LikeCalls(r, Call(e, evs[0]).enc, Call(f, calls[0]).enc, evs[1..], calls[1..]);
    }
  }

  /** A spliced root takes its name from the caller instead of the text. */
  lemma TreeFromElement(c: Limits, name: Option<string>, t: Tree, pretty: bool)
    requires t.Node? && TreeFits(c, t) && Depth(t) < MAX_LEVELS
    ensures var all := Run(AlwaysOk, c, Element(name, []), InMemory(DocumentText(pretty, TreeEvents(None, t))));
            all.status == Ok && all.dec.fired == TreeEvents(name, t)
  {
    hide Run, LegalCalls, AfterCalls, ReportedAll, CallText, EndEncode, Next, AfterCall, DocumentText, KidEvents,
         TreeFits;
    var begin := BeginEncode(pretty, None);
    var root := Begin(t.isObject, None);
    var rest := KidEvents(t.isObject, t.kids) + [End];
    var evs := TreeEvents(None, t);
    assert evs == [root] + rest && evs[1..] == rest;
    var s := DocumentText(pretty, evs);
    TreeDocument(c, t, pretty);
    SplitFirst(c, begin, evs);
    var inner := AfterCall(begin, root);
    TextFollows(s, begin, root);
    RootText(pretty, t.isObject);
    TokenDecodes(c, name, s, 0, root);
    assert Next(c, Element(name, []), s, 0) == AtElement(c, name, s, 0) by { NextElement(c, name, s); }
    assert ReportedAll(inner, rest) == ReportedAll(begin, evs)[1..] == rest;
    assert [Begin(t.isObject, name)] + rest == TreeEvents(name, t);
    StepFromMemory(c, Element(name, []), s, 0, [], Begin(t.isObject, name), |inner.out|);
    KeepsStep(c, s, inner, rest, [Begin(t.isObject, name)]);
    Finished(c, s, TreeEvents(name, t));
    var d := Reading(s, |inner.out|, [Begin(t.isObject, name)]);
    assert [] + [t.isObject] == [t.isObject];
    assert Advance(Element(name, []), Begin(t.isObject, name)) == Loop([t.isObject]);
    assert InMemory(s) == Reading(s, 0, []) && [] + [Begin(t.isObject, name)] == d.fired;
    assert Run(AlwaysOk, c, Element(name, []), InMemory(s)) == Run(AlwaysOk, c, Loop([t.isObject]), d);
    assert Run(AlwaysOk, c, Loop([t.isObject]), d) == Run(AlwaysOk, c, After([]), Reading(s, |s|, TreeEvents(name, t)));
  }

  lemma NextElement(c: Limits, name: Option<string>, s: string)
    ensures Next(c, Element(name, []), s, 0) == AtElement(c, name, s, 0)
  {
  }

  /** The document of a tree is written by its events alone. */
  lemma TreeDocument(c: Limits, t: Tree, pretty: bool)
    requires t.Node? && TreeFits(c, t) && Depth(t) < MAX_LEVELS
    ensures var begin, evs := BeginEncode(pretty, None), TreeEvents(None, t);
            && LegalCalls(c, begin, evs)
            && ReportedAll(begin, evs) == evs
            && DocumentText(pretty, evs) == AfterCalls(begin, evs).out
            && ControlOf(AfterCalls(begin, evs)) == After([])
  {
    hide LegalCalls, AfterCalls, ReportedAll, CallText, EndEncode, TreeFits, TreeEvents;
    var begin, evs := BeginEncode(pretty, None), TreeEvents(None, t);
    TreeIsLegal(c, begin, None, t);
    LegalCallsSucceed(c, begin, evs);
    NothingToClose(AfterCalls(begin, evs));
  }

  lemma RootText(pretty: bool, isObject: bool)
    ensures CallText(BeginEncode(pretty, None), Begin(isObject, None)) == Token(Begin(isObject, None))
    ensures AfterCall(BeginEncode(pretty, None), Begin(isObject, None)).out == Token(Begin(isObject, None))
    ensures ControlOf(AfterCall(BeginEncode(pretty, None), Begin(isObject, None))) == Loop([isObject])
  {
  }

  lemma NothingToClose(e: Enc)
    requires e.stack == []
    ensures EndEncode(e) == EncResult(e, Ok)
  {
  }

  lemma SplitFirst(c: Limits, e: Enc, evs: seq<Event>)
    requires evs != [] && LegalCalls(c, e, evs)
    ensures LegalCalls(c, AfterCall(e, evs[0]), evs[1..])
    ensures AfterCalls(e, evs) == AfterCalls(AfterCall(e, evs[0]), evs[1..])
    ensures AfterCall(e, evs[0]).out <= AfterCalls(e, evs).out
    ensures ReportedAll(e, evs) == [Reported(InObject(e), evs[0])] + ReportedAll(AfterCall(e, evs[0]), evs[1..])
  {
  }

  /** Whatever name the root is given, the calls of a tree succeed. */
  lemma TreeIsSpellable(c: Limits, e: Enc, name: Option<string>, t: Tree)
    requires |e.stack| >= 1 && e.limit.None? && Nameable(e, name)
    requires t.Node? && TreeFits(c, t) && |e.stack| + Depth(t) < MAX_LEVELS
    ensures Calls(e, TreeEvents(name, t)).status == Ok
  {
    hide Calls, LegalCalls, AfterCalls, ReportedAll, CallText;
    var root := Begin(t.isObject, name);
    var inner := AfterCall(e, root);
    var kids := KidEvents(t.isObject, t.kids);
    CallEffect(e, root);
    assert inner.stack[|inner.stack| - 1] == t.isObject;
    KidsAreLegal(c, inner, t.isObject, t.kids);
    LegalCallsSucceed(c, inner, kids);
    var last := AfterCalls(inner, kids);
    CallEffect(last, End);
    CallsSplit(e, [root], kids + [End]);
    CallsSplit(inner, kids, [End]);
    SingleCall(e, root);
    SingleCall(last, End);
  }

  lemma FileSpliceIsSplice(r: Respelling, e: Enc, name: Option<string>, file: string, close: bool)
    requires Shallow(|e.stack|, TextEvents(FILE_LIMITS, name, file))
    requires FitsWindow(Replaying(r, close, e), FILE_LIMITS, Element(name, []), InMemory(file), 500)
    ensures SpliceFile(r, e, name, file, close) == Splice(FILE_LIMITS, r, e, name, file, close)
  {
    hide Run, FitsWindow, Spliced, OpenWindow, Shallow;
    FileDecodesLikeMemory(Replaying(r, close, e), FILE_LIMITS, name, file, 1000);
  }

  // --------------------------------------------------------- the user section

  function ErrorObject(key: string, message: string, json: string): seq<Event> {
    [Begin(true, Some(key)), Scalar(Some("error"), StrV(message)), Scalar(Some("json_data"), StrV(json)), End]
  }

  /** addJSONElement of the report writer: text that does not decode is replaced by an
      object that says so. */
  ghost function AddUserJson(r: Respelling, e: Enc, key: string, message: string, json: string): Enc {
    var spliced := Splice(ELEMENT_LIMITS, r, e, Some(key), json, false);
    if spliced.status == Ok then spliced.enc else Blindly(spliced.enc, ErrorObject(key, message, json))
  }

  /** The start of the user section: the user's text, or an empty object without one. */
  ghost function BeginUserSection(r: Respelling, e: Enc, key: string, message: string, json: Option<string>): Enc {
    match json
    case None => Call(e, Begin(true, Some(key))).enc
    case Some(text) => AddUserJson(r, e, key, message, text)
  }

  /** The user section of a standard report: its start, whatever the user's callback calls,
      and one endContainer. */
  ghost function UserSection(r: Respelling, e: Enc, key: string, message: string, json: Option<string>,
                             calls: seq<Event>): Enc {
    EndContainer(Blindly(BeginUserSection(r, e, key, message, json), calls)).enc
  }

  lemma ErrorObjectKeepsStack(e: Enc, key: string, message: string, json: string)
    requires e.limit.None? && AllEscapable(key)
    ensures Blindly(e, ErrorObject(key, message, json)).stack == e.stack
  {
    hide CallText, Spellable;
    var evs := ErrorObject(key, message, json);
    var e1 := Call(e, evs[0]).enc;
    assert Spellable(e, evs[0]) by { BeginIsSpellable(e, key); }
    CallEffect(e, evs[0]);
    var e2 := Call(e1, evs[1]).enc;
    ScalarKeepsStack(e1, evs[1]);
    var e3 := Call(e2, evs[2]).enc;
    ScalarKeepsStack(e2, evs[2]);
    PopsOne(e3);
    BlindlyFour(e, evs);
    assert (e.stack + [true])[..|e.stack|] == e.stack;
  }

  lemma BlindlyFour(e: Enc, evs: seq<Event>)
    requires |evs| == 4
    ensures Blindly(e, evs) == Call(Call(Call(Call(e, evs[0]).enc, evs[1]).enc, evs[2]).enc, evs[3]).enc
  {
    hide Call;
    var a, b, c := evs[1..], evs[2..], evs[3..];
    assert a[1..] == b && b[1..] == c && c[1..] == [];
    var e1 := Call(e, evs[0]).enc;
    var e2 := Call(e1, evs[1]).enc;
    var e3 := Call(e2, evs[2]).enc;
    assert Blindly(e3, c) == Call(e3, evs[3]).enc;
    assert Blindly(e2, b) == Blindly(e3, c) && Blindly(e1, a) == Blindly(e2, b);
  }

  lemma BeginIsSpellable(e: Enc, key: string)
    requires AllEscapable(key)
    ensures Spellable(e, Begin(true, Some(key)))
  {
  }

  lemma ScalarKeepsStack(e: Enc, ev: Event)
    requires ev.Scalar?
    ensures Call(e, ev).enc.stack == e.stack && Call(e, ev).enc.limit == e.limit
  {
    hide CallText, Spellable;
    CallEffect(e, ev);
    if Call(e, ev).status != Ok {
      FailedCallKeepsStack(e, ev);
    }
  }

  /** The containers a level-1 splice leaves open. */
  ghost function LeftOpen(evs: seq<Event>, k: Control): nat {
    if !Running(AdvanceAll(k, evs)) && evs != [] && evs[0].Begin? then 1 else |AdvanceAll(k, evs).stack|
  }

  /** The events before the first that the encoder refuses. */
  function CleanPrefix(evs: seq<Event>): (p: seq<Event>)
    ensures p <= evs && (forall i :: 0 <= i < |p| ==> Clean(p[i])) && (|p| < |evs| ==> !Clean(evs[|p|]))
  {
    if evs == [] || !Clean(evs[0]) then [] else [evs[0]] + CleanPrefix(evs[1..])
  }

  /** Inside an element that its surroundings can name, the encoder accepts an event
      exactly if it is clean. */
  lemma {:induction false} CleanIsAccepted(base: seq<bool>, e: Enc, k: Control, evs: seq<Event>)
    requires Follows(k, evs) && e.stack == base + k.stack && |base| >= 1 && e.limit.None?
    requires k.Element? ==> k.name.Some?
    requires k.Element? ==> k.stack == []
    requires forall i :: 0 <= i < |evs| ==> Clean(evs[i])
    ensures Calls(e, evs).status == Ok
    decreases |evs|
  {
    hide CallText, Call, AllEscapable;
    if evs != [] {
      CleanSpells(base, e, k, evs[0]);
      CallEffect(e, evs[0]);
      StackBehind(base, e, k, evs[0]);
      CleanIsAccepted(base, Call(e, evs[0]).enc, Advance(k, evs[0]), evs[1..]);
    }
  }

  lemma CleanSpells(base: seq<bool>, e: Enc, k: Control, ev: Event)
    requires Shaped(k, ev) && e.stack == base + k.stack && |base| >= 1 && (k.Element? ==> k.name.Some? && k.stack == [])
    ensures Clean(ev) ==> Spellable(e, ev)
    ensures Spellable(e, ev) && (k.Element? ==> AllEscapable(k.name.value)) ==> Clean(ev)
  {
    hide AllEscapable;
  }

  lemma StackBehind(base: seq<bool>, e: Enc, k: Control, ev: Event)
    requires Shaped(k, ev) && e.stack == base + k.stack && |base| >= 1 && (k.Element? ==> k.stack == [])
    ensures AfterCall(e, ev).stack == base + Advance(k, ev).stack
  {
    hide CallText;
  }

  /** The events of the text, as far as the encoder accepts them. */
  ghost function UserEvents(key: string, json: string): seq<Event> {
    CleanPrefix(TextEvents(ELEMENT_LIMITS, Some(key), json))
  }

  /** How many containers the start of the section leaves open. */
  ghost function OpenForUser(key: string, json: Option<string>): nat {
    match json
    case None => 1
    case Some(text) => LeftOpen(UserEvents(key, text), Element(Some(key), []))
  }

  /** For every text, and every callback that closes what it opens, the user section ends as
      many levels deep as the text leaves containers open where decoding stops, be it at its
      end, at malformed text or at a string that the encoder refuses.  It ends at the level
      where it began if and only if that is exactly one container: scalars and malformed
      beginnings close the report itself, and text that breaks off deeper leaves the rest of
      the report inside the section. */
  lemma UserSectionLevel(r: Respelling, e: Enc, key: string, message: string, json: Option<string>, calls: seq<Event>)
    requires Balanced(e) && |e.stack| == 1 && AllEscapable(key)
    requires json.Some? ==> Shallow(|e.stack| + 1, TextEvents(ELEMENT_LIMITS, Some(key), json.value))
    requires var start := BeginUserSection(r, e, key, message, json); Blindly(start, calls).stack == start.stack
    ensures var open, section := OpenForUser(key, json), UserSection(r, e, key, message, json, calls);
            && |section.stack| == open
            && (section.stack == e.stack <==> open == 1)
  {
    hide Run, Replay, Calls, AdvanceAll, Follows, DecodedEvent, Blindly, ErrorObject, CleanPrefix, Shallow, LeftOpen,
         Balanced, AllEscapable, Splice, Call;
    BalancedUnlimited(e);
    var start := BeginUserSection(r, e, key, message, json);
    match json {
      case None => EmptySectionOpens(e, key);
      case Some(text) =>
        SpliceLevel(r, e, key, text);
        ErrorObjectKeepsStack(Splice(ELEMENT_LIMITS, r, e, Some(key), text, false).enc, key, message, text);
    }
    PopsOne(Blindly(start, calls));
  }

  lemma EmptySectionOpens(e: Enc, key: string)
    requires e.limit.None? && AllEscapable(key)
    ensures Call(e, Begin(true, Some(key))).enc.stack == e.stack + [true]
  {
    hide CallText, AllEscapable;
    CallEffect(e, Begin(true, Some(key)));
  }

  /** So many containers more are open than the one of e. */
  ghost predicate OpenAbove(e: Enc, after: Enc, n: nat) {
    after.limit.None? && |after.stack| == 1 + n && after.stack[..1] == e.stack
  }

  /** Where an open splice stops. */
  lemma SpliceLevel(r: Respelling, e: Enc, key: string, json: string)
    requires e.limit.None? && |e.stack| == 1 && AllEscapable(key)
    ensures OpenAbove(e, Splice(ELEMENT_LIMITS, r, e, Some(key), json, false).enc,
                      LeftOpen(UserEvents(key, json), Element(Some(key), [])))
  {
    hide Run, Replay, Follows, LeftOpen, AllEscapable, Clean, SameFrame, DecodedEvent, CleanPrefix, Splice,
         RespelledAll;
    var k := Element(Some(key), []);
    var all := TextEvents(ELEMENT_LIMITS, Some(key), json);
    var clean := CleanPrefix(all);
    CleanFollows(key, json);
    CleanReplay(r, e, k, clean);
    if |clean| == |all| {
      assert clean == all;
      AllReplayed(r, e, key, json);
    } else {
      StopsAtUnclean(r, e, key, json);
    }
  }

  lemma CleanFollows(key: string, json: string)
    ensures var all, clean := TextEvents(ELEMENT_LIMITS, Some(key), json), UserEvents(key, json);
            && Follows(Element(Some(key), []), clean)
            && (|clean| < |all| ==> Shaped(AdvanceAll(Element(Some(key), []), clean), all[|clean|]))
  {
    hide Run, Follows, AdvanceAll, Clean, DecodedEvent, Shaped;
    var k := Element(Some(key), []);
    var all, clean := TextEvents(ELEMENT_LIMITS, Some(key), json), UserEvents(key, json);
    FiredFollows(AlwaysOk, ELEMENT_LIMITS, Some(key), InMemory(json));
    assert all == clean + all[|clean|..];
    FollowsPrefix(k, clean, all[|clean|..]);
    if |clean| < |all| {
      FirstFollows(AdvanceAll(k, clean), all[|clean|..]);
    }
  }

  lemma AllReplayed(r: Respelling, e: Enc, key: string, json: string)
    requires var all := TextEvents(ELEMENT_LIMITS, Some(key), json); Replay(false, e, RespelledAll(r, all)).status == Ok
    ensures Splice(ELEMENT_LIMITS, r, e, Some(key), json, false).enc ==
            Replay(false, e, RespelledAll(r, TextEvents(ELEMENT_LIMITS, Some(key), json))).enc
  {
    hide Run, Replay, SameFrame;
    ReplayedToTheEnd(ELEMENT_LIMITS, r, e, Some(key), json, false);
  }

  lemma {:induction false} FollowsPrefix(k: Control, a: seq<Event>, b: seq<Event>)
    requires Follows(k, a + b)
    ensures Follows(k, a) && Follows(AdvanceAll(k, a), b)
    decreases |a|
  {
    hide Shaped, Advance;
    if a == [] {
      assert a + b == b;
    } else {
      assert (a + b)[0] == a[0] && (a + b)[1..] == a[1..] + b;
      FollowsPrefix(Advance(k, a[0]), a[1..], b);
    }
  }

  /** Events that are clean are replayed to the end. */
  lemma CleanReplay(r: Respelling, e: Enc, k: Control, evs: seq<Event>)
    requires e.limit.None? && |e.stack| == 1 && k.Element? && k.stack == [] && k.name.Some? && Follows(k, evs)
    requires forall i :: 0 <= i < |evs| ==> Clean(evs[i])
    ensures var after := Replay(false, e, RespelledAll(r, evs));
            after.status == Ok && OpenAbove(e, after.enc, LeftOpen(evs, k))
  {
    hide Replay, Calls, Follows, AdvanceAll, Clean;
    assert e.stack + [] == e.stack;
    CleanIsAccepted(e.stack, e, k, evs);
    RespelledSucceeds(r, e, evs);
    var calls := RespelledAll(r, evs);
    SameShape(k, evs, calls);
    OpenAfterReplay(e, k, calls);
  }

  /** A string the encoder refuses stops the decoder; the failed call leaves the stack. */
  lemma StopsAtUnclean(r: Respelling, e: Enc, key: string, json: string)
    requires e.limit.None? && |e.stack| == 1 && AllEscapable(key)
    requires UserEvents(key, json) < TextEvents(ELEMENT_LIMITS, Some(key), json)
    ensures var after := Splice(ELEMENT_LIMITS, r, e, Some(key), json, false).enc;
            var clean := Replay(false, e, RespelledAll(r, UserEvents(key, json))).enc;
            after.stack == clean.stack && after.limit.None?
  {
    hide Run, Replay, Follows, AdvanceAll, AllEscapable, Clean, SameFrame, DecodedEvent, CleanPrefix, RespelledAll,
         Shaped, Callback, LeftOpen;
    var k := Element(Some(key), []);
    var all, clean := TextEvents(ELEMENT_LIMITS, Some(key), json), UserEvents(key, json);
    var m := |clean|;
    var h := Replaying(r, false, e);
    CleanFollows(key, json);
    CleanReplay(r, e, k, clean);
    RefusedCall(r, e, k, clean, all[m]);
    forall n | 0 < n < m + 1
      ensures h(all[..n]) == Ok
    {
      PrefixAccepted(r, e, clean, n);
      assert all[..n] == clean[..n];
    }
    assert all[..m + 1] == clean + [all[m]];
    OneMoreReplayed(r, e, clean, all[m]);
    FirstFailure(h, ELEMENT_LIMITS, k, InMemory(json), m + 1);
  }

  lemma OneMoreReplayed(r: Respelling, e: Enc, evs: seq<Event>, ev: Event)
    requires Replay(false, e, RespelledAll(r, evs)).status == Ok
    ensures Replay(false, e, RespelledAll(r, evs + [ev])) ==
            Callback(false, Replay(false, e, RespelledAll(r, evs)).enc, Respelled(r, ev))
  {
    hide Replay, Callback, Respelled, SameFrame;
    assert RespelledAll(r, evs + [ev]) == RespelledAll(r, evs) + [Respelled(r, ev)];
    ReplaySplit(false, e, RespelledAll(r, evs), [Respelled(r, ev)]);
    SingleCall(Replay(false, e, RespelledAll(r, evs)).enc, Respelled(r, ev));
  }

  lemma FirstFollows(k: Control, evs: seq<Event>)
    requires evs != [] && Follows(k, evs)
    ensures Shaped(k, evs[0])
  {
  }

  lemma PrefixAccepted(r: Respelling, e: Enc, evs: seq<Event>, n: nat)
    requires n <= |evs| && Replay(false, e, RespelledAll(r, evs)).status == Ok
    ensures Replay(false, e, RespelledAll(r, evs[..n])).status == Ok
  {
    hide Replay, SameFrame;
    var calls := RespelledAll(r, evs);
    RespelledPrefix(r, evs, n);
    assert calls == calls[..n] + calls[n..];
    ReplaySplit(false, e, calls[..n], calls[n..]);
  }

  lemma RefusedCall(r: Respelling, e: Enc, k: Control, clean: seq<Event>, ev: Event)
    requires e.limit.None? && |e.stack| == 1 && k.Element? && k.stack == [] && k.name.Some?
             && AllEscapable(k.name.value)
    requires Follows(k, clean) && (forall i :: 0 <= i < |clean| ==> Clean(clean[i])) && !Clean(ev)
    requires Shaped(AdvanceAll(k, clean), ev)
    ensures var before := Replay(false, e, RespelledAll(r, clean)).enc;
            var refused := Callback(false, before, Respelled(r, ev));
            refused.status != Ok && refused.enc.stack == before.stack && refused.enc.limit.None?
  {
    hide Replay, Calls, Follows, AdvanceAll, AllEscapable, CallText, Call, SameFrame;
    assert e.stack + [] == e.stack;
    CleanIsAccepted(e.stack, e, k, clean);
    RespelledSucceeds(r, e, clean);
    var calls := RespelledAll(r, clean);
    SameShape(k, clean, calls);
    OpenReplay(e.stack, e, k, calls);
    CallsKeepLimit(e, calls);
    var before := Replay(false, e, calls).enc;
    AdvancedControl(k, clean);
    CleanSpells(e.stack, before, AdvanceAll(k, clean), ev);
    var refused := Respelled(r, ev);
    CallEffect(before, refused);
    FailedCallKeepsStack(before, refused);
    if refused.Begin? {
      FailedBeginKeepsStack(before, refused);
    }
  }

  lemma {:induction false} AdvancedControl(k: Control, evs: seq<Event>)
    ensures AdvanceAll(k, evs).Element? ==> evs == [] && AdvanceAll(k, evs) == k
    decreases |evs|
  {
    if evs != [] {
      AdvancedControl(Advance(k, evs[0]), evs[1..]);
    }
  }

  lemma FailedBeginKeepsStack(e: Enc, ev: Event)
    requires ev.Begin? && e.limit.None? && Call(e, ev).status != Ok
    ensures Call(e, ev).enc.stack == e.stack
  {
    hide BeginElement;
    BeginElementStack(e, ev.name);
  }

  lemma OpenAfterReplay(e: Enc, k: Control, evs: seq<Event>)
    requires |e.stack| == 1 && k.Element? && k.stack == [] && Follows(k, evs) && Calls(e, evs).status == Ok
    ensures var after := Replay(false, e, evs);
            && after.status == Ok && after.enc.limit == e.limit
            && |after.enc.stack| == 1 + LeftOpen(evs, k) && after.enc.stack[..1] == e.stack
  {
    hide Replay, CallText;
    assert e.stack + [] == e.stack;
    if Running(AdvanceAll(k, evs)) {
      OpenReplay(e.stack, e, k, evs);
      CallsKeepLimit(e, evs);
    } else if evs[0].Begin? {
      RootEnd(e, k.name, evs);
      CallsSplit(e, evs[..|evs| - 1], evs[|evs| - 1..]);
      assert evs == evs[..|evs| - 1] + evs[|evs| - 1..];
      CallsKeepLimit(e, evs[..|evs| - 1]);
    } else {
      ScalarRoot(e, k, evs);
    }
  }

  lemma FollowsRuns(k: Control, evs: seq<Event>)
    ensures Follows(k, evs) && evs != [] ==> Running(k)
  {
  }

  lemma ScalarRoot(e: Enc, k: Control, evs: seq<Event>)
    requires k.Element? && k.stack == [] && Follows(k, evs) && evs != [] && !evs[0].Begin?
    requires Calls(e, evs).status == Ok
    ensures Replay(false, e, evs).status == Ok && Replay(false, e, evs).enc.limit == e.limit
    ensures Replay(false, e, evs).enc.stack == e.stack && AdvanceAll(k, evs).stack == []
  {
    var rest := evs[1..];
    assert evs[0].Scalar?;
    FollowsRuns(Advance(k, evs[0]), rest);
    ScalarKeepsStack(e, evs[0]);
  }

  lemma {:induction false} CallsKeepLimit(e: Enc, evs: seq<Event>)
    requires Calls(e, evs).status == Ok
    ensures Calls(e, evs).enc.limit == e.limit
    decreases |evs|
  {
    hide CallText, Call;
    if evs != [] {
      CallEffect(e, evs[0]);
      CallsKeepLimit(Call(e, evs[0]).enc, evs[1..]);
    }
  }
}
