/** Whole documents: every legal call sequence, closed by endEncode, decodes to its
    own calls; JSON trees are the sequences that close themselves. */
module JsonDocument {
  import opened JsonText
  import opened JsonEncoder
  import opened JsonDecoder
  import opened JsonRoundTrip

  // ------------------------------------------------------- sequences of calls

  lemma {:induction false} LegalCallsSucceed(c: Limits, e: Enc, evs: seq<Event>)
    requires e.limit.None? && LegalCalls(c, e, evs)
    ensures Calls(e, evs) == EncResult(AfterCalls(e, evs), Ok)
    decreases |evs|
  {
    hide AfterCall, Call, LegalValue;
    if evs != [] {
      assert Spellable(e, evs[0]) by { LegalIsSpellable(c, e, evs[0]); }
      CallEffect(e, evs[0]);
      assert AfterCall(e, evs[0]).limit.None? by { KeepsLimit(e, evs[0]); }
      LegalCallsSucceed(c, AfterCall(e, evs[0]), evs[1..]);
    }
  }

  lemma KeepsLimit(e: Enc, ev: Event)
    ensures AfterCall(e, ev).limit == e.limit
  {
  }

  lemma LegalIsSpellable(c: Limits, e: Enc, ev: Event)
    requires LegalCall(c, e, ev)
    ensures Spellable(e, ev)
  {
  }

  lemma {:induction false} CallsAppend(c: Limits, e: Enc, a: seq<Event>, b: seq<Event>)
    ensures AfterCalls(e, a + b) == AfterCalls(AfterCalls(e, a), b)
    ensures LegalCalls(c, e, a + b) <==> LegalCalls(c, e, a) && LegalCalls(c, AfterCalls(e, a), b)
    ensures ReportedAll(e, a + b) == ReportedAll(e, a) + ReportedAll(AfterCalls(e, a), b)
    decreases |a|
  {
    hide AfterCall, LegalCall, Reported;
    if a == [] {
      assert a + b == b;
    } else {
      assert (a + b)[0] == a[0] && (a + b)[1..] == a[1..] + b;
      CallsAppend(c, AfterCall(e, a[0]), a[1..], b);
    }
  }

  function Ends(n: nat): (r: seq<Event>)
    ensures |r| == n && forall i :: 0 <= i < n ==> r[i] == End
  {
    if n == 0 then [] else [End] + Ends(n - 1)
  }

  /** endEncode makes one endContainer call for every open container. */
  lemma {:induction false} EndEncodeCloses(c: Limits, e: Enc)
    requires e.limit.None?
    ensures LegalCalls(c, e, Ends(|e.stack|))
    ensures EndEncode(e) == EncResult(AfterCalls(e, Ends(|e.stack|)), Ok)
    ensures AfterCalls(e, Ends(|e.stack|)).stack == []
    ensures |e.stack| > 0 ==> !AfterCalls(e, Ends(|e.stack|)).first
    ensures |e.stack| == 0 ==> AfterCalls(e, Ends(|e.stack|)) == e
    ensures ReportedAll(e, Ends(|e.stack|)) == Ends(|e.stack|)
    decreases |e.stack|
  {
    hide CallText;
    if |e.stack| > 0 {
      CallEffect(e, End);
      PopsOne(e);
      var ends := Ends(|e.stack|);
      assert ends[0] == End && ends[1..] == Ends(|e.stack| - 1);
      EndEncodeCloses(c, AfterCall(e, End));
    }
  }

  /** The text of a call sequence that endEncode has closed. */
  function DocumentText(pretty: bool, evs: seq<Event>): string {
    EndEncode(Calls(BeginEncode(pretty, None), evs).enc).enc.out
  }

  ghost function OpenLevels(evs: seq<Event>): nat {
    |AfterCalls(BeginEncode(false, None), evs).stack|
  }

  /** The calls, in the form the decoder reports them. */
  ghost function ReportedCalls(evs: seq<Event>): seq<Event> {
    ReportedAll(BeginEncode(false, None), evs)
  }

  ghost predicate LegalDocument(c: Limits, evs: seq<Event>) {
    evs != [] && LegalCalls(c, BeginEncode(false, None), evs)
  }

  /** Legality and the reported form do not depend on pretty printing. */
  lemma {:induction false} PrettyIrrelevant(c: Limits, e: Enc, e': Enc, evs: seq<Event>)
    requires e.stack == e'.stack && e.first == e'.first
    ensures LegalCalls(c, e, evs) == LegalCalls(c, e', evs)
    ensures ReportedAll(e, evs) == ReportedAll(e', evs)
    ensures AfterCalls(e, evs).stack == AfterCalls(e', evs).stack
    ensures AfterCalls(e, evs).first == AfterCalls(e', evs).first
    decreases |evs|
  {
    hide CallText, LegalValue, Reported;
    if evs != [] {
      assert InObject(e) == InObject(e');
      PrettyIrrelevant(c, AfterCall(e, evs[0]), AfterCall(e', evs[0]), evs[1..]);
    }
  }

  /** A legal sequence that has closed its root ends with that closing. */
  lemma ClosedByEnd(c: Limits, e: Enc, evs: seq<Event>)
    requires evs != [] && LegalCalls(c, e, evs) && AfterCalls(e, evs).stack == []
    ensures evs[|evs| - 1] == End && !AfterCalls(e, evs).first
  {
    hide CallText, LegalValue, LegalName;
    var n := |evs| - 1;
    var before := AfterCalls(e, evs[..n]);
    assert evs == evs[..n] + [evs[n]];
    CallsAppend(c, e, evs[..n], [evs[n]]);
    assert LegalCall(c, before, evs[n]) && AfterCalls(before, [evs[n]]) == AfterCall(before, evs[n]);
  }

  lemma Finished(c: Limits, text: string, fired: seq<Event>)
    ensures Run(AlwaysOk, c, After([]), Reading(text, |text|, fired)) == Outcome(Reading(text, |text|, fired), Ok)
    ensures SeparatedFrom(c, After([]), Reading(text, |text|, fired))
  {
  }

  /** Round trip: any legal call sequence, in either layout, is accepted by the
      encoder; endEncode closes every open container; decoding the text fires exactly
      the calls and the closings; and the commas are those of RFC 8259. */
  lemma RoundTrip(c: Limits, pretty: bool, evs: seq<Event>)
    requires LegalDocument(c, evs)
    ensures var begin := BeginEncode(pretty, None);
            && Calls(begin, evs).status == Ok
            && EndEncode(Calls(begin, evs).enc).status == Ok
            && EndEncode(Calls(begin, evs).enc).enc.stack == []
    ensures var text := DocumentText(pretty, evs);
            && Decode(c, text) == Outcome(Reading(text, |text|, ReportedCalls(evs) + Ends(OpenLevels(evs))), Ok)
            && SeparatedFrom(c, ROOT, InMemory(text))
  {
    hide AfterCall, LegalCall, Reported, Next, ProperlySeparated, EndEncode, Calls, Run, SeparatedFrom, ReportedAll;
    var begin := BeginEncode(pretty, None);
    PrettyIrrelevant(c, BeginEncode(false, None), begin, evs);
    LegalCallsSucceed(c, begin, evs);
    var open := AfterCalls(begin, evs);
    var ends := Ends(|open.stack|);
    EndEncodeCloses(c, open);
    CallsAppend(c, begin, evs, ends);
    var all := evs + ends;
    var text := DocumentText(pretty, evs);
    var closed := AfterCalls(begin, all);
    assert closed.out == text && closed.stack == [];
    ClosedByEnd(c, begin, all);
    KeepsStep(c, text, begin, all, []);
    var fired := ReportedAll(begin, all);
    assert [] + fired == fired;
    assert ControlOf(begin) == ROOT && ControlOf(closed) == After([]);
    Finished(c, text, fired);
  }

  /** The text of a sequence that has not closed its root decodes to the calls made, and
      then asks for more; a number that was written last is still open, since more
      digits could follow, and is not reported. */
  lemma UnfinishedDecodes(c: Limits, pretty: bool, evs: seq<Event>)
    requires LegalDocument(c, evs) && OpenLevels(evs) > 0
    ensures var text := Calls(BeginEncode(pretty, None), evs).enc.out;
            var sure := if Settled(evs) then evs else evs[..|evs| - 1];
            && OpenLevels(sure) == OpenLevels(evs)
            && Decode(c, text) ==
               Outcome(Reading(text, |Calls(BeginEncode(pretty, None), sure).enc.out|, ReportedCalls(sure)), Incomplete)
  {
    hide AfterCall, LegalCall, Reported, Calls, Run, SeparatedFrom, ReportedAll, NeedsDelimiter;
    var begin := BeginEncode(pretty, None);
    PrettyIrrelevant(c, BeginEncode(false, None), begin, evs);
    LegalCallsSucceed(c, begin, evs);
    var open := AfterCalls(begin, evs);
    if Settled(evs) {
      KeepsStep(c, open.out, begin, evs, []);
      assert [] + ReportedAll(begin, evs) == ReportedAll(begin, evs);
      RunsDry(c, ControlOf(open), open.out, ReportedAll(begin, evs));
    } else {
      CutNumberDecodes(c, pretty, evs);
    }
  }

  /** A sequence whose last call is a number. */
  lemma CutNumberDecodes(c: Limits, pretty: bool, evs: seq<Event>)
    requires LegalDocument(c, evs) && !Settled(evs)
    ensures var text := AfterCalls(BeginEncode(pretty, None), evs).out;
            var sure := evs[..|evs| - 1];
            && OpenLevels(sure) == OpenLevels(evs)
            && Calls(BeginEncode(pretty, None), sure).status == Ok
            && Decode(c, text) ==
               Outcome(Reading(text, |Calls(BeginEncode(pretty, None), sure).enc.out|, ReportedCalls(sure)), Incomplete)
  {
    hide CallText, LegalValue, LegalName, Reported, Calls, Run, SeparatedFrom, ReportedAll, Next, ControlOf;
    var begin := BeginEncode(pretty, None);
    var n := |evs| - 1;
    var sure, ev := evs[..n], evs[n];
    assert evs == sure + [ev];
    PrettyIrrelevant(c, BeginEncode(false, None), begin, evs);
    PrettyIrrelevant(c, BeginEncode(false, None), begin, sure);
    CallsAppend(c, begin, sure, [ev]);
    CallsAppend(c, BeginEncode(false, None), sure, [ev]);
    LegalCallsSucceed(c, begin, sure);
    var e := AfterCalls(begin, sure);
    var text := AfterCall(e, ev).out;
    assert LegalCall(c, e, ev) && AfterCalls(e, [ev]) == AfterCall(e, ev);
    if !Settled(sure) {
      NotFirstBehindNumber(c, begin, sure);
      CallDelimits(text, e, ev);
    }
    KeepsStep(c, text, begin, sure, []);
    assert [] + ReportedAll(begin, sure) == ReportedAll(begin, sure);
    LastNumberIncomplete(c, text, e, ev);
    StepFails(AlwaysOk, c, ControlOf(e), Reading(text, |e.out|, ReportedAll(begin, sure)), Incomplete);
    assert ControlOf(begin) == ROOT by { RootControl(pretty); }
  }

  lemma RootControl(pretty: bool)
    ensures ControlOf(BeginEncode(pretty, None)) == ROOT
  {
  }

  lemma NotFirstBehindNumber(c: Limits, e: Enc, evs: seq<Event>)
    requires !Settled(evs)
    ensures !AfterCalls(e, evs).first
  {
    hide CallText, LegalCalls, LegalCall, ReportedAll;
    var n := |evs| - 1;
    assert evs == evs[..n] + [evs[n]];
    CallsAppend(c, e, evs[..n], [evs[n]]);
    var before := AfterCalls(e, evs[..n]);
    assert AfterCalls(before, [evs[n]]) == AfterCall(before, evs[n]);
  }

  lemma RunsDry(c: Limits, k: Control, text: string, fired: seq<Event>)
    requires (k.Loop? || k.After?) && |k.stack| > 0
    ensures Run(AlwaysOk, c, k, Reading(text, |text|, fired)) == Outcome(Reading(text, |text|, fired), Incomplete)
  {
  }

  /** Pretty and compact output of the same calls decode to the same events. */
  lemma LayoutsAgree(c: Limits, evs: seq<Event>)
    requires LegalDocument(c, evs)
    ensures var a, b := Decode(c, DocumentText(true, evs)), Decode(c, DocumentText(false, evs));
            a.status == b.status == Ok && a.dec.fired == b.dec.fired
  {
    hide DocumentText, Decode, ReportedCalls, OpenLevels;
    RoundTrip(c, true, evs);
    RoundTrip(c, false, evs);
  }

  // -------------------------------------------------------------------- trees

  datatype Tree = Leaf(value: Value) | Node(isObject: bool, kids: Kids)

  /** The members of an object or, with the names ignored, the elements of an array. */
  datatype Kids = NoKids | Kid(name: string, tree: Tree, more: Kids)

  function TreeEvents(name: Option<string>, t: Tree): seq<Event>
    decreases t
  {
    match t
    case Leaf(v) => [Scalar(name, v)]
    case Node(isObject, kids) => [Begin(isObject, name)] + (KidEvents(isObject, kids) + [End])
  }

  function KidEvents(isObject: bool, kids: Kids): seq<Event>
    decreases kids
  {
    match kids
    case NoKids => []
    case Kid(name, t, more) => TreeEvents(if isObject then Some(name) else None, t) + KidEvents(isObject, more)
  }

  /** Values and names the encoder can spell and the decoder's buffers can hold;
      unsigned leaves are those a signed integer cannot represent. */
  predicate TreeFits(c: Limits, t: Tree)
    decreases t
  {
    match t
    case Leaf(v) => Encodable(v) && Fits(c, v) && CanonicalValue(v) == v
    case Node(isObject, kids) => KidsFit(c, isObject, kids)
  }

  predicate KidsFit(c: Limits, isObject: bool, kids: Kids)
    decreases kids
  {
    match kids
    case NoKids => true
    case Kid(name, t, more) =>
      (isObject ==> LegalName(c, Some(name))) && TreeFits(c, t) && KidsFit(c, isObject, more)
  }

  /** How many containers a tree nests. */
  function Depth(t: Tree): nat
    decreases t
  {
    match t
    case Leaf(_) => 0
    case Node(_, kids) => 1 + KidsDepth(kids)
  }

  function KidsDepth(kids: Kids): nat
    decreases kids
  {
    match kids
    case NoKids => 0
    case Kid(_, t, more) => if Depth(t) > KidsDepth(more) then Depth(t) else KidsDepth(more)
  }

  /** The events of a tree are legal inside any container and leave it open. */
  lemma {:induction false} TreeIsLegal(c: Limits, e: Enc, name: Option<string>, t: Tree)
    requires TreeFits(c, t) && |e.stack| + Depth(t) < MAX_LEVELS
    requires if InObject(e) then LegalName(c, name) else name == None
    requires |e.stack| > 0 || (e.first && t.Node?)
    ensures var evs := TreeEvents(name, t);
            && LegalCalls(c, e, evs)
            && ReportedAll(e, evs) == evs
            && AfterCalls(e, evs).stack == e.stack && !AfterCalls(e, evs).first
    decreases t, 0
  {
    hide CallText, LegalName, Fits, Encodable;
    match t
    case Leaf(v) =>
      assert TreeEvents(name, t)[1..] == [];
    case Node(isObject, kids) =>
      var inner := AfterCall(e, Begin(isObject, name));
      KidsAreLegal(c, inner, isObject, kids);
      NodeIsLegal(c, e, Begin(isObject, name), KidEvents(isObject, kids));
  }

  /** Legal calls inside a container that is begun before and ended behind them. */
  lemma NodeIsLegal(c: Limits, e: Enc, begin: Event, middle: seq<Event>)
    requires begin.Begin? && LegalCall(c, e, begin) && Reported(InObject(e), begin) == begin
    requires var inner := AfterCall(e, begin);
             && LegalCalls(c, inner, middle) && ReportedAll(inner, middle) == middle
             && AfterCalls(inner, middle).stack == inner.stack
    ensures var evs := [begin] + (middle + [End]);
            && LegalCalls(c, e, evs)
            && ReportedAll(e, evs) == evs
            && AfterCalls(e, evs).stack == e.stack && !AfterCalls(e, evs).first
  {
    hide CallText, LegalValue;
    var inner := AfterCall(e, begin);
    var last := AfterCalls(inner, middle);
    assert inner.stack[..|e.stack|] == e.stack;
    EndIsLegal(c, last);
    CallsAppend(c, inner, middle, [End]);
    hide AfterCall, LegalCall, Reported;
    var evs := [begin] + (middle + [End]);
    assert evs[0] == begin && evs[1..] == middle + [End];
  }

  lemma EndIsLegal(c: Limits, e: Enc)
    requires |e.stack| > 0
    ensures LegalCalls(c, e, [End]) && ReportedAll(e, [End]) == [End]
    ensures AfterCalls(e, [End]) == AfterCall(e, End)
    ensures AfterCall(e, End).stack == e.stack[..|e.stack| - 1] && !AfterCall(e, End).first
  {
    hide CallText;
    assert [End][1..] == [];
  }

  lemma {:induction false} KidsAreLegal(c: Limits, e: Enc, isObject: bool, kids: Kids)
    requires KidsFit(c, isObject, kids) && |e.stack| > 0 && InObject(e) == isObject
    requires |e.stack| + KidsDepth(kids) < MAX_LEVELS
    ensures var evs := KidEvents(isObject, kids);
            && LegalCalls(c, e, evs)
            && ReportedAll(e, evs) == evs
            && AfterCalls(e, evs).stack == e.stack
    decreases kids, 1
  {
    hide CallText, LegalCall, LegalName, AfterCall;
    if kids.Kid? {
      var name := if isObject then Some(kids.name) else None;
      TreeIsLegal(c, e, name, kids.tree);
      var next := AfterCalls(e, TreeEvents(name, kids.tree));
      KidsAreLegal(c, next, isObject, kids.more);
      CallsAppend(c, e, TreeEvents(name, kids.tree), KidEvents(isObject, kids.more));
    }
  }

  /** Every container-rooted tree within the depth and buffer limits comes back as
      written, whichever layout it was written in. */
  lemma TreeRoundTrip(c: Limits, pretty: bool, t: Tree)
    requires t.Node? && TreeFits(c, t) && Depth(t) < MAX_LEVELS
    ensures var text := DocumentText(pretty, TreeEvents(None, t));
            Decode(c, text).status == Ok && Decode(c, text).dec.fired == TreeEvents(None, t)
  {
    hide DocumentText, Decode, TreeEvents, AfterCalls, LegalCalls, ReportedAll;
    var evs := TreeEvents(None, t);
    assert evs != [] by { TreeHasEvents(t); }
    TreeIsLegal(c, BeginEncode(false, None), None, t);
    RoundTrip(c, pretty, evs);
    assert evs + Ends(0) == evs;
  }

  lemma TreeHasEvents(t: Tree)
    ensures TreeEvents(None, t) != []
  {
  }
}
