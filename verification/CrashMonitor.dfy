/** The decision what to do with an exception while others are being handled. */
module CrashMonitor {
  import opened Numbers

  const MAX_EXCEPTIONS: nat := 200

  /** A thread; 0 is no thread. */
  type Thread = nat

  datatype Requirements = Requirements(
    recordAllThreads: bool, writeReport: bool, isFatal: bool, asyncSafety: bool,
    becauseSuspended: bool, crashedDuringHandling: bool)

  predicate RequiresAsyncSafety(r: Requirements) {
    r.asyncSafety || r.becauseSuspended
  }

  /** Which context a handler was given: one of the two static ones or one of its own. */
  datatype Memory = Static(k: nat) | Heap

  datatype Context = Context(memory: Memory, handlerIndex: nat, requirements: Requirements)

  datatype Arbiter = Arbiter(crashed: bool, fatal: bool, asyncIndex: nat, slots: seq<Thread>, index: nat)

  /** Handle normally or as a recrash, wait for the fatal handler, end the process, or
      drop the exception. */
  datatype Verdict = Issue(ctx: Context) | Blocked(handlerIndex: nat) | Exited | Dropped

  datatype Notified = Notified(arb: Arbiter, verdict: Verdict)

  predicate Involved(slots: seq<Thread>, count: nat, offending: Thread, thread: Thread) {
    exists i :: 0 <= i < Least(count, |slots|) && (slots[i] == thread || slots[i] == offending)
  }

  function Begin(a: Arbiter, thread: Thread): Arbiter
    requires |a.slots| == MAX_EXCEPTIONS
  {
    a.(slots := if a.index < MAX_EXCEPTIONS then a.slots[a.index := thread] else a.slots, index := a.index + 1)
  }

  function End(a: Arbiter, i: nat): Arbiter
    requires |a.slots| == MAX_EXCEPTIONS && i < MAX_EXCEPTIONS
  {
    var slots := a.slots[i := 0];
    a.(slots := slots, index := if forall k :: 0 <= k < |slots| ==> slots[k] == 0 then 0 else a.index)
  }

  function RecrashRequirements(initial: Requirements): Requirements {
    initial.(crashedDuringHandling := true, asyncSafety := true, recordAllThreads := false, isFatal := true)
  }

  function NextContext(a: Arbiter, i: nat, r: Requirements): Notified {
    if RequiresAsyncSafety(r) then
      Notified(a.(asyncIndex := a.asyncIndex + 1), Issue(Context(Static(a.asyncIndex % 2), i, r)))
    else
      Notified(a, Issue(Context(Heap, i, r)))
  }

  function Notify(a: Arbiter, offending: Thread, thread: Thread, initial: Requirements): (n: Notified)
    requires |a.slots| == MAX_EXCEPTIONS
    ensures |n.arb.slots| == MAX_EXCEPTIONS
  {
    var b := Begin(a, thread);
    var involved := Involved(b.slots, a.index, offending, thread);
    if a.index > MAX_EXCEPTIONS then Notified(b, Dropped)
    else if involved && a.crashed then Notified(b, Exited)
    else if !involved && a.fatal then Notified(b, Blocked(a.index))
    else
      var r := if involved then RecrashRequirements(initial) else initial;
      NextContext(b.(crashed := a.crashed || involved, fatal := a.fatal || r.isFatal), a.index, r)
  }

  // --------------------------------------------------------------------- runs

  /** A handler under way with the context it was given, or waiting for the fatal one. */
  datatype Handler = Running(thread: Thread, index: nat, memory: Memory) | Waiting(thread: Thread, index: nat)

  /** The arbiter, the handlers under way, the contexts issued so far, and whether the
      process has ended. */
  datatype World = World(arb: Arbiter, live: seq<Handler>, issued: seq<Context>, exited: bool)

  datatype Event = Raise(offending: Thread, thread: Thread, requirements: Requirements) | Finish(h: nat)

  const START: World :=
    World(Arbiter(false, false, 0, seq(MAX_EXCEPTIONS, _ => 0), 0), [], [], false)

  /** What monitors ask for: async safety only for fatal exceptions. */
  predicate Legal(ev: Event) {
    ev.Raise? ==>
      && ev.thread != 0 && ev.offending != 0 && !ev.requirements.crashedDuringHandling
      && (RequiresAsyncSafety(ev.requirements) ==> ev.requirements.isFatal)
  }

  function Raised(w: World, ev: Event): World
    requires |w.arb.slots| == MAX_EXCEPTIONS && ev.Raise?
  {
    var n := Notify(w.arb, ev.offending, ev.thread, ev.requirements);
    match n.verdict
    case Issue(ctx) =>
      World(n.arb, w.live + [Running(ev.thread, ctx.handlerIndex, ctx.memory)], w.issued + [ctx], false)
    case Blocked(i) => w.(arb := n.arb, live := w.live + [Waiting(ev.thread, i)])
    case Exited => w.(arb := n.arb, exited := true)
    case Dropped => w.(arb := n.arb)
  }

  function Without(live: seq<Handler>, k: nat): seq<Handler>
    requires k < |live|
  {
    live[..k] + live[k + 1..]
  }

  /** Handlers finish in any order.  A blocked one waits for the process to end, and one
      with an index behind the table is not made to finish, since the code would write
      behind the table then. */
  function Step(w: World, ev: Event): (r: World)
    requires |w.arb.slots| == MAX_EXCEPTIONS
    ensures |r.arb.slots| == MAX_EXCEPTIONS && w.issued <= r.issued
  {
    if w.exited then w
    else if ev.Raise? then Raised(w, ev)
    else if ev.h < |w.live| && w.live[ev.h].Running? && w.live[ev.h].index < MAX_EXCEPTIONS then
      w.(arb := End(w.arb, w.live[ev.h].index), live := Without(w.live, ev.h))
    else w
  }

  function Run(w: World, events: seq<Event>): (r: World)
    requires |w.arb.slots| == MAX_EXCEPTIONS
    ensures |r.arb.slots| == MAX_EXCEPTIONS && w.issued <= r.issued
    decreases |events|
  {
    if events == [] then w else Run(Step(w, events[0]), events[1..])
  }

  // -------------------------------------------------------- the issued contexts

  function Statics(cs: seq<Context>): nat {
    if cs == [] then 0 else Statics(cs[..|cs| - 1]) + if cs[|cs| - 1].memory.Static? then 1 else 0
  }

  predicate SomeRecrash(cs: seq<Context>) {
    exists i :: 0 <= i < |cs| && cs[i].requirements.crashedDuringHandling
  }

  predicate SomeFatal(cs: seq<Context>) {
    exists i :: 0 <= i < |cs| && cs[i].requirements.isFatal
  }

  ghost predicate OneRecrash(cs: seq<Context>) {
    forall i, j :: 0 <= i < j < |cs| && cs[i].requirements.crashedDuringHandling ==>
           !cs[j].requirements.crashedDuringHandling
  }

  ghost predicate StaticsInOrder(cs: seq<Context>) {
    forall i :: 0 <= i < |cs| && cs[i].memory.Static? ==> cs[i].memory.k == Statics(cs[..i])
  }

  ghost predicate History(w: World) {
    && |w.arb.slots| == MAX_EXCEPTIONS
    && w.arb.crashed == SomeRecrash(w.issued) && w.arb.fatal == SomeFatal(w.issued)
    && (w.arb.crashed ==> w.arb.fatal)
    && OneRecrash(w.issued) && StaticsInOrder(w.issued)
    && w.arb.asyncIndex == Statics(w.issued)
    && w.arb.asyncIndex <= (if w.arb.fatal then 1 else 0) + (if w.arb.crashed then 1 else 0)
  }

  lemma IssueKeepsHistory(w: World, ctx: Context, crashed: bool, fatal: bool)
    requires History(w)
    requires ctx.requirements.crashedDuringHandling ==> !w.arb.crashed && ctx.requirements.isFatal
    requires ctx.requirements.isFatal ==> !w.arb.fatal || ctx.requirements.crashedDuringHandling
    requires ctx.memory.Static? ==> ctx.requirements.isFatal && ctx.memory.k == w.arb.asyncIndex % 2
    requires crashed == (w.arb.crashed || ctx.requirements.crashedDuringHandling)
    requires fatal == (w.arb.fatal || ctx.requirements.isFatal)
    ensures var cs := w.issued + [ctx];
            && crashed == SomeRecrash(cs) && fatal == SomeFatal(cs) && OneRecrash(cs) && StaticsInOrder(cs)
            && Statics(cs) == w.arb.asyncIndex + if ctx.memory.Static? then 1 else 0
  {
    var cs := w.issued + [ctx];
    var n := |w.issued|;
    assert cs[..n] == w.issued && cs[n] == ctx;
    forall i | 0 <= i < |cs| && cs[i].memory.Static?
      ensures cs[i].memory.k == Statics(cs[..i])
    {
      if i < n {
        assert cs[..i] == w.issued[..i];
      }
    }
    if w.arb.crashed {
      var i :| 0 <= i < n && w.issued[i].requirements.crashedDuringHandling;
      assert cs[i].requirements.crashedDuringHandling;
    }
    if w.arb.fatal {
      var i :| 0 <= i < n && w.issued[i].requirements.isFatal;
      assert cs[i].requirements.isFatal;
    }
  }

  lemma StepKeepsHistory(w: World, ev: Event)
    requires History(w) && Legal(ev)
    ensures History(Step(w, ev))
  {
    hide Involved, Begin, End, SomeRecrash, SomeFatal, OneRecrash, StaticsInOrder, Statics;
    if !w.exited && ev.Raise? {
      var n := Notify(w.arb, ev.offending, ev.thread, ev.requirements);
      assert Begin(w.arb, ev.thread).asyncIndex == w.arb.asyncIndex
          && Begin(w.arb, ev.thread).crashed == w.arb.crashed && Begin(w.arb, ev.thread).fatal == w.arb.fatal by {
        BeginKeeps(w.arb, ev.thread);
      }
      if n.verdict.Issue? {
        IssueKeepsHistory(w, n.verdict.ctx, n.arb.crashed, n.arb.fatal);
      }
    } else if !w.exited && ev.h < |w.live| && w.live[ev.h].index < MAX_EXCEPTIONS {
      EndKeeps(w.arb, w.live[ev.h].index);
    }
  }

  lemma BeginKeeps(a: Arbiter, thread: Thread)
    requires |a.slots| == MAX_EXCEPTIONS
    ensures var b := Begin(a, thread);
            |b.slots| == MAX_EXCEPTIONS && b.asyncIndex == a.asyncIndex && b.crashed == a.crashed && b.fatal == a.fatal
  {
  }

  lemma EndKeeps(a: Arbiter, i: nat)
    requires |a.slots| == MAX_EXCEPTIONS && i < MAX_EXCEPTIONS
    ensures var b := End(a, i);
            |b.slots| == MAX_EXCEPTIONS && b.asyncIndex == a.asyncIndex && b.crashed == a.crashed && b.fatal == a.fatal
  {
  }

  lemma {:induction false} RunKeepsHistory(w: World, events: seq<Event>)
    requires History(w) && forall i :: 0 <= i < |events| ==> Legal(events[i])
    ensures History(Run(w, events))
    decreases |events|
  {
    hide Step, History;
    if events != [] {
      assert |w.arb.slots| == MAX_EXCEPTIONS by { HistorySlots(w); }
      StepKeepsHistory(w, events[0]);
      RunKeepsHistory(Step(w, events[0]), events[1..]);
    }
  }

  lemma HistorySlots(w: World)
    requires History(w)
    ensures |w.arb.slots| == MAX_EXCEPTIONS
  {
  }

  lemma {:induction false} StaticsGrow(cs: seq<Context>, n: nat)
    requires n <= |cs|
    ensures Statics(cs[..n]) <= Statics(cs)
    ensures n < |cs| && cs[n].memory.Static? ==> Statics(cs[..n]) < Statics(cs)
    decreases |cs|
  {
    if n < |cs| {
      var init := cs[..|cs| - 1];
      assert init[..n] == cs[..n];
      StaticsGrow(init, n);
    } else {
      assert cs[..n] == cs;
    }
  }

  /** Over every run at most one recrash context and at most two async-safe contexts are
      issued, and no two of them are the same static context. */
  lemma StaticContextsNeverShared(events: seq<Event>)
    requires forall i :: 0 <= i < |events| ==> Legal(events[i])
    ensures var cs := Run(START, events).issued;
            && Statics(cs) <= 2 && OneRecrash(cs)
            && (forall i, j :: 0 <= i < j < |cs| && cs[i].memory.Static? ==> cs[j].memory != cs[i].memory)
            && SafelyIssued(cs)
  {
    RunKeepsHistory(START, events);
    RunIssuesSafely(START, events);
    var cs := Run(START, events).issued;
    forall i, j | 0 <= i < j < |cs| && cs[i].memory.Static?
      ensures cs[j].memory != cs[i].memory
    {
      StaticsGrow(cs[..j], i);
      assert cs[..j][..i] == cs[..i];
    }
  }

  /** Exactly the async-safe handlers are given a static context. */
  predicate SafelyIssued(cs: seq<Context>) {
    forall i :: 0 <= i < |cs| ==> (RequiresAsyncSafety(cs[i].requirements) <==> cs[i].memory.Static?)
  }

  lemma {:induction false} RunIssuesSafely(w: World, events: seq<Event>)
    requires |w.arb.slots| == MAX_EXCEPTIONS && SafelyIssued(w.issued)
    ensures SafelyIssued(Run(w, events).issued)
    decreases |events|
  {
    hide Involved, Begin, End;
    if events != [] {
      BeginKeeps(w.arb, if events[0].Raise? then events[0].thread else 0);
      var w1 := Step(w, events[0]);
      RunIssuesSafely(w1, events[1..]);
      assert Run(w, events) == Run(w1, events[1..]);
    }
  }

  /** What a recrash asks for: as little as possible, and nothing that is not safe. */
  predicate Cautious(r: Requirements) {
    r.crashedDuringHandling && r.isFatal && r.asyncSafety && !r.recordAllThreads
  }

  /** A context as its monitor asked for it, or made cautious. */
  predicate AsRaised(r: Requirements, raised: Requirements) {
    || r == raised
    || (Cautious(r) && r.writeReport == raised.writeReport && r.becauseSuspended == raised.becauseSuspended)
  }

  /** Some exception was raised with these requirements, or with ones made cautious. */
  predicate Asked(r: Requirements, events: seq<Event>) {
    exists e :: 0 <= e < |events| && events[e].Raise? && AsRaised(r, events[e].requirements)
  }

  ghost predicate AllAsRaised(cs: seq<Context>, events: seq<Event>) {
    forall i :: 0 <= i < |cs| ==> Asked(cs[i].requirements, events)
  }

  lemma AskedMore(r: Requirements, before: seq<Event>, ev: Event)
    ensures Asked(r, before) ==> Asked(r, before + [ev])
    ensures ev.Raise? && AsRaised(r, ev.requirements) ==> Asked(r, before + [ev])
  {
    var all := before + [ev];
    assert all[|before|] == ev;
    if Asked(r, before) {
      var e :| 0 <= e < |before| && before[e].Raise? && AsRaised(r, before[e].requirements);
      assert all[e] == before[e];
    }
  }

  lemma StepIssuesAsRaised(w: World, before: seq<Event>, ev: Event)
    requires |w.arb.slots| == MAX_EXCEPTIONS && AllAsRaised(w.issued, before)
    ensures AllAsRaised(Step(w, ev).issued, before + [ev])
  {
    hide Involved, Begin, End, Asked, AsRaised;
    if ev.Raise? {
      BeginKeeps(w.arb, ev.thread);
      IssuedAsRaised(ev.requirements);
    }
    forall i | 0 <= i < |Step(w, ev).issued|
      ensures Asked(Step(w, ev).issued[i].requirements, before + [ev])
    {
      AskedMore(Step(w, ev).issued[i].requirements, before, ev);
    }
  }

  lemma IssuedAsRaised(r: Requirements)
    ensures AsRaised(RecrashRequirements(r), r) && AsRaised(r, r)
  {
  }

  lemma {:induction false} RunIssuesAsRaised(w: World, before: seq<Event>, events: seq<Event>)
    requires |w.arb.slots| == MAX_EXCEPTIONS && AllAsRaised(w.issued, before)
    ensures AllAsRaised(Run(w, events).issued, before + events)
    decreases |events|
  {
    hide Step, AllAsRaised;
    if events == [] {
      assert before + events == before;
    } else {
      StepIssuesAsRaised(w, before, events[0]);
      RunIssuesAsRaised(Step(w, events[0]), before + [events[0]], events[1..]);
      assert before + [events[0]] + events[1..] == before + events;
    }
  }

  /** Over every run: a context has the requirements its monitor raised the exception with,
      unless it is a recrash; a recrash is fatal and async-safe and records no threads. */
  lemma ContextsAsRaised(events: seq<Event>)
    requires forall i :: 0 <= i < |events| ==> Legal(events[i])
    ensures var cs := Run(START, events).issued;
            && AllAsRaised(cs, events)
            && forall i :: 0 <= i < |cs| && cs[i].requirements.crashedDuringHandling ==> Cautious(cs[i].requirements)
  {
    hide Run;
    assert AllAsRaised(START.issued, []);
    RunIssuesAsRaised(START, [], events);
    assert [] + events == events;
  }

  /** Every static context in use has been issued. */
  ghost predicate HoldsIssued(w: World) {
    forall h :: 0 <= h < |w.live| && w.live[h].Running? && w.live[h].memory.Static? ==>
      w.live[h].memory.k < Statics(w.issued)
  }

  lemma StepHoldsIssued(w: World, ev: Event)
    requires History(w) && HoldsIssued(w) && Legal(ev)
    ensures HoldsIssued(Step(w, ev))
  {
    hide Involved, Begin, End, SomeRecrash, SomeFatal, OneRecrash, StaticsInOrder, Statics;
    if !w.exited && ev.Raise? {
      BeginKeeps(w.arb, ev.thread);
      var n := Notify(w.arb, ev.offending, ev.thread, ev.requirements);
      if n.verdict.Issue? {
        IssueKeepsHistory(w, n.verdict.ctx, n.arb.crashed, n.arb.fatal);
      }
    }
  }

  lemma {:induction false} RunHoldsIssued(w: World, events: seq<Event>)
    requires History(w) && HoldsIssued(w) && forall i :: 0 <= i < |events| ==> Legal(events[i])
    ensures HoldsIssued(Run(w, events))
    decreases |events|
  {
    hide Step, HoldsIssued, OneRecrash, StaticsInOrder, Statics;
    if events != [] {
      StepHoldsIssued(w, events[0]);
      StepKeepsHistory(w, events[0]);
      RunHoldsIssued(Step(w, events[0]), events[1..]);
    }
  }

  /** What a blocked handler would do if the fatal handler did not end the process
      while it sleeps. */
  function Resume(a: Arbiter, i: nat, initial: Requirements): Notified {
    NextContext(a.(fatal := a.fatal || initial.isFatal), i, initial)
  }

  ghost predicate InUse(w: World, m: Memory) {
    exists h :: 0 <= h < |w.live| && w.live[h].Running? && w.live[h].memory == m
  }

  /** It would be given a context that a handler under way is using if and only if both
      static contexts have been issued and the first is still in use; the exceptions it
      leaves behind stay fatal. */
  lemma ResumedHandlerShares(events: seq<Event>, i: nat, initial: Requirements)
    requires forall k :: 0 <= k < |events| ==> Legal(events[k])
    requires RequiresAsyncSafety(initial)
    ensures var w := Run(START, events);
            && (InUse(w, Resume(w.arb, i, initial).verdict.ctx.memory) <==>
                  Statics(w.issued) == 2 && InUse(w, Static(0)))
            && (SomeFatal(w.issued) || initial.isFatal ==> Resume(w.arb, i, initial).arb.fatal)
  {
    hide OneRecrash, StaticsInOrder, Statics, Step, Run;
    assert HoldsIssued(START);
    StartHistory();
    RunKeepsHistory(START, events);
    RunHoldsIssued(START, events);
  }

  lemma StartHistory()
    ensures History(START)
  {
  }

  const FATAL: Requirements := Requirements(false, true, true, true, false, false)

  /** A crash and a recrash on thread 1, and a blocked crash on thread 2. */
  const CRASHES: seq<Event> := [Raise(1, 1, FATAL), Raise(1, 1, FATAL), Raise(2, 2, FATAL)]

  lemma ThreeCrashes()
    ensures var w := Run(START, CRASHES);
            && w.live == [Running(1, 0, Static(0)), Running(1, 1, Static(1)), Waiting(2, 2)]
            && !w.exited && |w.issued| == 2 && w.issued[0].memory == Static(0) && w.issued[1].memory == Static(1)
  {
    hide Involved;
    var w1, w2 := Step(START, CRASHES[0]), Step(Step(START, CRASHES[0]), CRASHES[1]);
    assert !Involved(Begin(START.arb, 1).slots, 0, 1, 1) by { NotAmong(Begin(START.arb, 1).slots, 0, 1); }
    assert Involved(Begin(w1.arb, 1).slots, 1, 1, 1) by { Among(Begin(w1.arb, 1).slots, 1, 0, 1); }
    assert !Involved(Begin(w2.arb, 2).slots, 2, 2, 2) by { NotAmong(Begin(w2.arb, 2).slots, 2, 2); }
    assert CRASHES[1..][1..] == CRASHES[2..] && CRASHES[2..][1..] == [];
    assert Run(START, CRASHES) == Run(w1, CRASHES[1..]) == Run(w2, CRASHES[2..]) == Step(w2, CRASHES[2]);
  }

  lemma NotAmong(slots: seq<Thread>, count: nat, thread: Thread)
    requires count <= |slots| && forall i :: 0 <= i < count ==> slots[i] != thread
    ensures !Involved(slots, count, thread, thread)
  {
  }

  lemma Among(slots: seq<Thread>, count: nat, i: nat, thread: Thread)
    requires i < count <= |slots| && slots[i] == thread
    ensures Involved(slots, count, thread, thread)
  {
  }

  /** Such a run: if the blocked handler resumes, it shares the context of the first. */
  lemma ResumedHandlerWitness()
    ensures forall k :: 0 <= k < |CRASHES| ==> Legal(CRASHES[k])
    ensures var w := Run(START, CRASHES);
            && !w.exited && w.live == [Running(1, 0, Static(0)), Running(1, 1, Static(1)), Waiting(2, 2)]
            && Resume(w.arb, 2, FATAL).verdict == Issue(Context(Static(0), 2, FATAL))
  {
    hide Run, Resume, OneRecrash, StaticsInOrder;
    ThreeCrashes();
    var w := Run(START, CRASHES);
    StartHistory();
    RunKeepsHistory(START, CRASHES);
    assert w.issued == [w.issued[0], w.issued[1]];
    assert w.issued[..1] == [w.issued[0]] && w.issued[..1][..0] == [];
    assert Statics(w.issued[..1]) == 1;
    assert w.arb.asyncIndex == 2;
    ResumedMemory(w.arb);
  }

  lemma ResumedMemory(a: Arbiter)
    ensures Resume(a, 2, FATAL).verdict == Issue(Context(Static(a.asyncIndex % 2), 2, FATAL))
  {
  }

  // ---------------------------------------------------------------- the slots

  ghost predicate Owns(w: World, h: Handler) {
    && h.index < w.arb.index && h.index < |w.arb.slots|
    && h.thread != 0 && w.arb.slots[h.index] == h.thread
  }

  ghost predicate Owned(live: seq<Handler>, i: nat) {
    exists h :: 0 <= h < |live| && live[h].index == i
  }

  /** Every live handler owns a slot of its own below the index, every occupied slot
      has a live owner, and the index is 0 exactly when no handler is live. */
  ghost predicate SlotTable(w: World) {
    && |w.arb.slots| == MAX_EXCEPTIONS && w.arb.index <= MAX_EXCEPTIONS
    && (forall h :: 0 <= h < |w.live| ==> Owns(w, w.live[h]))
    && (forall g, h :: 0 <= g < h < |w.live| ==> w.live[g].index != w.live[h].index)
    && (forall i :: 0 <= i < MAX_EXCEPTIONS && w.arb.slots[i] != 0 ==> Owned(w.live, i))
    && (w.arb.index == 0 <==> w.live == [])
  }

  /** The table is never full when an exception comes in. */
  predicate NeverFull(w: World, events: seq<Event>)
    requires |w.arb.slots| == MAX_EXCEPTIONS
    decreases |events|
  {
    events != [] ==> (events[0].Raise? ==> w.arb.index < MAX_EXCEPTIONS) && NeverFull(Step(w, events[0]), events[1..])
  }

  lemma RaiseKeepsTable(w: World, ev: Event)
    requires SlotTable(w) && Legal(ev) && ev.Raise? && w.arb.index < MAX_EXCEPTIONS && !w.exited
    ensures Step(w, ev).exited || SlotTable(Step(w, ev))
  {
    hide Involved;
    var r := Step(w, ev);
    if !r.exited {
      var n := |w.live|;
      assert r.live[n].index == w.arb.index && r.live[n].thread == ev.thread;
      forall h | 0 <= h < |r.live|
        ensures Owns(r, r.live[h])
      {
        if h < n {
          assert Owns(w, w.live[h]);
        }
      }
      forall i | 0 <= i < MAX_EXCEPTIONS && r.arb.slots[i] != 0
        ensures Owned(r.live, i)
      {
        if i != w.arb.index {
          var h :| 0 <= h < n && w.live[h].index == i;
          assert r.live[h].index == i;
        }
      }
    }
  }

  lemma OwnedWithout(live: seq<Handler>, k: nat, i: nat)
    requires k < |live| && Owned(live, i) && live[k].index != i
    ensures Owned(Without(live, k), i)
  {
    var h :| 0 <= h < |live| && live[h].index == i;
    assert Without(live, k)[if h < k then h else h - 1] == live[h];
  }

  /** The handlers that stay keep their slots. */
  lemma OthersKeepSlots(w: World, k: nat)
    requires SlotTable(w) && k < |w.live|
    ensures w.live[k].index < MAX_EXCEPTIONS
    ensures var slots := w.arb.slots[w.live[k].index := 0];
            var rest := Without(w.live, k);
            && (forall h :: 0 <= h < |rest| ==>
                  rest[h].thread != 0 && rest[h].index < w.arb.index && slots[rest[h].index] == rest[h].thread)
            && (forall g, h :: 0 <= g < h < |rest| ==> rest[g].index != rest[h].index)
  {
    assert Owns(w, w.live[k]);
    var rest := Without(w.live, k);
    forall h | 0 <= h < |rest|
      ensures rest[h] == w.live[if h < k then h else h + 1] && Owns(w, rest[h])
    {
    }
  }

  lemma FinishKeepsTable(w: World, k: nat)
    requires SlotTable(w) && k < |w.live| && w.live[k].Running? && !w.exited
    ensures SlotTable(Step(w, Finish(k)))
  {
    hide Owned;
    OthersKeepSlots(w, k);
    var r := Step(w, Finish(k));
    var rest := Without(w.live, k);
    var slots := w.arb.slots[w.live[k].index := 0];
    assert r.live == rest && r.arb.slots == slots;
    forall i | 0 <= i < MAX_EXCEPTIONS && slots[i] != 0
      ensures Owned(rest, i)
    {
      OwnedWithout(w.live, k, i);
    }
    if rest != [] {
      assert slots[rest[0].index] != 0;
    } else {
      forall i | 0 <= i < MAX_EXCEPTIONS
        ensures slots[i] == 0
      {
        NobodyOwns(i);
      }
    }
  }

  lemma NobodyOwns(i: nat)
    ensures !Owned([], i)
  {
  }

  lemma {:induction false} RunKeepsTable(w: World, events: seq<Event>)
    requires SlotTable(w) || (w.exited && |w.arb.slots| == MAX_EXCEPTIONS)
    requires NeverFull(w, events) && forall i :: 0 <= i < |events| ==> Legal(events[i])
    ensures Run(w, events).exited || SlotTable(Run(w, events))
    decreases |events|
  {
    hide SlotTable, Raised, End;
    assert |w.arb.slots| == MAX_EXCEPTIONS by { TableSlots(w); }
    if events != [] {
      var ev := events[0];
      var w1 := Step(w, ev);
      if !w.exited {
        if ev.Raise? {
          RaiseKeepsTable(w, ev);
        } else if ev.h < |w.live| && w.live[ev.h].Running? {
          FinishKeepsTable(w, ev.h);
        }
      }
      RunKeepsTable(w1, events[1..]);
    }
  }

  lemma TableSlots(w: World)
    ensures SlotTable(w) ==> |w.arb.slots| == MAX_EXCEPTIONS
  {
  }

  lemma StartTable()
    ensures SlotTable(START) && History(START)
  {
  }

  /** Some handler under way runs on one of these threads. */
  ghost predicate Nested(w: World, offending: Thread, thread: Thread) {
    exists h :: 0 <= h < |w.live| && (w.live[h].thread == thread || w.live[h].thread == offending)
  }

  lemma InvolvedIsNested(w: World, offending: Thread, thread: Thread)
    requires SlotTable(w) && w.arb.index < MAX_EXCEPTIONS && offending != 0 && thread != 0
    ensures Involved(Begin(w.arb, thread).slots, w.arb.index, offending, thread) <==> Nested(w, offending, thread)
  {
    var b := Begin(w.arb, thread);
    if Involved(b.slots, w.arb.index, offending, thread) {
      var i :| 0 <= i < w.arb.index && (b.slots[i] == thread || b.slots[i] == offending);
      assert w.arb.slots[i] == b.slots[i] != 0;
      assert Owned(w.live, i);
      var h :| 0 <= h < |w.live| && w.live[h].index == i;
      assert Owns(w, w.live[h]);
    }
    if Nested(w, offending, thread) {
      var h :| 0 <= h < |w.live| && (w.live[h].thread == thread || w.live[h].thread == offending);
      assert Owns(w, w.live[h]);
      assert b.slots[w.live[h].index] == w.live[h].thread;
    }
  }

  /** The table of decisions, in terms of the handlers under way and of the contexts
      issued since the start: an exception on a thread that is already handling one is
      a recrash the first time and ends the process the second time; any other is
      blocked behind a fatal one and handled normally otherwise. */
  lemma DecisionTable(events: seq<Event>, ev: Event)
    requires forall i :: 0 <= i < |events| ==> Legal(events[i])
    requires NeverFull(START, events) && Legal(ev) && ev.Raise?
    requires var w := Run(START, events); !w.exited && w.arb.index < MAX_EXCEPTIONS
    ensures var w := Run(START, events);
            var v := Notify(w.arb, ev.offending, ev.thread, ev.requirements).verdict;
            var nested := Nested(w, ev.offending, ev.thread);
            && (v.Exited? <==> nested && SomeRecrash(w.issued))
            && (nested && !SomeRecrash(w.issued) <==>
                v.Issue? && v.ctx.requirements == RecrashRequirements(ev.requirements))
            && (v.Blocked? <==> !nested && SomeFatal(w.issued))
            && (!nested && !SomeFatal(w.issued) <==> v.Issue? && v.ctx.requirements == ev.requirements)
  {
    hide Involved, Begin, SomeRecrash, SomeFatal, Nested, NeverFull;
    StartTable();
    RunKeepsHistory(START, events);
    RunKeepsTable(START, events);
    var w := Run(START, events);
    InvolvedIsNested(w, ev.offending, ev.thread);
    BeginKeeps(w.arb, ev.thread);
  }

  // ------------------------------------------------------------ the full table

  predicate IndicesInTable(cs: seq<Context>) {
    forall i :: 0 <= i < |cs| ==> cs[i].handlerIndex < MAX_EXCEPTIONS
  }

  lemma {:induction false} RunStaysInTable(w: World, events: seq<Event>)
    requires |w.arb.slots| == MAX_EXCEPTIONS && IndicesInTable(w.issued) && NeverFull(w, events)
    ensures IndicesInTable(Run(w, events).issued)
    decreases |events|
  {
    hide Involved, Begin, End;
    if events != [] {
      BeginKeeps(w.arb, if events[0].Raise? then events[0].thread else 0);
      var next := Step(w, events[0]);
      assert IndicesInTable(next.issued);
      RunStaysInTable(next, events[1..]);
      assert Run(w, events) == Run(next, events[1..]);
    }
  }

  const HARMLESS: Requirements := Requirements(false, true, false, false, false, false)

  /** Exceptions on thread 2 that are handled one after the other. */
  function Rounds(n: nat): (r: seq<Event>)
    ensures forall i :: 0 <= i < |r| ==> Legal(r[i])
  {
    if n == 0 then [] else [Raise(2, 2, HARMLESS), Finish(1)] + Rounds(n - 1)
  }

  /** One handler under way on thread 1 since the table was last empty. */
  ghost predicate OneUnderWay(w: World, index: nat) {
    && w.arb == Arbiter(false, false, 0, w.arb.slots, index)
    && |w.arb.slots| == MAX_EXCEPTIONS && w.arb.slots[0] == 1
    && (forall i :: 0 < i < MAX_EXCEPTIONS ==> w.arb.slots[i] == 0)
    && w.live == [Running(1, 0, Heap)] && !w.exited
  }

  lemma OneRound(w: World, index: nat)
    requires OneUnderWay(w, index) && 0 < index < MAX_EXCEPTIONS
    ensures OneUnderWay(Step(Step(w, Raise(2, 2, HARMLESS)), Finish(1)), index + 1)
  {
    hide Involved;
    var w1 := Step(w, Raise(2, 2, HARMLESS));
    assert !Involved(Begin(w.arb, 2).slots, index, 2, 2) by { NotAmong(Begin(w.arb, 2).slots, index, 2); }
    assert w1.live == [Running(1, 0, Heap), Running(2, index, Heap)];
    assert w1.arb.slots == w.arb.slots[index := 2] && w1.arb.slots[index := 0] == w.arb.slots;
    assert w.arb.slots[0] != 0;
    assert Without(w1.live, 1) == w.live;
  }

  lemma {:induction false} RoundsUseUp(w: World, index: nat, n: nat)
    requires OneUnderWay(w, index) && 0 < index && index + n <= MAX_EXCEPTIONS
    ensures NeverFull(w, Rounds(n)) && OneUnderWay(Run(w, Rounds(n)), index + n)
    decreases n
  {
    hide Step, Legal;
    if n > 0 {
      var evs := Rounds(n);
      OneRound(w, index);
      var w1 := Step(w, evs[0]);
      assert evs[0] == Raise(2, 2, HARMLESS) && evs[1..][0] == Finish(1) && evs[1..][1..] == Rounds(n - 1);
      RoundsUseUp(Step(w1, Finish(1)), index + 1, n - 1);
      assert Run(w, evs) == Run(w1, evs[1..]) == Run(Step(w1, Finish(1)), Rounds(n - 1));
    }
  }

  /** Every context issued refers to a slot of the table as long as no exception comes in
      when the table is full.  That is needed: in this run, with one handler under way, 199
      others come and go, and the next exception is not dropped, since the limit is compared
      with `>`, but is given the index behind the table; whatever is raised after that is
      dropped. */
  lemma FullTableRun(events: seq<Event>)
    ensures NeverFull(START, events) ==> IndicesInTable(Run(START, events).issued)
    ensures var fill := [Raise(1, 1, HARMLESS)] + Rounds(MAX_EXCEPTIONS - 1);
            var w := Run(START, fill);
            && (forall i :: 0 <= i < |fill| ==> Legal(fill[i])) && NeverFull(START, fill)
            && OneUnderWay(w, MAX_EXCEPTIONS)
            && var full := Step(w, Raise(3, 3, HARMLESS));
               && full.issued == w.issued + [Context(Heap, MAX_EXCEPTIONS, HARMLESS)]
               && forall ev :: Legal(ev) && ev.Raise? ==>
                    Step(full, ev).issued == full.issued && Step(full, ev).live == full.live && !Step(full, ev).exited
  {
    hide Rounds, Involved;
    if NeverFull(START, events) {
      RunStaysInTable(START, events);
    }
    var fill := [Raise(1, 1, HARMLESS)] + Rounds(MAX_EXCEPTIONS - 1);
    assert !Involved(Begin(START.arb, 1).slots, 0, 1, 1) by { NotAmong(Begin(START.arb, 1).slots, 0, 1); }
    var w1 := Step(START, fill[0]);
    assert OneUnderWay(w1, 1);
    assert fill[1..] == Rounds(MAX_EXCEPTIONS - 1);
    RoundsUseUp(w1, 1, MAX_EXCEPTIONS - 1);
    var w := Run(START, fill);
    assert w == Run(w1, fill[1..]);
    assert Begin(w.arb, 3).slots == w.arb.slots;
    NotAmong(w.arb.slots, MAX_EXCEPTIONS, 3);
  }

  // ------------------------------------------------------------ the global state

  class Monitor {
    var crashedDuringExceptionHandling: bool
    var isHandlingFatalException: bool
    var asyncSafeContextIndex: nat
    const threadsHandlingExceptions: array<Thread>
    var handlingExceptionIndex: nat

    ghost predicate Valid() {
      threadsHandlingExceptions.Length == MAX_EXCEPTIONS
    }

    ghost function Model(): Arbiter
      reads this, threadsHandlingExceptions
    {
      Arbiter(crashedDuringExceptionHandling, isHandlingFatalException, asyncSafeContextIndex,
              threadsHandlingExceptions[..], handlingExceptionIndex)
    }

    constructor ()
      ensures Valid() && fresh(threadsHandlingExceptions) && Model() == START.arb
    {
      crashedDuringExceptionHandling, isHandlingFatalException := false, false;
      asyncSafeContextIndex, handlingExceptionIndex := 0, 0;
      threadsHandlingExceptions := new Thread[MAX_EXCEPTIONS](_ => 0);
      new;
      assert threadsHandlingExceptions[..] == START.arb.slots;
    }

    /** isThreadAlreadyHandlingAnException. */
    method IsThreadAlreadyHandling(count: nat, offending: Thread, thread: Thread) returns (found: bool)
      requires Valid()
      ensures found == Involved(threadsHandlingExceptions[..], count, offending, thread)
    {
      var maxCount := if count > MAX_EXCEPTIONS then MAX_EXCEPTIONS else count;
      var i := 0;
      while i < maxCount
        invariant 0 <= i <= maxCount
        invariant forall k :: 0 <= k < i ==>
                  threadsHandlingExceptions[k] != thread && threadsHandlingExceptions[k] != offending
      {
        var handler := threadsHandlingExceptions[i];
        if handler == thread || handler == offending {
          assert threadsHandlingExceptions[..][i] == handler;
          return true;
        }
        i := i + 1;
      }
      return false;
    }

    method BeginHandling(thread: Thread) returns (index: nat)
      requires Valid()
      modifies this`handlingExceptionIndex, threadsHandlingExceptions
      ensures index == old(handlingExceptionIndex) && Model() == Begin(old(Model()), thread)
    {
      index := handlingExceptionIndex;
      handlingExceptionIndex := handlingExceptionIndex + 1;
      if index < MAX_EXCEPTIONS {
        threadsHandlingExceptions[index] := thread;
      }
    }

    method EndHandling(index: nat)
      requires Valid() && index < MAX_EXCEPTIONS
      modifies this`handlingExceptionIndex, threadsHandlingExceptions
      ensures Model() == End(old(Model()), index)
    {
      threadsHandlingExceptions[index] := 0;
      ghost var slots := old(threadsHandlingExceptions[..])[index := 0];
      assert threadsHandlingExceptions[..] == slots;
      if handlingExceptionIndex == 0 {
        return;
      }
      var i := 0;
      while i < MAX_EXCEPTIONS
        invariant 0 <= i <= MAX_EXCEPTIONS
        invariant forall k :: 0 <= k < i ==> slots[k] == 0
      {
        if threadsHandlingExceptions[i] != 0 {
          assert slots[i] != 0;
          return;
        }
        i := i + 1;
      }
      handlingExceptionIndex := 0;
    }

    /** getNextMonitorContext, with the fields notifyException sets behind it. */
    method GetNextMonitorContext(index: nat, r: Requirements) returns (ctx: Context)
      requires Valid()
      modifies this`asyncSafeContextIndex
      ensures Notified(Model(), Issue(ctx)) == NextContext(old(Model()), index, r)
    {
      if RequiresAsyncSafety(r) {
        ctx := Context(Static(asyncSafeContextIndex % 2), index, r);
        asyncSafeContextIndex := asyncSafeContextIndex + 1;
      } else {
        ctx := Context(Heap, index, r);
      }
    }

    /** notifyException, up to the suspension of the other threads. */
    method NotifyException(offending: Thread, thread: Thread, initial: Requirements) returns (verdict: Verdict)
      requires Valid()
      modifies this, threadsHandlingExceptions
      ensures Notified(Model(), verdict) == Notify(old(Model()), offending, thread, initial)
    {
      hide Involved;
      var index := BeginHandling(thread);
      var wasHandlingFatal := isHandlingFatalException;
      var wasCrashed := crashedDuringExceptionHandling;
      var requirements := initial;
      var isCrashed := IsThreadAlreadyHandling(index, offending, thread);
      if index > MAX_EXCEPTIONS {
        return Dropped;
      }
      if isCrashed && wasCrashed {
        return Exited;
      }
      if isCrashed {
        requirements := requirements.(crashedDuringHandling := true, asyncSafety := true,
                                      recordAllThreads := false, isFatal := true);
      } else if wasHandlingFatal {
        return Blocked(index);
      }
      crashedDuringExceptionHandling := crashedDuringExceptionHandling || isCrashed;
      isHandlingFatalException := isHandlingFatalException || requirements.isFatal;
      var ctx := GetNextMonitorContext(index, requirements);
      return Issue(ctx);
    }
  }
}
