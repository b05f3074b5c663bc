/** Suspending the other threads of the process while an exception is handled, and
    resuming them early or at the end. */
module MachineContext {
  import opened JsonText
  import CrashMonitor

  type Thread = CrashMonitor.Thread

  type Requirements = CrashMonitor.Requirements

  const RESERVED_MAX: nat := 10

  /** How often each thread is suspended; a thread without an entry runs. */
  type Counts = map<Thread, int>

  function Get(c: Counts, t: Thread): int {
    if t in c then c[t] else 0
  }

  predicate Eligible(t: Thread, self: Thread, reserved: seq<Thread>) {
    t != self && t !in reserved
  }

  /** Suspend (by 1) or resume (by -1) the eligible threads of a list, one by one. */
  function Applied(c: Counts, list: seq<Thread>, self: Thread, reserved: seq<Thread>, delta: int): Counts
    decreases |list|
  {
    if list == [] then c
    else
      var t := list[|list| - 1];
      var c1 := Applied(c, list[..|list| - 1], self, reserved, delta);
      if Eligible(t, self, reserved) then c1[t := Get(c1, t) + delta] else c1
  }

  /** What a list adds to a thread's count. */
  function Share(list: seq<Thread>, self: Thread, reserved: seq<Thread>, t: Thread): nat {
    if Eligible(t, self, reserved) then multiset(list)[t] else 0
  }

  lemma {:induction false} AppliedAdds(c: Counts, list: seq<Thread>, self: Thread, reserved: seq<Thread>, delta: int,
                                       t: Thread)
    ensures Get(Applied(c, list, self, reserved, delta), t) == Get(c, t) + delta * Share(list, self, reserved, t)
    decreases |list|
  {
    if list != [] {
      var init := list[..|list| - 1];
      assert list == init + [list[|list| - 1]];
      AppliedAdds(c, init, self, reserved, delta, t);
      assert delta * (Share(init, self, reserved, t) + 1) == delta * Share(init, self, reserved, t) + delta;
    }
  }

  /** Resuming restores every count exactly if the same threads of the list are
      eligible as when they were suspended. */
  lemma ResumeRestores(c: Counts, list: seq<Thread>, self: Thread, reserved: seq<Thread>, self1: Thread,
                       reserved1: seq<Thread>)
    ensures (forall t ::
               Get(Applied(Applied(c, list, self, reserved, 1), list, self1, reserved1, -1), t) == Get(c, t)) <==>
            (forall t :: t in list ==> Eligible(t, self, reserved) == Eligible(t, self1, reserved1))
  {
    var c1 := Applied(c, list, self, reserved, 1);
    forall t
      ensures Get(Applied(c1, list, self1, reserved1, -1), t) == Get(c, t) <==>
              (t in list ==> Eligible(t, self, reserved) == Eligible(t, self1, reserved1))
    {
      AppliedAdds(c, list, self, reserved, 1, t);
      AppliedAdds(c1, list, self1, reserved1, -1, t);
      assert t in list <==> t in multiset(list);
    }
  }

  // --------------------------------------------------------- one handler's steps

  /** The kernel's side: suspend counts, and the thread lists handed out and given back. */
  datatype Env = Env(counts: Counts, acquired: nat, released: nat)

  /** A handler: its thread, its requirements and the thread list its context holds. */
  datatype Holder = Holder(self: Thread, requirements: Requirements, held: Option<seq<Thread>>)

  datatype Both = Both(env: Env, holder: Holder)

  /** ksmc_suspendEnvironment; `tasks` is what task_threads returns. */
  function Suspend(env: Env, h: Holder, reserved: seq<Thread>, tasks: Option<seq<Thread>>): Both {
    if h.held.Some? then Both(env, h)
    else if tasks.None? then Both(env, h.(held := None))
    else
      Both(Env(Applied(env.counts, tasks.value, h.self, reserved, 1), env.acquired + 1, env.released),
           h.(held := tasks))
  }

  /** ksmc_resumeEnvironment. */
  function Resume(env: Env, h: Holder, reserved: seq<Thread>): Both {
    if h.held.None? || h.held.value == [] then Both(env, h.(held := None))
    else
      Both(Env(Applied(env.counts, h.held.value, h.self, reserved, -1), env.acquired, env.released + 1),
           h.(held := None))
  }

  /** The end of notifyException. */
  function NotifySuspends(env: Env, h: Holder, reserved: seq<Thread>, tasks: Option<seq<Thread>>): Both {
    if !h.requirements.recordAllThreads then Both(env, h)
    else
      var b := Suspend(env, h.(held := None), reserved, tasks);
      if b.holder.held.Some? && |b.holder.held.value| > 0 then
        Both(b.env, b.holder.(requirements := h.requirements.(becauseSuspended := true)))
      else b
  }

  /** The report writer, once it has recorded the threads. */
  function ReportResumes(env: Env, h: Holder, reserved: seq<Thread>): Both {
    if h.held.None? || |h.held.value| == 0 then Both(env, h)
    else
      var h1 := h.(requirements := h.requirements.(becauseSuspended := false));
      if CrashMonitor.RequiresAsyncSafety(h1.requirements) then Both(env, h1) else Resume(env, h1, reserved)
  }

  /** Suspending again while threads are kept suspended, and resuming again when they are
      not, has no effect: each list is applied once and given back once. */
  lemma TwiceIsOnce(env: Env, h: Holder, reserved: seq<Thread>, tasks: seq<Thread>, again: Option<seq<Thread>>,
                    t: Thread)
    requires h.held.None? && tasks != []
    ensures var one := Suspend(env, h, reserved, Some(tasks));
            var two := Suspend(one.env, one.holder, reserved, again);
            var back := Resume(two.env, two.holder, reserved);
            var after := Resume(back.env, back.holder, reserved);
            && Get(two.env.counts, t) == Get(env.counts, t) + Share(tasks, h.self, reserved, t)
            && Get(after.env.counts, t) == Get(env.counts, t)
            && two.env.acquired == env.acquired + 1 && after.env.released == env.released + 1
            && after.env.acquired == two.env.acquired && after.holder == h
  {
    hide Applied, Share;
    var one := Suspend(env, h, reserved, Some(tasks));
    AppliedAdds(env.counts, tasks, h.self, reserved, 1, t);
    AppliedAdds(one.env.counts, tasks, h.self, reserved, -1, t);
  }

  // ------------------------------------------------------------ runs of handlers

  datatype Phase = Fresh | Handling | Handled

  datatype Entry = Entry(holder: Holder, phase: Phase)

  datatype World = World(env: Env, entries: seq<Entry>)

  datatype Event = Notify(i: nat, tasks: Option<seq<Thread>>) | Report(i: nat) | Handle(i: nat)

  /** task_threads lists at least the calling thread. */
  predicate Legal(ev: Event) {
    ev.Notify? && ev.tasks.Some? ==> ev.tasks.value != []
  }

  function Placed(w: World, i: nat, b: Both, phase: Phase): World
    requires i < |w.entries|
  {
    World(b.env, w.entries[i := Entry(b.holder, phase)])
  }

  /** Handlers of several threads, their steps in any order. */
  function Step(w: World, reserved: seq<Thread>, ev: Event): (r: World)
    ensures |r.entries| == |w.entries|
  {
    if ev.i >= |w.entries| then w
    else
      var e := w.entries[ev.i];
      match ev
      case Notify(i, tasks) =>
        if e.phase.Fresh? then Placed(w, i, NotifySuspends(w.env, e.holder, reserved, tasks), Handling) else w
      case Report(i) =>
        if e.phase.Handling? then Placed(w, i, ReportResumes(w.env, e.holder, reserved), Handling) else w
      case Handle(i) =>
        if e.phase.Handling? then Placed(w, i, Resume(w.env, e.holder, reserved), Handled) else w
  }

  function Run(w: World, reserved: seq<Thread>, events: seq<Event>): (r: World)
    ensures |r.entries| == |w.entries|
    decreases |events|
  {
    if events == [] then w else Run(Step(w, reserved, events[0]), reserved, events[1..])
  }

  function HolderShare(h: Holder, reserved: seq<Thread>, t: Thread): nat {
    if h.held.Some? then Share(h.held.value, h.self, reserved, t) else 0
  }

  /** What all handlers together add to a thread's count. */
  function Owed(entries: seq<Entry>, reserved: seq<Thread>, t: Thread): nat {
    if entries == [] then 0
    else Owed(entries[..|entries| - 1], reserved, t) + HolderShare(entries[|entries| - 1].holder, reserved, t)
  }

  function Lists(entries: seq<Entry>): nat {
    if entries == [] then 0
    else Lists(entries[..|entries| - 1]) + if entries[|entries| - 1].holder.held.Some? then 1 else 0
  }

  lemma {:induction false} OwedUpdate(entries: seq<Entry>, reserved: seq<Thread>, t: Thread, i: nat, e: Entry)
    requires i < |entries|
    ensures Owed(entries[i := e], reserved, t) ==
            Owed(entries, reserved, t) - HolderShare(entries[i].holder, reserved, t)
            + HolderShare(e.holder, reserved, t)
    decreases |entries|
  {
    var n := |entries| - 1;
    var changed := entries[i := e];
    if i < n {
      OwedUpdate(entries[..n], reserved, t, i, e);
      assert changed[..n] == entries[..n][i := e];
    } else {
      assert changed[..n] == entries[..n];
    }
  }

  lemma {:induction false} ListsUpdate(entries: seq<Entry>, i: nat, e: Entry)
    requires i < |entries|
    ensures Lists(entries[i := e]) ==
            Lists(entries) - (if entries[i].holder.held.Some? then 1 else 0) + if e.holder.held.Some? then 1 else 0
    decreases |entries|
  {
    var n := |entries| - 1;
    var changed := entries[i := e];
    if i < n {
      ListsUpdate(entries[..n], i, e);
      assert changed[..n] == entries[..n][i := e];
    } else {
      assert changed[..n] == entries[..n];
    }
  }

  /** A handler holds a list only while it is handling, never an empty one, and while it
      holds one it requires async safety. */
  ghost predicate EntryOk(e: Entry) {
    e.holder.held.Some? ==>
      e.phase.Handling? && e.holder.held.value != [] && CrashMonitor.RequiresAsyncSafety(e.holder.requirements)
  }

  /** Every thread is suspended as often as at the start, plus once per handler whose
      list it is in; and the lists handed out and not given back are those held. */
  ghost predicate Balanced(base: Counts, w: World, reserved: seq<Thread>) {
    && (forall i :: 0 <= i < |w.entries| ==> EntryOk(w.entries[i]))
    && (forall t :: Get(w.env.counts, t) == Get(base, t) + Owed(w.entries, reserved, t))
    && w.env.acquired == w.env.released + Lists(w.entries)
  }

  lemma OneHandlerBalanced(env: Env, e: Entry, reserved: seq<Thread>, ev: Event, b: Both, t: Thread)
    requires EntryOk(e) && Legal(ev)
    requires match ev
             case Notify(_, tasks) => e.phase.Fresh? && b == NotifySuspends(env, e.holder, reserved, tasks)
             case Report(_) => e.phase.Handling? && b == ReportResumes(env, e.holder, reserved)
             case Handle(_) => e.phase.Handling? && b == Resume(env, e.holder, reserved)
    ensures EntryOk(Entry(b.holder, if ev.Handle? then Handled else Handling))
    ensures Get(b.env.counts, t) - HolderShare(b.holder, reserved, t) ==
            Get(env.counts, t) - HolderShare(e.holder, reserved, t)
    ensures b.env.acquired - b.env.released - (if b.holder.held.Some? then 1 else 0) ==
            env.acquired - env.released - (if e.holder.held.Some? then 1 else 0)
  {
    hide Applied, Share;
    if e.holder.held.Some? {
      AppliedAdds(env.counts, e.holder.held.value, e.holder.self, reserved, -1, t);
    }
    if ev.Notify? && ev.tasks.Some? {
      AppliedAdds(env.counts, ev.tasks.value, e.holder.self, reserved, 1, t);
    }
  }

  lemma StepKeepsBalance(base: Counts, w: World, reserved: seq<Thread>, ev: Event)
    requires Balanced(base, w, reserved) && Legal(ev)
    ensures Balanced(base, Step(w, reserved, ev), reserved)
  {
    hide Owed, Lists, HolderShare, EntryOk, NotifySuspends, ReportResumes, Resume;
    var r := Step(w, reserved, ev);
    if ev.i < |w.entries| && r != w {
      var i := ev.i;
      var e := r.entries[i];
      var b := Both(r.env, e.holder);
      assert r == Placed(w, i, b, e.phase);
      assert EntryOk(w.entries[i]);
      forall t
        ensures Get(r.env.counts, t) == Get(base, t) + Owed(r.entries, reserved, t)
      {
        OneHandlerBalanced(w.env, w.entries[i], reserved, ev, b, t);
        OwedUpdate(w.entries, reserved, t, i, e);
      }
      OneHandlerBalanced(w.env, w.entries[i], reserved, ev, b, 0);
      ListsUpdate(w.entries, i, e);
    }
  }

  lemma {:induction false} RunKeepsBalance(base: Counts, w: World, reserved: seq<Thread>, events: seq<Event>)
    requires Balanced(base, w, reserved) && forall i :: 0 <= i < |events| ==> Legal(events[i])
    ensures Balanced(base, Run(w, reserved, events), reserved)
    decreases |events|
  {
    hide Balanced, Step;
    if events != [] {
      StepKeepsBalance(base, w, reserved, events[0]);
      RunKeepsBalance(base, Step(w, reserved, events[0]), reserved, events[1..]);
    }
  }

  lemma {:induction false} NothingOwed(entries: seq<Entry>, reserved: seq<Thread>, t: Thread)
    requires forall i :: 0 <= i < |entries| ==> entries[i].holder.held.None?
    ensures Owed(entries, reserved, t) == 0 && Lists(entries) == 0
    decreases |entries|
  {
    if entries != [] {
      NothingOwed(entries[..|entries| - 1], reserved, t);
    }
  }

  lemma {:induction false} ReservedOwesNothing(entries: seq<Entry>, reserved: seq<Thread>, t: Thread)
    requires t in reserved
    ensures Owed(entries, reserved, t) == 0
    decreases |entries|
  {
    if entries != [] {
      ReservedOwesNothing(entries[..|entries| - 1], reserved, t);
    }
  }

  /** However the steps of the handlers interleave and whichever of them resumed early:
      once no handler is between notify and the end of handle, every thread's suspend
      count is what it was and every thread list has been given back exactly once.  Reserved
      threads are never suspended, and while threads are suspended for a handler, it
      requires async safety. */
  lemma SuspensionBalance(env: Env, holders: seq<Holder>, reserved: seq<Thread>, events: seq<Event>)
    requires env.acquired == env.released
    requires forall i :: 0 <= i < |holders| ==> holders[i].held.None?
    requires forall i :: 0 <= i < |events| ==> Legal(events[i])
    ensures var r := Run(World(env, seq(|holders|, i requires 0 <= i < |holders| => Entry(holders[i], Fresh))),
                         reserved, events);
            && (forall i :: 0 <= i < |r.entries| && r.entries[i].holder.held.Some? ==>
                  CrashMonitor.RequiresAsyncSafety(r.entries[i].holder.requirements))
            && (forall t :: t in reserved ==> Get(r.env.counts, t) == Get(env.counts, t))
            && ((forall i :: 0 <= i < |r.entries| ==> !r.entries[i].phase.Handling?) ==>
                  && (forall t :: Get(r.env.counts, t) == Get(env.counts, t))
                  && r.env.acquired == r.env.released)
  {
    hide Run;
    var w := World(env, seq(|holders|, i requires 0 <= i < |holders| => Entry(holders[i], Fresh)));
    forall t
      ensures Owed(w.entries, reserved, t) == 0 && Lists(w.entries) == 0
    {
      NothingOwed(w.entries, reserved, t);
    }
    NothingOwed(w.entries, reserved, 0);
    RunKeepsBalance(env.counts, w, reserved, events);
    var r := Run(w, reserved, events);
    assert forall i :: 0 <= i < |r.entries| ==> EntryOk(r.entries[i]);
    forall t | t in reserved
      ensures Owed(r.entries, reserved, t) == 0
    {
      ReservedOwesNothing(r.entries, reserved, t);
    }
    if forall i :: 0 <= i < |r.entries| ==> !r.entries[i].phase.Handling? {
      forall t
        ensures Owed(r.entries, reserved, t) == 0 && Lists(r.entries) == 0
      {
        NothingOwed(r.entries, reserved, t);
      }
      NothingOwed(r.entries, reserved, 0);
    }
  }

  // ---------------------------------------------------------------- the functions

  class Threads {
    const reservedThreads: array<Thread>
    var reservedThreadsCount: nat
    var suspendCounts: Counts
    var listsAcquired: nat
    var listsReleased: nat

    ghost predicate Valid()
      reads this
    {
      reservedThreads.Length == RESERVED_MAX && reservedThreadsCount <= RESERVED_MAX
    }

    ghost function Kernel(): Env
      reads this
    {
      Env(suspendCounts, listsAcquired, listsReleased)
    }

    ghost function Reserved(): seq<Thread>
      reads this, reservedThreads
      requires Valid()
    {
      reservedThreads[..reservedThreadsCount]
    }

    constructor ()
      ensures Valid() && Reserved() == [] && Kernel() == Env(map[], 0, 0) && fresh(reservedThreads)
    {
      reservedThreads := new Thread[RESERVED_MAX](_ => 0);
      reservedThreadsCount, suspendCounts, listsAcquired, listsReleased := 0, map[], 0, 0;
    }

    /** ksmc_addReservedThread: the eleventh thread and later ones are ignored. */
    method AddReservedThread(thread: Thread)
      requires Valid()
      modifies this`reservedThreadsCount, reservedThreads
      ensures Valid()
      ensures Reserved() == if |old(Reserved())| < RESERVED_MAX then old(Reserved()) + [thread] else old(Reserved())
    {
      if reservedThreadsCount > RESERVED_MAX - 1 {
        return;
      }
      reservedThreads[reservedThreadsCount] := thread;
      reservedThreadsCount := reservedThreadsCount + 1;
    }

    method IsReserved(thread: Thread) returns (found: bool)
      requires Valid()
      ensures found == (thread in Reserved())
    {
      var i := 0;
      while i < reservedThreadsCount
        invariant 0 <= i <= reservedThreadsCount && thread !in reservedThreads[..i]
      {
        if reservedThreads[i] == thread {
          return true;
        }
        i := i + 1;
      }
      return false;
    }

    /** The loops over the thread list: thread_suspend or thread_resume. */
    method ForEachThread(list: seq<Thread>, self: Thread, delta: int)
      requires Valid()
      modifies this`suspendCounts
      ensures suspendCounts == Applied(old(suspendCounts), list, self, Reserved(), delta)
    {
      var i := 0;
      while i < |list|
        invariant 0 <= i <= |list|
        invariant suspendCounts == Applied(old(suspendCounts), list[..i], self, Reserved(), delta)
      {
        var thread := list[i];
        assert list[..i + 1][..i] == list[..i];
        if thread != self {
          var reserved := IsReserved(thread);
          if !reserved {
            var count := if thread in suspendCounts then suspendCounts[thread] else 0;
            suspendCounts := suspendCounts[thread := count + delta];
          }
        }
        i := i + 1;
      }
      assert list[..i] == list;
    }

    method SuspendEnvironment(h: Holder, tasks: Option<seq<Thread>>) returns (r: Holder)
      requires Valid()
      modifies this`suspendCounts, this`listsAcquired
      ensures Both(Kernel(), r) == Suspend(old(Kernel()), h, Reserved(), tasks)
    {
      if h.held.Some? {
        return h;
      }
      if tasks.None? {
        return h.(held := None);
      }
      listsAcquired := listsAcquired + 1;
      ForEachThread(tasks.value, h.self, 1);
      return h.(held := tasks);
    }

    method ResumeEnvironment(h: Holder) returns (r: Holder)
      requires Valid()
      modifies this`suspendCounts, this`listsReleased
      ensures Both(Kernel(), r) == Resume(old(Kernel()), h, Reserved())
    {
      if h.held.Some? && |h.held.value| > 0 {
        ForEachThread(h.held.value, h.self, -1);
        listsReleased := listsReleased + 1;
      }
      return h.(held := None);
    }

    /** The end of notifyException. */
    method NotifySuspension(h: Holder, tasks: Option<seq<Thread>>) returns (r: Holder)
      requires Valid()
      modifies this`suspendCounts, this`listsAcquired
      ensures Both(Kernel(), r) == NotifySuspends(old(Kernel()), h, Reserved(), tasks)
    {
      r := h;
      if h.requirements.recordAllThreads {
        r := SuspendEnvironment(h.(held := None), tasks);
        if r.held.Some? && |r.held.value| > 0 {
          r := r.(requirements := r.requirements.(becauseSuspended := true));
        }
      }
    }

    /** The early resume in kfcrashreport_writeStandardReport. */
    method EarlyResume(h: Holder) returns (r: Holder)
      requires Valid()
      modifies this`suspendCounts, this`listsReleased
      ensures Both(Kernel(), r) == ReportResumes(old(Kernel()), h, Reserved())
    {
      r := h;
      if h.held.Some? && |h.held.value| > 0 {
        r := r.(requirements := r.requirements.(becauseSuspended := false));
        if !CrashMonitor.RequiresAsyncSafety(r.requirements) {
          r := ResumeEnvironment(r);
        }
      }
    }
  }
}
