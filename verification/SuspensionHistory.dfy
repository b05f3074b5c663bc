/** Which threads are suspended how often, read off the history of the handlers' steps. */
module SuspensionHistory {
  import CrashMonitor
  import JsonText
  import opened MachineContext

  /** The threads a handler keeps suspended after a history of steps: those listed when its
      exception was notified, if its monitor asked for all threads to be recorded, up to its
      end, or to its report if its monitor does not itself ask for async safety. */
  function KeptSuspended(h: Holder, i: nat, events: seq<Event>): seq<Thread> {
    if events == [] then []
    else
      var before := events[..|events| - 1];
      match events[|events| - 1]
      case Notify(j, tasks) =>
        if j == i && tasks.Some? && h.requirements.recordAllThreads && !Notified(i, before) then tasks.value
        else KeptSuspended(h, i, before)
      case Report(j) => if j == i && !h.requirements.asyncSafety then [] else KeptSuspended(h, i, before)
      case Handle(j) => if j == i then [] else KeptSuspended(h, i, before)
  }

  predicate Notified(i: nat, events: seq<Event>) {
    exists n :: 0 <= n < |events| && events[n].Notify? && events[n].i == i
  }

  /** How often a list of threads suspends one of them: never the handler's own thread and
      never a reserved one. */
  function Times(list: seq<Thread>, self: Thread, reserved: seq<Thread>, t: Thread): nat {
    if t == self || t in reserved then 0 else multiset(list)[t]
  }

  /** All handlers together. */
  function TimesSuspended(holders: seq<Holder>, reserved: seq<Thread>, events: seq<Event>, t: Thread): nat {
    if holders == [] then 0
    else
      var n := |holders| - 1;
      TimesSuspended(holders[..n], reserved, events, t)
      + Times(KeptSuspended(holders[n], n, events), holders[n].self, reserved, t)
  }

  function Started(env: Env, holders: seq<Holder>): World {
    World(env, seq(|holders|, i requires 0 <= i < |holders| => Entry(holders[i], Fresh)))
  }

  /** An entry is where its handler's history puts it. */
  ghost predicate Tracks(h: Holder, i: nat, events: seq<Event>, e: Entry) {
    && e.holder.self == h.self
    && e.holder.requirements.recordAllThreads == h.requirements.recordAllThreads
    && e.holder.requirements.asyncSafety == h.requirements.asyncSafety
    && (e.phase.Fresh? <==> !Notified(i, events))
    && (e.holder.held.Some? ==> e.phase.Handling? && e.holder.held.value != [])
    && (if e.holder.held.Some? then e.holder.held.value else []) == KeptSuspended(h, i, events)
    && (e.phase.Fresh? ==> e.holder.requirements == h.requirements)
    && (e.phase.Handling? && !h.requirements.becauseSuspended ==> SafetyIsNeeded(h, i, events, e))
  }

  /** A handler under way requires async safety exactly if its monitor asked for it or it
      keeps threads suspended. */
  predicate SafetyIsNeeded(h: Holder, i: nat, events: seq<Event>, e: Entry) {
    CrashMonitor.RequiresAsyncSafety(e.holder.requirements) <==>
    h.requirements.asyncSafety || KeptSuspended(h, i, events) != []
  }

  ghost predicate AllTrack(holders: seq<Holder>, events: seq<Event>, w: World) {
    |w.entries| == |holders| && forall i :: 0 <= i < |holders| ==> Tracks(holders[i], i, events, w.entries[i])
  }

  lemma NotifiedMore(i: nat, events: seq<Event>, ev: Event)
    ensures Notified(i, events + [ev]) <==> Notified(i, events) || (ev.Notify? && ev.i == i)
  {
    var all := events + [ev];
    assert all[|events|] == ev;
    assert forall n :: 0 <= n < |events| ==> all[n] == events[n];
  }

  lemma NothingKept(h: Holder, i: nat, events: seq<Event>)
    requires !Notified(i, events)
    ensures KeptSuspended(h, i, events) == []
    decreases |events|
  {
    if events != [] {
      var before := events[..|events| - 1];
      assert events == before + [events[|events| - 1]];
      NotifiedMore(i, before, events[|events| - 1]);
      NothingKept(h, i, before);
    }
  }

  /** A step of another handler. */
  lemma OtherTracks(h: Holder, i: nat, events: seq<Event>, ev: Event, e: Entry)
    requires Tracks(h, i, events, e) && ev.i != i
    ensures Tracks(h, i, events + [ev], e)
  {
    assert (events + [ev])[..|events|] == events;
    NotifiedMore(i, events, ev);
  }

  lemma OwnTracks(h: Holder, events: seq<Event>, w: World, reserved: seq<Thread>, ev: Event)
    requires ev.i < |w.entries| && Tracks(h, ev.i, events, w.entries[ev.i]) && Legal(ev)
    ensures Tracks(h, ev.i, events + [ev], Step(w, reserved, ev).entries[ev.i])
  {
    hide Applied, Notified;
    var i := ev.i;
    assert (events + [ev])[..|events|] == events;
    NotifiedMore(i, events, ev);
    if !Notified(i, events) {
      NothingKept(h, i, events);
    }
  }

  lemma OthersStay(w: World, reserved: seq<Thread>, ev: Event, i: nat)
    requires i < |w.entries| && i != ev.i
    ensures Step(w, reserved, ev).entries[i] == w.entries[i]
  {
    hide NotifySuspends, ReportResumes, Resume;
  }

  lemma StepTracks(holders: seq<Holder>, events: seq<Event>, w: World, reserved: seq<Thread>, ev: Event)
    requires AllTrack(holders, events, w) && Legal(ev)
    ensures AllTrack(holders, events + [ev], Step(w, reserved, ev))
  {
    hide Tracks, Step;
    forall i | 0 <= i < |holders|
      ensures Tracks(holders[i], i, events + [ev], Step(w, reserved, ev).entries[i])
    {
      if i == ev.i {
        OwnTracks(holders[i], events, w, reserved, ev);
      } else {
        OthersStay(w, reserved, ev, i);
        OtherTracks(holders[i], i, events, ev, w.entries[i]);
      }
    }
  }

  lemma {:induction false} RunTracks(holders: seq<Holder>, before: seq<Event>, w: World, reserved: seq<Thread>,
                                     events: seq<Event>)
    requires AllTrack(holders, before, w) && forall i :: 0 <= i < |events| ==> Legal(events[i])
    ensures AllTrack(holders, before + events, Run(w, reserved, events))
    decreases |events|
  {
    hide AllTrack, Step;
    if events == [] {
      assert before + events == before;
    } else {
      StepTracks(holders, before, w, reserved, events[0]);
      RunTracks(holders, before + [events[0]], Step(w, reserved, events[0]), reserved, events[1..]);
      assert before + [events[0]] + events[1..] == before + events;
    }
  }

  lemma {:induction false} OwedIsKept(holders: seq<Holder>, reserved: seq<Thread>, events: seq<Event>,
                                      entries: seq<Entry>, t: Thread)
    requires |entries| == |holders|
    requires forall i :: 0 <= i < |holders| ==> Tracks(holders[i], i, events, entries[i])
    ensures Owed(entries, reserved, t) == TimesSuspended(holders, reserved, events, t)
    decreases |holders|
  {
    hide KeptSuspended;
    if holders != [] {
      var n := |holders| - 1;
      OwedIsKept(holders[..n], reserved, events, entries[..n], t);
      assert Tracks(holders[n], n, events, entries[n]);
    }
  }

  lemma StartTracks(env: Env, holders: seq<Holder>)
    requires forall i :: 0 <= i < |holders| ==> holders[i].held.None?
    ensures AllTrack(holders, [], Started(env, holders))
  {
  }

  lemma StartBalanced(env: Env, holders: seq<Holder>, reserved: seq<Thread>)
    requires env.acquired == env.released && forall i :: 0 <= i < |holders| ==> holders[i].held.None?
    ensures Balanced(env.counts, Started(env, holders), reserved)
  {
    var w := Started(env, holders);
    forall t
      ensures Owed(w.entries, reserved, t) == 0 && Lists(w.entries) == 0
    {
      NothingOwed(w.entries, reserved, t);
    }
    NothingOwed(w.entries, reserved, 0);
  }

  /** At every point of every run, each thread is suspended exactly as often as at the start
      and, for every handler under way, as often as the list taken when its exception was
      notified names it: if its monitor asked for all threads to be recorded, until it
      ends, or until its report is written if async safety was needed for nothing else.
      Meanwhile a handler requires async safety exactly for these two reasons. */
  lemma SuspendedExactly(env: Env, holders: seq<Holder>, reserved: seq<Thread>, events: seq<Event>, t: Thread)
    requires env.acquired == env.released
    requires forall i :: 0 <= i < |holders| ==> holders[i].held.None?
    requires forall i :: 0 <= i < |events| ==> Legal(events[i])
    ensures Get(Run(Started(env, holders), reserved, events).env.counts, t) ==
            Get(env.counts, t) + TimesSuspended(holders, reserved, events, t)
    ensures var r := Run(Started(env, holders), reserved, events);
            && |r.entries| == |holders|
            && forall i :: 0 <= i < |holders| && r.entries[i].phase.Handling?
                           && !holders[i].requirements.becauseSuspended ==>
                 SafetyIsNeeded(holders[i], i, events, r.entries[i])
  {
    hide Run, AllTrack, TimesSuspended, Owed, Started;
    var w := Started(env, holders);
    StartBalanced(env, holders, reserved);
    StartTracks(env, holders);
    RunKeepsBalance(env.counts, w, reserved, events);
    RunTracks(holders, [], w, reserved, events);
    assert [] + events == events;
    var r := Run(w, reserved, events);
    AllOwed(holders, reserved, events, r, t);
  }

  lemma AllOwed(holders: seq<Holder>, reserved: seq<Thread>, events: seq<Event>, w: World, t: Thread)
    requires AllTrack(holders, events, w)
    ensures Owed(w.entries, reserved, t) == TimesSuspended(holders, reserved, events, t)
    ensures |w.entries| == |holders|
    ensures forall i :: 0 <= i < |holders| && w.entries[i].phase.Handling?
                        && !holders[i].requirements.becauseSuspended ==>
              SafetyIsNeeded(holders[i], i, events, w.entries[i])
  {
    hide SafetyIsNeeded, KeptSuspended, Notified;
    OwedIsKept(holders, reserved, events, w.entries, t);
  }

  /** A single crash: while its report is being written every other thread that was running
      and is not reserved is suspended once, if all threads are to be recorded; none is
      otherwise.  Once the threads are recorded they run again, unless the monitor asked
      for async safety itself; in the end they do in any case. */
  lemma OneCrash(env: Env, h: Holder, reserved: seq<Thread>, tasks: seq<Thread>, t: Thread)
    requires env.acquired == env.released && h.held.None? && tasks != []
    requires t in tasks && t != h.self && t !in reserved && multiset(tasks)[t] == 1
    ensures var start := Started(env, [h]);
            var notified := [Notify(0, JsonText.Some(tasks))];
            var reported := notified + [Report(0)];
            var handled := reported + [Handle(0)];
            && Get(Run(start, reserved, notified).env.counts, t) ==
               Get(env.counts, t) + (if h.requirements.recordAllThreads then 1 else 0)
            && Get(Run(start, reserved, reported).env.counts, t) ==
               Get(env.counts, t)
               + (if h.requirements.recordAllThreads && h.requirements.asyncSafety then 1 else 0)
            && Get(Run(start, reserved, handled).env.counts, t) == Get(env.counts, t)
  {
    hide Run, Started;
    var notified := [Notify(0, JsonText.Some(tasks))];
    var reported := notified + [Report(0)];
    var handled := reported + [Handle(0)];
    SuspendedExactly(env, [h], reserved, notified, t);
    SuspendedExactly(env, [h], reserved, reported, t);
    SuspendedExactly(env, [h], reserved, handled, t);
    assert notified[..0] == [] && reported[..1] == notified && handled[..2] == reported;
    assert !Notified(0, []);
    OneTimes(h, reserved, notified, t);
    OneTimes(h, reserved, reported, t);
    OneTimes(h, reserved, handled, t);
  }

  lemma OneTimes(h: Holder, reserved: seq<Thread>, events: seq<Event>, t: Thread)
    ensures TimesSuspended([h], reserved, events, t) == Times(KeptSuspended(h, 0, events), h.self, reserved, t)
  {
    assert [h][..0] == [];
  }
}
