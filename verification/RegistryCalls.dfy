/** Single calls of the monitor list, operation by operation: what an undisturbed call does
    to the slots, and what its answer means when other threads interfere. */
module RegistryCalls {
  import opened MonitorRegistry

  // ----------------------------------------------------------- undisturbed calls

  /** Operations of one thread only. */
  function Alone(s: State, t: nat, n: nat): (r: State)
    requires Valid(s)
    ensures Valid(r)
    decreases n
  {
    if n == 0 then s else Alone(Step(s, Tick(t)), t, n - 1)
  }

  function OwnTicks(t: nat, n: nat): seq<Move> {
    seq(n, _ => Tick(t))
  }

  lemma {:induction false} AloneRuns(s: State, t: nat, n: nat)
    requires Valid(s)
    ensures Run(s, OwnTicks(t, n)) == Alone(s, t, n)
    decreases n
  {
    hide Step;
    if n > 0 {
      assert OwnTicks(t, n)[1..] == OwnTicks(t, n - 1);
      AloneRuns(Step(s, Tick(t)), t, n - 1);
    }
  }

  lemma {:induction false} IdleStays(s: State, t: nat, n: nat)
    requires Valid(s) && t < |s.threads| && s.threads[t].Idle?
    ensures Alone(s, t, n) == s
    decreases n
  {
    if n > 0 {
      assert s.threads[t := Idle] == s.threads && s.log + [] == s.log;
      IdleStays(s, t, n - 1);
    }
  }

  /** The state with other slots, this thread idle, and one more answer. */
  function Returned(s: State, slots: seq<Slot>, t: nat, api: Api, answer: Answer): State
    requires t < |s.threads|
  {
    State(slots, s.threads[t := Idle], s.log + [Return(api, answer)])
  }

  lemma OneTick(s: State, t: nat, n: nat)
    requires Valid(s) && t < |s.threads| && n > 0
    ensures var e := Act(s.slots, s.threads[t]);
            var s1 := State(e.slots, s.threads[t := e.pc], s.log + e.log);
            Valid(s1) && Alone(s, t, n) == Alone(s1, t, n - 1)
  {
    assert Valid(Step(s, Tick(t)));
  }

  lemma LastTick(s: State, t: nat, n: nat, answer: Answer)
    requires Valid(s) && t < |s.threads| && n > 0 && !s.threads[t].Idle?
    requires var e := Act(s.slots, s.threads[t]); e.pc.Idle? && e.log == [Return(s.threads[t].api, answer)]
    ensures Alone(s, t, n) == Returned(s, Act(s.slots, s.threads[t]).slots, t, s.threads[t].api, answer)
  {
    hide Act;
    OneTick(s, t, n);
    var e := Act(s.slots, s.threads[t]);
    IdleStays(State(e.slots, s.threads[t := e.pc], s.log + e.log), t, n - 1);
  }

  /** A tick that only moves the thread on. */
  lemma QuietTick(s: State, t: nat, n: nat, slots: seq<Slot>, pc: Pc)
    requires Valid(s) && t < |s.threads| && n > 0 && Act(s.slots, s.threads[t]) == Effect(slots, pc, [])
    ensures var s1 := State(slots, s.threads[t := pc], s.log);
            && Valid(s1) && Alone(s, t, n) == Alone(s1, t, n - 1)
            && forall after, api, answer :: Returned(s1, after, t, api, answer) == Returned(s, after, t, api, answer)
  {
    hide Act;
    OneTick(s, t, n);
    assert s.log + [] == s.log;
    assert s.threads[t := pc][t := Idle] == s.threads[t := Idle];
  }

  lemma MarkScanned(was: seq<Slot>, x: Api, h: nat, j: nat, slots: seq<Slot>)
    requires |was| == COUNT && Takes(was, x, h) && ScannedUpTo(was, x, h, j, slots) && j < COUNT
    ensures slots[j] == Holds(x) <==> j == h || was[j] == Holds(x)
    ensures slots[j] != Holds(x) || j == h ==> ScannedUpTo(was, x, h, j + 1, slots)
    ensures slots[j] == Holds(x) && j != h ==> h < j && ScannedUpTo(was, x, h, j + 1, slots[j := Hole])
  {
    if Takes(was, x, j) {
      OneTakes(was, x, j, h);
    }
  }

  /** Behind the slot taken, the duplicates up to j are gone. */
  predicate ScannedUpTo(was: seq<Slot>, x: Api, h: nat, j: nat, slots: seq<Slot>)
    requires |was| == COUNT && h < COUNT && was[h] == Hole
  {
    && j <= COUNT && |slots| == COUNT
    && (forall k :: 0 <= k < j ==> slots[k] == AfterAdd(was, x)[k])
    && (forall k :: j <= k < COUNT ==> slots[k] == if k == h then Holds(x) else was[k])
  }

  lemma ScannedAll(was: seq<Slot>, x: Api, h: nat, slots: seq<Slot>)
    requires |was| == COUNT && Takes(was, x, h) && ScannedUpTo(was, x, h, COUNT, slots)
    ensures slots == AfterAdd(was, x)
  {
  }

  /** The clean-up of an addition, from slot j on. */
  lemma {:induction false} DuplicatesGo(s: State, t: nat, x: Api, j: nat, first: int, was: seq<Slot>, h: nat, n: nat)
    requires Valid(s) && t < |s.threads| && s.threads[t] == DupLoad(x, j, first) && n >= Work(s.threads[t])
    requires |was| == COUNT && Takes(was, x, h) && ScannedUpTo(was, x, h, j, s.slots) && (first >= 0 <==> h < j)
    ensures Alone(s, t, n) == Returned(s, AfterAdd(was, x), t, x, Added)
    decreases COUNT - j
  {
    hide AfterAdd, Takes, ScannedUpTo, Alone;
    assert j < COUNT && |s.slots| == COUNT by { assert PcValid(s.threads[t]); }
    MarkScanned(was, x, h, j, s.slots);
    if s.slots[j] == Holds(x) && first >= 0 {
      QuietTick(s, t, n, s.slots, DupCas(x, j, first));
      var s1 := State(s.slots, s.threads[t := DupCas(x, j, first)], s.log);
      assert j != h;
      DuplicateGoes(s1, t, x, j, first, was, h, n - 1);
    } else {
      var next := if s.slots[j] == Holds(x) then j else first;
      if s.slots[j] == Holds(x) {
        FirstCopyTaken(was, x, h, j, s.slots);
      }
      if j + 1 < COUNT {
        QuietTick(s, t, n, s.slots, DupLoad(x, j + 1, next));
        DuplicatesGo(State(s.slots, s.threads[t := DupLoad(x, j + 1, next)], s.log), t, x, j + 1, next, was, h, n - 1);
      } else {
        LastTick(s, t, n, Added);
        ScannedAll(was, x, h, s.slots);
      }
    }
  }

  lemma FirstCopyTaken(was: seq<Slot>, x: Api, h: nat, j: nat, slots: seq<Slot>)
    requires |was| == COUNT && Takes(was, x, h) && ScannedUpTo(was, x, h, j, slots) && j < COUNT
    requires slots[j] == Holds(x) && h >= j
    ensures j == h
  {
  }

  lemma {:induction false} DuplicateGoes(s: State, t: nat, x: Api, j: nat, first: int, was: seq<Slot>, h: nat, n: nat)
    requires Valid(s) && t < |s.threads| && s.threads[t] == DupCas(x, j, first) && n >= Work(s.threads[t])
    requires |was| == COUNT && Takes(was, x, h) && first >= 0 && h < j
    requires j < COUNT && s.slots[j] == Holds(x) && ScannedUpTo(was, x, h, j + 1, s.slots[j := Hole])
    ensures Alone(s, t, n) == Returned(s, AfterAdd(was, x), t, x, Added)
    decreases COUNT - j, 0
  {
    hide AfterAdd, Takes, ScannedUpTo, Alone;
    var slots := s.slots[j := Hole];
    if j + 1 < COUNT {
      QuietTick(s, t, n, slots, DupLoad(x, j + 1, first));
      DuplicatesGo(State(slots, s.threads[t := DupLoad(x, j + 1, first)], s.log), t, x, j + 1, first, was, h, n - 1);
    } else {
      LastTick(s, t, n, Added);
      ScannedAll(was, x, h, slots);
    }
  }

  /** What an undisturbed addition answers. */
  function AddAnswer(slots: seq<Slot>, x: Api): Answer {
    if CanAdd(slots, x) then Added else if Present(slots, x) then AlreadyThere else Full
  }

  lemma {:induction false} AdditionGoesOn(s: State, t: nat, x: Api, i: nat, n: nat)
    requires Valid(s) && t < |s.threads| && s.threads[t] == AddLoad(x, i) && n >= Work(s.threads[t])
    requires forall k :: 0 <= k < i ==> s.slots[k] != Hole && s.slots[k] != Holds(x)
    ensures Alone(s, t, n) == Returned(s, AfterAdd(s.slots, x), t, x, AddAnswer(s.slots, x))
    decreases COUNT - i
  {
    hide Alone, Returned;
    assert i < COUNT by { assert PcValid(s.threads[t]); }
    if s.slots[i] == Holds(x) {
      MonitorList.NoHoleBefore(s.slots, x, i);
      LastTick(s, t, n, AlreadyThere);
    } else {
      QuietTick(s, t, n, s.slots, AddCas(x, i));
      var s1 := State(s.slots, s.threads[t := AddCas(x, i)], s.log);
      if s.slots[i] == Hole {
        assert Takes(s.slots, x, i);
        var slots := s.slots[i := Holds(x)];
        QuietTick(s1, t, n - 1, slots, DupLoad(x, 0, -1));
        DuplicatesGo(State(slots, s1.threads[t := DupLoad(x, 0, -1)], s.log), t, x, 0, -1, s.slots, i, n - 2);
      } else if i + 1 < COUNT {
        QuietTick(s1, t, n - 1, s.slots, AddLoad(x, i + 1));
        AdditionGoesOn(State(s.slots, s1.threads[t := AddLoad(x, i + 1)], s.log), t, x, i + 1, n - 2);
      } else {
        assert !CanAdd(s.slots, x) && !Present(s.slots, x);
        LastTick(s1, t, n - 1, Full);
        assert Returned(s1, s.slots, t, x, Full) == Returned(s, s.slots, t, x, Full);
      }
    }
  }

  lemma {:induction false} RemovalGoesOn(s: State, t: nat, x: Api, i: nat, was: seq<Slot>, n: nat)
    requires Valid(s) && t < |s.threads| && s.threads[t] == RemCas(x, i) && n >= Work(s.threads[t])
    requires |was| == COUNT
    requires forall k :: 0 <= k < COUNT ==> s.slots[k] == (if k < i then AfterRemove(was, x) else was)[k]
    ensures Alone(s, t, n) == Returned(s, AfterRemove(was, x), t, x, Removed)
    decreases COUNT - i
  {
    hide Alone;
    assert i < COUNT by { assert PcValid(s.threads[t]); }
    var slots := if s.slots[i] == Holds(x) then s.slots[i := Hole] else s.slots;
    assert forall k :: 0 <= k < COUNT ==> slots[k] == (if k < i + 1 then AfterRemove(was, x) else was)[k];
    if i + 1 < COUNT {
      QuietTick(s, t, n, slots, RemCas(x, i + 1));
      RemovalGoesOn(State(slots, s.threads[t := RemCas(x, i + 1)], s.log), t, x, i + 1, was, n - 1);
    } else {
      LastTick(s, t, n, Removed);
      assert slots == AfterRemove(was, x);
    }
  }

  /** An undisturbed call, made operation by operation, leaves the slots that the list
      without interference has behind it, answers once, and changes nothing else: an
      addition says whether it added, and if not, whether the monitor was there. */
  lemma CallAlone(s: State, t: nat, x: Api, n: nat)
    requires Valid(s) && t < |s.threads| && s.threads[t].Idle? && n >= 4 * COUNT
    ensures Run(s, [CallAdd(t, x)] + OwnTicks(t, n)) ==
            State(AfterAdd(s.slots, x), s.threads, s.log + [Return(x, AddAnswer(s.slots, x))])
    ensures Run(s, [CallRemove(t, x)] + OwnTicks(t, n)) ==
            State(AfterRemove(s.slots, x), s.threads, s.log + [Return(x, Removed)])
  {
    hide Run, Alone, AfterAdd, AfterRemove, AddAnswer;
    assert s.threads[t := Idle] == s.threads;
    CallThenTicks(s, CallAdd(t, x), t, n);
    var adding := s.(threads := s.threads[t := AddLoad(x, 0)]);
    AdditionGoesOn(adding, t, x, 0, n);
    assert adding.threads[t := Idle] == s.threads[t := Idle];
    CallThenTicks(s, CallRemove(t, x), t, n);
    var removing := s.(threads := s.threads[t := RemCas(x, 0)]);
    RemovalGoesOn(removing, t, x, 0, s.slots, n);
    assert removing.threads[t := Idle] == s.threads[t := Idle];
  }

  lemma CallThenTicks(s: State, call: Move, t: nat, n: nat)
    requires Valid(s)
    ensures Run(s, [call] + OwnTicks(t, n)) == Alone(Step(s, call), t, n)
  {
    hide Step;
    var schedule := [call] + OwnTicks(t, n);
    assert schedule[0] == call && schedule[1..] == OwnTicks(t, n);
    AloneRuns(Step(s, call), t, n);
  }

  // --------------------------------------------------- what an answer means to others

  /** The state when n moves of a schedule have been made. */
  ghost function At(s: State, schedule: seq<Move>, n: nat): (r: State)
    requires Valid(s) && n <= |schedule|
    ensures Valid(r) && |r.threads| == |s.threads|
  {
    Run(s, schedule[..n])
  }

  lemma {:induction false} RunConcat(s: State, a: seq<Move>, b: seq<Move>)
    requires Valid(s)
    ensures Run(s, a + b) == Run(Run(s, a), b)
    decreases |a|
  {
    hide Step;
    if a == [] {
      assert a + b == b;
    } else {
      assert (a + b)[0] == a[0] && (a + b)[1..] == a[1..] + b;
      RunConcat(Step(s, a[0]), a[1..], b);
    }
  }

  lemma NextState(s: State, schedule: seq<Move>, n: nat)
    requires Valid(s) && n < |schedule|
    ensures At(s, schedule, n + 1) == Step(At(s, schedule, n), schedule[n])
  {
    hide Step;
    assert schedule[..n + 1] == schedule[..n] + [schedule[n]];
    RunConcat(s, schedule[..n], [schedule[n]]);
    var r := Run(s, schedule[..n]);
    assert [schedule[n]][1..] == [];
    assert Run(r, [schedule[n]]) == Run(Step(r, schedule[n]), []);
  }

  /** Before move n, slot i was found without x and then, later, found occupied. */
  ghost predicate Passed(s: State, schedule: seq<Move>, n: nat, x: Api, i: nat)
    requires Valid(s) && n <= |schedule| && i < COUNT
  {
    exists l, m :: 0 <= l < m < n && At(s, schedule, l).slots[i] != Holds(x) && At(s, schedule, m).slots[i] != Hole
  }

  ghost predicate FoundWithout(s: State, schedule: seq<Move>, n: nat, x: Api, i: nat)
    requires Valid(s) && n <= |schedule| && i < COUNT
  {
    exists l :: 0 <= l < n && At(s, schedule, l).slots[i] != Holds(x)
  }

  /** Thread t turned a hole into x. */
  ghost predicate Took(s: State, schedule: seq<Move>, n: nat, t: nat, x: Api)
    requires Valid(s) && n <= |schedule|
  {
    exists m, i :: 0 <= m < n && 0 <= i < COUNT && schedule[m] == Tick(t)
                   && At(s, schedule, m).slots[i] == Hole
                   && At(s, schedule, m + 1).slots == At(s, schedule, m).slots[i := Holds(x)]
  }

  /** Thread t tried slot i and left it without x. */
  ghost predicate Cleared(s: State, schedule: seq<Move>, n: nat, t: nat, x: Api, i: nat)
    requires Valid(s) && n <= |schedule| && i < COUNT
  {
    exists m :: 0 <= m < n && schedule[m] == Tick(t) && At(s, schedule, m + 1).slots[i] != Holds(x)
  }

  /** How far a call has come, and what it has met. */
  ghost predicate Progress(s: State, schedule: seq<Move>, n: nat, t: nat, x: Api, pc: Pc)
    requires Valid(s) && n <= |schedule| && PcValid(pc)
  {
    match pc
    case Idle => false
    case AddLoad(api, i) => api == x && forall j :: 0 <= j < i ==> Passed(s, schedule, n, x, j)
    case AddCas(api, i) =>
      && api == x && FoundWithout(s, schedule, n, x, i)
      && forall j :: 0 <= j < i ==> Passed(s, schedule, n, x, j)
    case RemCas(api, i) => api == x && forall j :: 0 <= j < i ==> Cleared(s, schedule, n, t, x, j)
    case _ => pc.api == x && Took(s, schedule, n, t, x)
  }

  /** What the answer says about the time of the call. */
  ghost predicate Means(s: State, schedule: seq<Move>, t: nat, x: Api, answer: Answer)
    requires Valid(s) && schedule != []
  {
    match answer
    case Full => forall i :: 0 <= i < COUNT ==> Passed(s, schedule, |schedule|, x, i)
    case AlreadyThere => Present(At(s, schedule, |schedule| - 1).slots, x)
    case Added => Took(s, schedule, |schedule|, t, x)
    case Removed => forall i :: 0 <= i < COUNT ==> Cleared(s, schedule, |schedule|, t, x, i)
  }

  lemma MetOnward(s: State, schedule: seq<Move>, n: nat, t: nat, x: Api)
    requires Valid(s) && n < |schedule|
    ensures Took(s, schedule, n, t, x) ==> Took(s, schedule, n + 1, t, x)
    ensures forall i {:trigger Passed(s, schedule, n + 1, x, i)} ::
              0 <= i < COUNT && Passed(s, schedule, n, x, i) ==> Passed(s, schedule, n + 1, x, i)
    ensures forall i {:trigger FoundWithout(s, schedule, n + 1, x, i)} ::
              0 <= i < COUNT && FoundWithout(s, schedule, n, x, i) ==> FoundWithout(s, schedule, n + 1, x, i)
    ensures forall i {:trigger Cleared(s, schedule, n + 1, t, x, i)} ::
              0 <= i < COUNT && Cleared(s, schedule, n, t, x, i) ==> Cleared(s, schedule, n + 1, t, x, i)
  {
  }

  lemma ProgressOnward(s: State, schedule: seq<Move>, n: nat, t: nat, x: Api, pc: Pc)
    requires Valid(s) && n < |schedule| && PcValid(pc) && Progress(s, schedule, n, t, x, pc)
    ensures Progress(s, schedule, n + 1, t, x, pc)
  {
    hide Took, Passed, FoundWithout, Cleared;
    MetOnward(s, schedule, n, t, x);
  }

  lemma OthersMove(s: State, schedule: seq<Move>, n: nat, t: nat)
    requires Valid(s) && n < |schedule| && t < |s.threads| && schedule[n] != Tick(t)
    requires !At(s, schedule, n).threads[t].Idle?
    ensures At(s, schedule, n + 1).threads[t] == At(s, schedule, n).threads[t]
  {
    hide At, Act;
    NextState(s, schedule, n);
  }

  lemma Ticked(s: State, schedule: seq<Move>, n: nat, t: nat)
    requires Valid(s) && n < |schedule| && t < |s.threads| && schedule[n] == Tick(t)
    ensures var r, r1 := At(s, schedule, n), At(s, schedule, n + 1);
            var e := Act(r.slots, r.threads[t]);
            r1.slots == e.slots && r1.threads[t] == e.pc && r1.log == r.log + e.log
  {
    hide At, Act;
    NextState(s, schedule, n);
  }

  /** What the thread's own operation met. */
  lemma TickMeets(s: State, schedule: seq<Move>, n: nat, t: nat, x: Api)
    requires Valid(s) && n < |schedule| && t < |s.threads| && schedule[n] == Tick(t)
    requires var pc := At(s, schedule, n).threads[t]; PcValid(pc) && Progress(s, schedule, n, t, x, pc)
    ensures var pc := At(s, schedule, n).threads[t];
            var slots := At(s, schedule, n).slots;
            && (pc.AddLoad? && slots[pc.i] != Holds(x) ==> FoundWithout(s, schedule, n + 1, x, pc.i))
            && (pc.AddCas? && slots[pc.i] != Hole ==> Passed(s, schedule, n + 1, x, pc.i))
            && (pc.AddCas? && slots[pc.i] == Hole ==> Took(s, schedule, n + 1, t, x))
            && (pc.RemCas? ==> Cleared(s, schedule, n + 1, t, x, pc.i))
  {
    hide At;
    Ticked(s, schedule, n, t);
  }

  lemma TickProgresses(s: State, schedule: seq<Move>, n: nat, t: nat, x: Api)
    requires Valid(s) && n < |schedule| && t < |s.threads| && schedule[n] == Tick(t)
    requires var pc := At(s, schedule, n).threads[t]; PcValid(pc) && Progress(s, schedule, n, t, x, pc)
    ensures var r, r1 := At(s, schedule, n), At(s, schedule, n + 1);
            var e := Act(r.slots, r.threads[t]);
            && r1.threads[t] == e.pc && r1.log == r.log + e.log && PcValid(e.pc)
            && if e.pc.Idle? then |e.log| == 1 && e.log[0].api == x
                                  && (n + 1 == |schedule| ==> Means(s, schedule, t, x, e.log[0].answer))
               else Progress(s, schedule, n + 1, t, x, e.pc) && e.log == []
  {
    hide At, Took, Passed, FoundWithout, Cleared;
    Ticked(s, schedule, n, t);
    TickMeets(s, schedule, n, t, x);
    MetOnward(s, schedule, n, t, x);
    var slots := At(s, schedule, n).slots;
    var pc := At(s, schedule, n).threads[t];
    if pc.AddLoad? && slots[pc.i] == Holds(x) {
      assert Present(slots, x);
    }
  }

  lemma {:induction false} CallProgresses(s: State, schedule: seq<Move>, n: nat, t: nat, x: Api)
    requires Valid(s) && n <= |schedule| && t < |s.threads|
    requires s.threads[t] == AddLoad(x, 0) || s.threads[t] == RemCas(x, 0)
    requires forall m :: 0 <= m <= n ==> !At(s, schedule, m).threads[t].Idle?
    ensures var pc := At(s, schedule, n).threads[t]; PcValid(pc) && Progress(s, schedule, n, t, x, pc)
    decreases n
  {
    hide At, Took, Passed, FoundWithout, Cleared;
    if n == 0 {
      NothingMoved(s, schedule);
    } else {
      CallProgresses(s, schedule, n - 1, t, x);
      if schedule[n - 1] == Tick(t) {
        TickProgresses(s, schedule, n - 1, t, x);
      } else {
        OthersMove(s, schedule, n - 1, t);
        ProgressOnward(s, schedule, n - 1, t, x, At(s, schedule, n - 1).threads[t]);
      }
    }
  }

  lemma NothingMoved(s: State, schedule: seq<Move>)
    requires Valid(s)
    ensures At(s, schedule, 0) == s
  {
    assert schedule[..0] == [];
  }

  /** Whatever other threads do during a call, its answer is the last thing that happens
      and is true of the time of the call.  An addition that says `Full` found every slot
      first without x and later occupied (so that x can only be there if another thread
      added it meanwhile); one that says `AlreadyThere` has just seen x; one that says
      `Added` has turned a hole into x.  A removal has left every slot without x. */
  lemma AnswersAreTrue(s: State, schedule: seq<Move>, t: nat, x: Api) returns (answer: Answer)
    requires Valid(s) && t < |s.threads| && schedule != []
    requires s.threads[t] == AddLoad(x, 0) || s.threads[t] == RemCas(x, 0)
    requires forall n :: 0 <= n < |schedule| ==> !At(s, schedule, n).threads[t].Idle?
    requires Run(s, schedule).threads[t].Idle?
    ensures Run(s, schedule).log == At(s, schedule, |schedule| - 1).log + [Return(x, answer)]
    ensures Means(s, schedule, t, x, answer)
  {
    hide At, Took, Passed, FoundWithout, Cleared, Act;
    var n := |schedule| - 1;
    assert Run(s, schedule) == At(s, schedule, n + 1) by { AllMoved(s, schedule); }
    CallProgresses(s, schedule, n, t, x);
    if schedule[n] != Tick(t) {
      OthersMove(s, schedule, n, t);
      assert false;
    }
    TickProgresses(s, schedule, n, t, x);
    var r := At(s, schedule, n);
    var e := Act(r.slots, r.threads[t]);
    answer := e.log[0].answer;
    assert e.log == [Return(x, answer)];
  }

  lemma AllMoved(s: State, schedule: seq<Move>)
    requires Valid(s)
    ensures At(s, schedule, |schedule|) == Run(s, schedule)
  {
    assert schedule[..|schedule|] == schedule;
  }
}
