/** The lock-free monitor list: additions and removals as interleaved atomic loads and
    compare-and-exchange operations on the slots. */
module MonitorRegistry {
  const COUNT: nat := 100

  type Api = nat

  datatype Slot = Hole | Holds(api: Api)

  /** Where a thread stands.  `first` is the slot in which the duplicate scan met the
      first copy, or -1 while it has met none; the code only keeps whether it did. */
  datatype Pc =
    | Idle
    | AddLoad(api: Api, i: nat)
    | AddCas(api: Api, i: nat)
    | DupLoad(api: Api, i: nat, first: int)
    | DupCas(api: Api, i: nat, first: int)
    | RemCas(api: Api, i: nat)

  datatype Answer = Added | AlreadyThere | Full | Removed

  datatype Return = Return(api: Api, answer: Answer)

  datatype State = State(slots: seq<Slot>, threads: seq<Pc>, log: seq<Return>)

  /** What one atomic operation leaves behind. */
  datatype Effect = Effect(slots: seq<Slot>, pc: Pc, log: seq<Return>)

  ghost predicate PcValid(pc: Pc) {
    && (!pc.Idle? ==> pc.i < COUNT)
    && (pc.DupLoad? ==> -1 <= pc.first < pc.i)
    && (pc.DupCas? ==> 0 <= pc.first < pc.i)
  }

  ghost predicate Valid(s: State) {
    && |s.slots| == COUNT
    && forall t :: 0 <= t < |s.threads| ==> PcValid(s.threads[t])
  }

  function AddNext(slots: seq<Slot>, api: Api, i: nat): Effect {
    if i + 1 < COUNT then Effect(slots, AddLoad(api, i + 1), []) else Effect(slots, Idle, [Return(api, Full)])
  }

  function DupNext(slots: seq<Slot>, api: Api, i: nat, first: int): Effect {
    if i + 1 < COUNT then Effect(slots, DupLoad(api, i + 1, first), []) else Effect(slots, Idle, [Return(api, Added)])
  }

  function RemNext(slots: seq<Slot>, api: Api, i: nat): Effect {
    if i + 1 < COUNT then Effect(slots, RemCas(api, i + 1), []) else Effect(slots, Idle, [Return(api, Removed)])
  }

  /** The next atomic operation of a thread. */
  function Act(slots: seq<Slot>, pc: Pc): (e: Effect)
    requires |slots| == COUNT && PcValid(pc)
    ensures |e.slots| == COUNT && PcValid(e.pc)
  {
    match pc
    case Idle => Effect(slots, Idle, [])
    case AddLoad(api, i) =>
      if slots[i] == Holds(api) then Effect(slots, Idle, [Return(api, AlreadyThere)])
      else Effect(slots, AddCas(api, i), [])
    case AddCas(api, i) =>
      if slots[i] == Hole then Effect(slots[i := Holds(api)], DupLoad(api, 0, -1), [])
      else AddNext(slots, api, i)
    case DupLoad(api, i, first) =>
      if slots[i] != Holds(api) then DupNext(slots, api, i, first)
      else if first < 0 then DupNext(slots, api, i, i)
      else Effect(slots, DupCas(api, i, first), [])
    case DupCas(api, i, first) =>
      DupNext(if slots[i] == Holds(api) then slots[i := Hole] else slots, api, i, first)
    case RemCas(api, i) =>
      RemNext(if slots[i] == Holds(api) then slots[i := Hole] else slots, api, i)
  }

  datatype Move = CallAdd(t: nat, api: Api) | CallRemove(t: nat, api: Api) | Tick(t: nat)

  /** A thread enters a function of the registry or makes its next atomic operation. */
  function Step(s: State, m: Move): (r: State)
    requires Valid(s)
    ensures Valid(r) && |r.threads| == |s.threads| && s.log <= r.log
  {
    if m.t >= |s.threads| then s
    else
      match m
      case CallAdd(t, api) => if s.threads[t].Idle? then s.(threads := s.threads[t := AddLoad(api, 0)]) else s
      case CallRemove(t, api) => if s.threads[t].Idle? then s.(threads := s.threads[t := RemCas(api, 0)]) else s
      case Tick(t) =>
        var e := Act(s.slots, s.threads[t]);
        State(e.slots, s.threads[t := e.pc], s.log + e.log)
  }

  function Run(s: State, schedule: seq<Move>): (r: State)
    requires Valid(s)
    ensures Valid(r) && |r.threads| == |s.threads| && s.log <= r.log
    decreases |schedule|
  {
    if schedule == [] then s else Run(Step(s, schedule[0]), schedule[1..])
  }

  // ------------------------------------------------------ what an addition keeps

  predicate Present(slots: seq<Slot>, x: Api) {
    Holds(x) in slots
  }

  /** Some slot at or below j holds x. */
  ghost predicate HeldUpTo(slots: seq<Slot>, x: Api, j: int) {
    exists k :: 0 <= k <= j && k < |slots| && slots[k] == Holds(x)
  }

  predicate Scanning(pc: Pc, x: Api) {
    (pc.DupLoad? || pc.DupCas?) && pc.api == x
  }

  /** The scan of this thread will meet x at b after having met a copy of x. */
  predicate Covers(pc: Pc, x: Api, a: int, b: int) {
    Scanning(pc, x) && pc.i <= b && (pc.first >= 0 || pc.i <= a)
  }

  ghost predicate Covered(threads: seq<Pc>, x: Api, a: int, b: int) {
    exists t :: 0 <= t < |threads| && Covers(threads[t], x, a, b)
  }

  ghost predicate PcAnchored(slots: seq<Slot>, x: Api, pc: Pc) {
    Scanning(pc, x) ==> Present(slots, x) && (pc.first >= 0 ==> HeldUpTo(slots, x, pc.first))
  }

  /** A copy that a scan passed over still has a copy at or before it. */
  ghost predicate Anchored(s: State, x: Api) {
    forall t :: 0 <= t < |s.threads| ==> PcAnchored(s.slots, x, s.threads[t])
  }

  /** Of any two copies, some scan is still to remove the second. */
  ghost predicate Swept(s: State, x: Api)
    requires Valid(s)
  {
    forall a, b :: 0 <= a < b < COUNT && s.slots[a] == Holds(x) && s.slots[b] == Holds(x) ==>
           Covered(s.threads, x, a, b)
  }

  predicate Removing(pc: Pc, x: Api) {
    pc.RemCas? && pc.api == x
  }

  ghost predicate NoRemoval(s: State, x: Api) {
    forall t :: 0 <= t < |s.threads| ==> !Removing(s.threads[t], x)
  }

  ghost predicate Inv(s: State, x: Api) {
    Valid(s) && NoRemoval(s, x) && Anchored(s, x) && Swept(s, x)
  }

  predicate Adding(pc: Pc, x: Api) {
    (pc.AddLoad? || pc.AddCas? || pc.DupLoad? || pc.DupCas?) && pc.api == x
  }

  /** No call for x is under way and x is stored at most once. */
  ghost predicate Settled(s: State, x: Api) {
    && Valid(s)
    && (forall t :: 0 <= t < |s.threads| ==> !Adding(s.threads[t], x) && !Removing(s.threads[t], x))
    && (forall a, b :: 0 <= a < b < COUNT && s.slots[a] == Holds(x) ==> s.slots[b] != Holds(x))
  }

  predicate Removes(m: Move, x: Api) {
    m.CallRemove? && m.api == x
  }

  /** Some answer in the log says that x is in the list. */
  predicate Served(log: seq<Return>, x: Api) {
    Return(x, Added) in log || Return(x, AlreadyThere) in log
  }

  /** One operation never loses x, keeps every other thread's anchor, and answers
      truthfully. */
  lemma ActKeepsPresent(s: State, t: nat, x: Api)
    requires Inv(s, x) && t < |s.threads|
    ensures var e := Act(s.slots, s.threads[t]);
            && (Present(s.slots, x) ==> Present(e.slots, x))
            && (Served(e.log, x) ==> Present(e.slots, x))
            && PcAnchored(e.slots, x, e.pc)
            && (forall j :: HeldUpTo(s.slots, x, j) ==> HeldUpTo(e.slots, x, j))
  {
    var pc := s.threads[t];
    var e := Act(s.slots, pc);
    assert PcAnchored(s.slots, x, pc) && !Removing(pc, x) && PcValid(pc);
    if pc.AddCas? && s.slots[pc.i] == Hole {
      assert e.slots[pc.i] == Holds(pc.api);
    }
    forall j | HeldUpTo(s.slots, x, j)
      ensures HeldUpTo(e.slots, x, j)
    {
      var k :| 0 <= k <= j && k < |s.slots| && s.slots[k] == Holds(x);
      if e.slots[k] == Holds(x) {
      } else {
        assert pc.DupCas? && pc.api == x && k == pc.i;
        var k' :| 0 <= k' <= pc.first && s.slots[k'] == Holds(x);
        assert e.slots[k'] == Holds(x);
      }
    }
    if Present(s.slots, x) {
      assert HeldUpTo(s.slots, x, COUNT);
      assert HeldUpTo(e.slots, x, COUNT);
    }
  }

  /** What an operation leaves uncovered was uncovered before. */
  lemma ActKeepsCover(s: State, t: nat, x: Api, a: int, b: int)
    requires Inv(s, x) && t < |s.threads| && 0 <= a < b < COUNT
    requires var e := Act(s.slots, s.threads[t]); e.slots[a] == Holds(x) && e.slots[b] == Holds(x)
    ensures Covered(s.threads[t := Act(s.slots, s.threads[t]).pc], x, a, b)
  {
    var pc := s.threads[t];
    var e := Act(s.slots, pc);
    var after := s.threads[t := e.pc];
    assert PcValid(pc);
    if s.slots[a] == Holds(x) && s.slots[b] == Holds(x) {
      assert Covered(s.threads, x, a, b);
      var u :| 0 <= u < |s.threads| && Covers(s.threads[u], x, a, b);
      if u != t {
        assert after[u] == s.threads[u];
      } else {
        assert Covers(after[t], x, a, b);
      }
    } else {
      assert Covers(after[t], x, a, b);
    }
  }

  lemma StepKeepsInv(s: State, m: Move, x: Api)
    requires Inv(s, x) && !Removes(m, x)
    ensures Inv(Step(s, m), x)
    ensures Present(s.slots, x) ==> Present(Step(s, m).slots, x)
    ensures Served(Step(s, m).log[|s.log|..], x) ==> Present(Step(s, m).slots, x)
  {
    hide Act, HeldUpTo, Present;
    var r := Step(s, m);
    if m.t < |s.threads| {
      match m
      case CallAdd(t, api) => if s.threads[t].Idle? { CallKeepsInv(s, t, AddLoad(api, 0), x); }
      case CallRemove(t, api) => if s.threads[t].Idle? { CallKeepsInv(s, t, RemCas(api, 0), x); }
      case Tick(t) =>
        TickKeepsInv(s, t, x);
        assert r.log[|s.log|..] == Act(s.slots, s.threads[t]).log;
    }
  }

  lemma CallKeepsInv(s: State, t: nat, pc: Pc, x: Api)
    requires Inv(s, x) && t < |s.threads| && s.threads[t].Idle? && PcValid(pc)
    requires !Scanning(pc, x) && !Removing(pc, x)
    ensures Inv(s.(threads := s.threads[t := pc]), x)
  {
    hide HeldUpTo;
    var r := s.(threads := s.threads[t := pc]);
    forall a, b | 0 <= a < b < COUNT && r.slots[a] == Holds(x) && r.slots[b] == Holds(x)
      ensures Covered(r.threads, x, a, b)
    {
      assert Covered(s.threads, x, a, b);
      var u :| 0 <= u < |s.threads| && Covers(s.threads[u], x, a, b);
      assert r.threads[u] == s.threads[u];
    }
  }

  lemma TickKeepsInv(s: State, t: nat, x: Api)
    requires Inv(s, x) && t < |s.threads|
    ensures Inv(Step(s, Tick(t)), x)
    ensures Present(s.slots, x) ==> Present(Step(s, Tick(t)).slots, x)
    ensures Served(Act(s.slots, s.threads[t]).log, x) ==> Present(Step(s, Tick(t)).slots, x)
  {
    hide Act, HeldUpTo, Covered;
    var e := Act(s.slots, s.threads[t]);
    var r := Step(s, Tick(t));
    ActKeepsPresent(s, t, x);
    assert !Removing(e.pc, x) by { ActKeepsKind(s, t, x); }
    forall u | 0 <= u < |r.threads|
      ensures PcAnchored(r.slots, x, r.threads[u])
    {
      if u != t {
        assert PcAnchored(s.slots, x, s.threads[u]);
      }
    }
    forall a, b | 0 <= a < b < COUNT && r.slots[a] == Holds(x) && r.slots[b] == Holds(x)
      ensures Covered(r.threads, x, a, b)
    {
      ActKeepsCover(s, t, x, a, b);
    }
  }

  lemma ActKeepsKind(s: State, t: nat, x: Api)
    requires Inv(s, x) && t < |s.threads|
    ensures !Removing(Act(s.slots, s.threads[t]).pc, x)
  {
    assert !Removing(s.threads[t], x);
  }

  lemma SettledInv(s: State, x: Api)
    requires Settled(s, x)
    ensures Inv(s, x)
  {
    forall t | 0 <= t < |s.threads|
      ensures PcAnchored(s.slots, x, s.threads[t])
    {
      assert !Adding(s.threads[t], x);
    }
  }

  lemma ServedSplit(a: seq<Return>, b: seq<Return>, x: Api)
    ensures Served(a + b, x) <==> Served(a, x) || Served(b, x)
  {
  }

  /** Under any schedule without a removal of x: once x is in some slot it is never
      absent again, and no answer claims it to be there when it is not. */
  lemma {:induction false} RunKeepsInv(s: State, schedule: seq<Move>, x: Api)
    requires Inv(s, x) && forall i :: 0 <= i < |schedule| ==> !Removes(schedule[i], x)
    ensures Inv(Run(s, schedule), x)
    ensures Present(s.slots, x) ==> Present(Run(s, schedule).slots, x)
    ensures Served(Run(s, schedule).log[|s.log|..], x) ==> Present(Run(s, schedule).slots, x)
    decreases |schedule|
  {
    hide Inv, Step, Present, Served;
    assert Valid(s) by { InvValid(s, x); }
    if schedule == [] {
      assert s.log[|s.log|..] == [];
      assert !Served([], x) by { NothingServed(x); }
    } else {
      var s1 := Step(s, schedule[0]);
      StepKeepsInv(s, schedule[0], x);
      RunKeepsInv(s1, schedule[1..], x);
      var r := Run(s1, schedule[1..]);
      var grown := s1.log[|s.log|..];
      assert r.log[|s.log|..] == grown + r.log[|s1.log|..];
      ServedSplit(grown, r.log[|s1.log|..], x);
    }
  }

  lemma InvValid(s: State, x: Api)
    requires Inv(s, x)
    ensures Valid(s)
  {
  }

  lemma NothingServed(x: Api)
    ensures !Served([], x)
  {
  }

  /** How often x is stored. */
  function Copies(slots: seq<Slot>, x: Api): nat {
    multiset(slots)[Holds(x)]
  }

  lemma {:induction false} CopiesCounted(slots: seq<Slot>, x: Api)
    ensures Copies(slots, x) > 0 <==> Present(slots, x)
    ensures Copies(slots, x) <= 1 <==>
            forall a, b :: 0 <= a < b < |slots| && slots[a] == Holds(x) ==> slots[b] != Holds(x)
    decreases |slots|
  {
    if slots != [] {
      var n := |slots| - 1;
      var head := slots[..n];
      CopiesCounted(head, x);
      assert slots == head + [slots[n]];
      if slots[n] == Holds(x) && Present(head, x) {
        var a :| 0 <= a < n && head[a] == Holds(x);
        assert slots[a] == Holds(x) && slots[n] == Holds(x);
      }
      if Copies(head, x) > 1 {
        var a, b :| 0 <= a < b < |head| && head[a] == Holds(x) && head[b] == Holds(x);
        assert slots[a] == Holds(x) && slots[b] == Holds(x);
      }
    }
  }

  lemma CoverIsAdding(threads: seq<Pc>, x: Api, a: int, b: int)
    ensures Covered(threads, x, a, b) ==> exists t :: 0 <= t < |threads| && Adding(threads[t], x)
  {
    if Covered(threads, x, a, b) {
      var t :| 0 <= t < |threads| && Covers(threads[t], x, a, b);
      assert Adding(threads[t], x);
    }
  }

  /** Once every addition of x has returned, x is stored at most once; and exactly
      once if it was there before or some addition of x answered that it is there now.
      Other monitors may come and go at any time. */
  lemma OneCopyRemains(s: State, schedule: seq<Move>, x: Api)
    requires Settled(s, x) && forall i :: 0 <= i < |schedule| ==> !Removes(schedule[i], x)
    requires var r := Run(s, schedule); forall t :: 0 <= t < |r.threads| ==> !Adding(r.threads[t], x)
    ensures var r := Run(s, schedule);
            && Copies(r.slots, x) <= 1
            && (Present(s.slots, x) || Served(r.log[|s.log|..], x) ==> Copies(r.slots, x) == 1)
  {
    SettledInv(s, x);
    RunKeepsInv(s, schedule, x);
    var r := Run(s, schedule);
    CopiesCounted(r.slots, x);
    forall a, b | 0 <= a < b < COUNT && r.slots[a] == Holds(x)
      ensures r.slots[b] != Holds(x)
    {
      CoverIsAdding(r.threads, x, a, b);
    }
  }

  // ------------------------------------------------------------- wait-freedom

  /** How many operations a thread makes at most before it returns. */
  function Work(pc: Pc): (w: nat)
    requires PcValid(pc)
    ensures w == 0 <==> pc.Idle?
    ensures w <= 4 * COUNT
  {
    match pc
    case Idle => 0
    case AddLoad(_, i) => 2 * COUNT + 2 * (COUNT - i)
    case AddCas(_, i) => 2 * COUNT + 2 * (COUNT - i) - 1
    case DupLoad(_, i, _) => 2 * (COUNT - i)
    case DupCas(_, i, _) => 2 * (COUNT - i) - 1
    case RemCas(_, i) => COUNT - i
  }

  function Ticks(schedule: seq<Move>, t: nat): nat {
    if schedule == [] then 0 else (if schedule[0] == Tick(t) then 1 else 0) + Ticks(schedule[1..], t)
  }

  /** Whatever the other threads do, a call returns within 4 * COUNT of its thread's own
      operations. */
  lemma {:induction false} CallReturns(s: State, schedule: seq<Move>, t: nat)
    requires Valid(s) && t < |s.threads| && Ticks(schedule, t) >= Work(s.threads[t])
    requires forall i :: 0 <= i < |schedule| ==> !(schedule[i].t == t && !schedule[i].Tick?)
    ensures Run(s, schedule).threads[t].Idle?
    decreases |schedule|
  {
    if schedule == [] {
    } else {
      assert PcValid(s.threads[t]);
      var s1 := Step(s, schedule[0]);
      assert schedule[0].t == t ==> schedule[0].Tick?;
      assert PcValid(s1.threads[t]);
      CallReturns(s1, schedule[1..], t);
    }
  }

  // ------------------------------------------------ the list without interference

  /** The hole an addition of x takes: nothing before it is a hole or a copy of x. */
  predicate Takes(slots: seq<Slot>, x: Api, h: nat) {
    && h < |slots| && slots[h] == Hole
    && forall k :: 0 <= k < h ==> slots[k] != Hole && slots[k] != Holds(x)
  }

  predicate CanAdd(slots: seq<Slot>, x: Api) {
    exists h :: 0 <= h < |slots| && Takes(slots, x, h)
  }

  function AfterRemove(slots: seq<Slot>, x: Api): seq<Slot> {
    seq(|slots|, k requires 0 <= k < |slots| => if slots[k] == Holds(x) then Hole else slots[k])
  }

  /** The list behind a call that met no other thread. */
  function AfterAdd(slots: seq<Slot>, x: Api): seq<Slot> {
    if !CanAdd(slots, x) then slots
    else
      seq(|slots|, k requires 0 <= k < |slots| =>
            if Takes(slots, x, k) then Holds(x) else if slots[k] == Holds(x) then Hole else slots[k])
  }

  lemma OneTakes(slots: seq<Slot>, x: Api, g: nat, h: nat)
    requires Takes(slots, x, g) && Takes(slots, x, h)
    ensures g == h
  {
  }

  /** A call alone: it adds unless x stands before every hole or there is no hole; it
      leaves exactly one copy if it adds and never touches another monitor's slots. */
  lemma AloneOneCopy(slots: seq<Slot>, x: Api)
    ensures CanAdd(slots, x) ==> Copies(AfterAdd(slots, x), x) == 1
    ensures !CanAdd(slots, x) ==> AfterAdd(slots, x) == slots && (Hole in slots ==> Present(slots, x))
    ensures forall k, y :: 0 <= k < |slots| && y != x ==>
              (AfterAdd(slots, x)[k] == Holds(y) <==> slots[k] == Holds(y))
  {
    var after := AfterAdd(slots, x);
    CopiesCounted(after, x);
    if CanAdd(slots, x) {
      var h :| 0 <= h < |slots| && Takes(slots, x, h);
      assert after[h] == Holds(x);
      forall a, b | 0 <= a < b < |after| && after[a] == Holds(x)
        ensures after[b] != Holds(x)
      {
      }
    } else if Hole in slots {
      FirstOf(slots, x);
    }
  }

  lemma {:induction false} FirstOf(slots: seq<Slot>, x: Api)
    requires Hole in slots
    ensures CanAdd(slots, x) || Present(slots, x)
    decreases |slots|
  {
    var n := |slots| - 1;
    var head := slots[..n];
    assert slots == head + [slots[n]];
    if Hole in head {
      FirstOf(head, x);
      if CanAdd(head, x) {
        var h :| 0 <= h < |head| && Takes(head, x, h);
        assert forall k :: 0 <= k < h ==> slots[k] == head[k];
        assert Takes(slots, x, h);
      }
    } else if !Present(head, x) {
      assert forall k :: 0 <= k < n ==> slots[k] == head[k] && slots[k] in head;
      assert Takes(slots, x, n);
    }
  }

  /** An addition of a monitor already in the list is refused exactly if no hole
      precedes its first copy; the interface promises to refuse it always. */
  lemma DuplicateAccepted(slots: seq<Slot>, x: Api, c: nat)
    requires c < |slots| && slots[c] == Holds(x) && Holds(x) !in slots[..c]
    ensures CanAdd(slots, x) <==> Hole in slots[..c]
  {
    if CanAdd(slots, x) {
      var h :| 0 <= h < |slots| && Takes(slots, x, h);
      assert h < c;
      assert slots[..c][h] == Hole;
    }
    if Hole in slots[..c] {
      FirstOf(slots[..c], x);
      var h :| 0 <= h < c && Takes(slots[..c], x, h);
      assert forall k :: 0 <= k < h ==> slots[k] == slots[..c][k];
      assert Takes(slots, x, h);
    }
  }

  const EMPTY_LIST: seq<Slot> := seq(COUNT, _ => Hole)

  /** Adding 5 and 7 to an empty list and removing 5 leaves a list that holds 7 and takes it
      again, into the hole before it; only the clean-up keeps a single copy. */
  lemma DuplicateWitness()
    ensures var slots := AfterRemove(AfterAdd(AfterAdd(EMPTY_LIST, 5), 7), 5);
            && Present(slots, 7) && CanAdd(slots, 7)
            && AfterAdd(slots, 7)[0] == Holds(7) && AfterAdd(slots, 7)[1] == Hole
  {
    var one := AfterAdd(EMPTY_LIST, 5);
    assert Takes(EMPTY_LIST, 5, 0) && one[0] == Holds(5) && one[1] == Hole;
    var two := AfterAdd(one, 7);
    assert Takes(one, 7, 1) && two[0] == Holds(5) && two[1] == Holds(7);
    var slots := AfterRemove(two, 5);
    assert slots[0] == Hole && slots[1] == Holds(7);
    assert Takes(slots, 7, 0);
  }

  /** Removing undoes adding. */
  lemma RemoveUndoesAdd(slots: seq<Slot>, x: Api)
    requires !Present(slots, x)
    ensures AfterRemove(AfterAdd(slots, x), x) == slots
    ensures !Present(AfterRemove(slots, x), x)
  {
    var after := AfterAdd(slots, x);
    forall k | 0 <= k < |slots|
      ensures AfterRemove(after, x)[k] == slots[k]
    {
      assert slots[k] in slots;
    }
  }

  class MonitorList {
    const apis: array<Slot>
    /** How often setEnabled(false) was called by removals. */
    var disables: nat

    ghost predicate Valid() {
      apis.Length == COUNT
    }

    constructor ()
      ensures Valid() && fresh(apis) && disables == 0
      ensures forall k :: 0 <= k < COUNT ==> apis[k] == Hole
    {
      apis := new Slot[COUNT](_ => Hole);
      disables := 0;
    }

    /** atomic_compare_exchange_strong. */
    method CompareExchange(i: nat, expected: Slot, desired: Slot) returns (exchanged: bool)
      requires i < apis.Length
      modifies apis
      ensures exchanged == (old(apis[i]) == expected)
      ensures apis[..] == if exchanged then old(apis[..])[i := desired] else old(apis[..])
    {
      exchanged := apis[i] == expected;
      if exchanged {
        apis[i] := desired;
      }
    }

    /** kfccmr_addMonitor. */
    method AddMonitor(api: Api) returns (added: bool)
      requires Valid()
      modifies apis
      ensures added == CanAdd(old(apis[..]), api)
      ensures apis[..] == AfterAdd(old(apis[..]), api)
    {
      ghost var was := apis[..];
      added := false;
      var i := 0;
      while i < COUNT && !added
        invariant 0 <= i <= COUNT && !added ==> apis[..] == was
        invariant 0 <= i <= COUNT
        invariant added ==> i < COUNT && Takes(was, api, i) && apis[..] == was[i := Holds(api)]
        invariant forall k :: 0 <= k < i ==> was[k] != Hole && was[k] != Holds(api)
        decreases COUNT - i, !added
      {
        if apis[i] == Holds(api) {
          NoHoleBefore(was, api, i);
          return false;
        }
        added := CompareExchange(i, Hole, Holds(api));
        if !added {
          i := i + 1;
        }
      }
      if !added {
        return false;
      }
      ghost var hole := i;
      var found := false;
      i := 0;
      while i < COUNT
        invariant 0 <= i <= COUNT && found == (hole < i)
        invariant forall k :: 0 <= k < i ==> apis[k] == AfterAdd(was, api)[k]
        invariant forall k :: i <= k < COUNT ==> apis[k] == was[hole := Holds(api)][k]
      {
        if Takes(was, api, i) {
          OneTakes(was, api, i, hole);
        }
        if apis[i] == Holds(api) {
          if !found {
            found := true;
          } else {
            var _ := CompareExchange(i, Holds(api), Hole);
          }
        }
        i := i + 1;
      }
      assert apis[..] == AfterAdd(was, api);
    }

    static lemma NoHoleBefore(slots: seq<Slot>, x: Api, i: nat)
      requires i < |slots| && slots[i] == Holds(x) && forall k :: 0 <= k < i ==> slots[k] != Hole
      ensures !CanAdd(slots, x)
    {
    }

    /** kfccmr_removeMonitor. */
    method RemoveMonitor(api: Api)
      requires Valid()
      modifies this`disables, apis
      ensures apis[..] == AfterRemove(old(apis[..]), api)
      ensures disables == old(disables) + Copies(old(apis[..]), api)
    {
      ghost var was := apis[..];
      var i := 0;
      while i < COUNT
        invariant 0 <= i <= COUNT
        invariant forall k :: 0 <= k < i ==> apis[k] == AfterRemove(was, api)[k]
        invariant forall k :: i <= k < COUNT ==> apis[k] == was[k]
        invariant disables == old(disables) + Copies(was[..i], api)
      {
        assert was[..i + 1] == was[..i] + [was[i]];
        var removed := CompareExchange(i, Holds(api), Hole);
        if removed {
          disables := disables + 1;
        }
        i := i + 1;
      }
      assert was[..i] == was;
      assert apis[..] == AfterRemove(was, api);
    }
  }
}
