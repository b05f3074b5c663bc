/** The application-state monitor: how long the application was active or in the
    background, and how many launches there were since the last crash. */
module AppState {
  import opened JsonText
  import opened JsonEncoder
  import opened JsonDecoder
  import opened JsonRoundTrip
  import opened JsonDocument
  import JsonDecodeContext
  import JsonEvents

  /** KFCrash_AppState; durations and times are exact. */
  datatype State = State(
    activeSinceCrash: real, backgroundSinceCrash: real, launchesSinceCrash: int, sessionsSinceCrash: int,
    activeSinceLaunch: real, backgroundSinceLaunch: real, sessionsSinceLaunch: int,
    crashedLastLaunch: bool, crashedThisLaunch: bool,
    isActive: bool, inForeground: bool, transitionTime: real)

  const CLEAR: State := State(0.0, 0.0, 0, 0, 0.0, 0.0, 0, false, false, false, false, 0.0)

  /** A C int. */
  function Int32(x: int): (r: int)
    ensures -0x8000_0000 <= r < 0x8000_0000
    ensures -0x8000_0000 <= x < 0x8000_0000 ==> r == x
  {
    (x + 0x8000_0000) % 0x1_0000_0000 - 0x8000_0000
  }

  // --------------------------------------------------------------- persistence

  /** How the C library spells a double and reads a spelling back. */
  datatype Libc = Libc(format: real -> (bool, string), parse: (bool, string) -> real)

  const BUFFERS: Limits := Limits(250, 750)

  ghost predicate Formats(libc: Libc) {
    forall x: real :: FloatSpelling(libc.format(x).1) && |libc.format(x).1| < BUFFERS.stringLen
  }

  function Reread(libc: Libc, x: real): real {
    libc.parse(libc.format(x).0, libc.format(x).1)
  }

  const VERSION := "version"
  const CRASHED := "crashedLastLaunch"
  const ACTIVE := "activeDurationSinceLastCrash"
  const BACKGROUND := "backgroundDurationSinceLastCrash"
  const LAUNCHES := "launchesSinceLastCrash"
  const SESSIONS := "sessionsSinceLastCrash"

  function Spelled(libc: Libc, x: real): Value {
    FloatV(libc.format(x).0, libc.format(x).1)
  }

  /** The encoder calls of saveState. */
  function SaveFields(libc: Libc, s: State): seq<Event> {
    [Scalar(Some(VERSION), IntV(1)),
     Scalar(Some(CRASHED), BoolV(s.crashedThisLaunch)),
     Scalar(Some(ACTIVE), Spelled(libc, s.activeSinceCrash)),
     Scalar(Some(BACKGROUND), Spelled(libc, s.backgroundSinceCrash)),
     Scalar(Some(LAUNCHES), IntV(s.launchesSinceCrash)),
     Scalar(Some(SESSIONS), IntV(s.sessionsSinceCrash))]
  }

  function SaveCalls(libc: Libc, s: State): seq<Event> {
    [Begin(true, None)] + SaveFields(libc, s)
  }

  /** The file saveState writes. */
  function SaveText(libc: Libc, s: State): string {
    DocumentText(true, SaveCalls(libc, s))
  }

  function OnFloat(s: State, name: string, x: real): State {
    if name == ACTIVE then s.(activeSinceCrash := x)
    else if name == BACKGROUND then s.(backgroundSinceCrash := x)
    else s
  }

  function OnInteger(s: State, name: string, i: int): State {
    var t := if name == LAUNCHES then s.(launchesSinceCrash := Int32(i))
             else if name == SESSIONS then s.(sessionsSinceCrash := Int32(i))
             else s;
    OnFloat(t, name, i as real)
  }

  predicate Rejected(name: string, v: Value) {
    || (((v.IntV? && v.i != 1) || (v.UIntV? && v.u != 1)) && name == VERSION)
    || (v.UIntV? && v.u >= 0x8000_0000 && (name == LAUNCHES || name == SESSIONS))
  }

  /** One callback of loadState.  A rejected field leaves the state as it is. */
  function OnEvent(libc: Libc, s: State, ev: Event): State {
    match ev
    case Scalar(Some(name), v) =>
      if Rejected(name, v) then s
      else
        (match v
         case BoolV(b) => if name == CRASHED then s.(crashedLastLaunch := b) else s
         case FloatV(negative, digits) => OnFloat(s, name, libc.parse(negative, digits))
         case IntV(i) => OnInteger(s, name, i)
         case UIntV(u) => OnInteger(s, name, u)
         case _ => s)
    case _ => s
  }

  function OnEvents(libc: Libc, s: State, evs: seq<Event>): State
    decreases |evs|
  {
    if evs == [] then s else OnEvents(libc, OnEvent(libc, s, evs[0]), evs[1..])
  }

  function EventStatus(ev: Event): Status {
    match ev
    case Scalar(Some(name), v) => if Rejected(name, v) then InvalidData else Ok
    case _ => Ok
  }

  const OnLoad: Handler := (fired: seq<Event>) => if fired == [] then Ok else EventStatus(fired[|fired| - 1])

  /** loadState: what the callbacks of decoding the file have made of the state. */
  ghost function Load(libc: Libc, s: State, text: string): (State, Status) {
    var r := Run(OnLoad, BUFFERS, ROOT, InMemory(text));
    (OnEvents(libc, s, r.dec.fired), r.status)
  }

  /** The fields that survive a launch. */
  function Carried(libc: Libc, s: State, saved: State): State {
    s.(activeSinceCrash := Reread(libc, saved.activeSinceCrash),
       backgroundSinceCrash := Reread(libc, saved.backgroundSinceCrash),
       launchesSinceCrash := saved.launchesSinceCrash, sessionsSinceCrash := saved.sessionsSinceCrash,
       crashedLastLaunch := saved.crashedThisLaunch)
  }

  predicate InInt(x: int) {
    -0x8000_0000 <= x < 0x8000_0000
  }

  ghost predicate PlainField(ev: Event) {
    && ev.Scalar? && LegalName(BUFFERS, ev.name)
    && Encodable(ev.value) && Fits(BUFFERS, ev.value) && CanonicalValue(ev.value) == ev.value
  }

  /** Elements of an object are legal, are reported as they are and leave it open. */
  lemma {:induction false} FieldsAreLegal(e: Enc, evs: seq<Event>)
    requires |e.stack| == 1 && InObject(e) && forall i :: 0 <= i < |evs| ==> PlainField(evs[i])
    ensures LegalCalls(BUFFERS, e, evs) && ReportedAll(e, evs) == evs && AfterCalls(e, evs).stack == e.stack
    decreases |evs|
  {
    hide CallText, LegalName, Fits, Encodable;
    if evs != [] {
      assert PlainField(evs[0]);
      FieldsAreLegal(AfterCall(e, evs[0]), evs[1..]);
    }
  }

  predicate Letters(name: string) {
    forall i :: 0 <= i < |name| ==> 'A' <= name[i] <= 'z' && name[i] != '\\'
  }

  lemma LettersLegal(name: string)
    requires Letters(name) && |name| <= 100
    ensures LegalName(BUFFERS, Some(name))
  {
    hide Escape;
  }

  lemma ShortKeysLegal()
    ensures LegalName(BUFFERS, Some(VERSION)) && LegalName(BUFFERS, Some(CRASHED))
    ensures LegalName(BUFFERS, Some(LAUNCHES)) && LegalName(BUFFERS, Some(SESSIONS))
  {
    hide LegalName;
    LettersLegal(VERSION);
    LettersLegal(CRASHED);
    LettersLegal(LAUNCHES);
    LettersLegal(SESSIONS);
  }

  lemma DurationKeysLegal()
    ensures LegalName(BUFFERS, Some(ACTIVE)) && LegalName(BUFFERS, Some(BACKGROUND))
  {
    hide LegalName;
    LettersLegal(ACTIVE);
    LettersLegal(BACKGROUND);
  }

  lemma FieldsPlain(libc: Libc, s: State)
    requires Formats(libc) && InInt(s.launchesSinceCrash) && InInt(s.sessionsSinceCrash)
    ensures forall i :: 0 <= i < 6 ==> PlainField(SaveFields(libc, s)[i])
  {
    hide LegalName, FloatSpelling;
    ShortKeysLegal();
    DurationKeysLegal();
    assert FloatSpelling(libc.format(s.activeSinceCrash).1) && FloatSpelling(libc.format(s.backgroundSinceCrash).1);
  }

  lemma SaveIsLegal(libc: Libc, s: State)
    requires Formats(libc) && InInt(s.launchesSinceCrash) && InInt(s.sessionsSinceCrash)
    ensures LegalDocument(BUFFERS, SaveCalls(libc, s))
    ensures ReportedCalls(SaveCalls(libc, s)) == SaveCalls(libc, s) && OpenLevels(SaveCalls(libc, s)) == 1
  {
    hide PlainField, CallText, SaveFields;
    var e := BeginEncode(false, None);
    var begin := Begin(true, None);
    var fields := SaveFields(libc, s);
    FieldsPlain(libc, s);
    assert |fields| == 6 by { SixFields(libc, s); }
    var inner := AfterCall(e, begin);
    assert inner.stack == [true];
    FieldsAreLegal(inner, fields);
    assert ([begin] + fields)[0] == begin && ([begin] + fields)[1..] == fields;
  }

  lemma SixFields(libc: Libc, s: State)
    ensures |SaveFields(libc, s)| == 6
  {
  }

  lemma {:induction false} OnEventsAppend(libc: Libc, s: State, a: seq<Event>, b: seq<Event>)
    ensures OnEvents(libc, s, a + b) == OnEvents(libc, OnEvents(libc, s, a), b)
    decreases |a|
  {
    hide OnEvent;
    if a == [] {
      assert a + b == b;
    } else {
      assert (a + b)[0] == a[0] && (a + b)[1..] == a[1..] + b;
      OnEventsAppend(libc, OnEvent(libc, s, a[0]), a[1..], b);
    }
  }

  lemma KeysDiffer()
    ensures |VERSION| == 7 && |CRASHED| == 17 && |ACTIVE| == 28 && |BACKGROUND| == 32
    ensures |LAUNCHES| == 22 && |SESSIONS| == 22 && LAUNCHES != SESSIONS
  {
    assert LAUNCHES[0] != SESSIONS[0];
  }

  /** The callbacks on a saved file, one by one. */
  lemma FieldsRestore(libc: Libc, s: State, saved: State)
    requires InInt(saved.launchesSinceCrash) && InInt(saved.sessionsSinceCrash)
    ensures var evs := SaveFields(libc, saved);
            var t := OnEvent(libc, OnEvent(libc, OnEvent(libc, s, evs[0]), evs[1]), evs[2]);
            OnEvent(libc, OnEvent(libc, OnEvent(libc, t, evs[3]), evs[4]), evs[5]) == Carried(libc, s, saved)
    ensures forall i :: 0 <= i < 6 ==> EventStatus(SaveFields(libc, saved)[i]) == Ok
  {
    KeysDiffer();
  }

  lemma FoldSix(libc: Libc, s: State, evs: seq<Event>)
    requires |evs| == 6
    ensures var t := OnEvent(libc, OnEvent(libc, OnEvent(libc, s, evs[0]), evs[1]), evs[2]);
            OnEvents(libc, s, evs) == OnEvent(libc, OnEvent(libc, OnEvent(libc, t, evs[3]), evs[4]), evs[5])
  {
    hide OnEvent;
    var t := OnEvent(libc, OnEvent(libc, OnEvent(libc, s, evs[0]), evs[1]), evs[2]);
    FoldThree(libc, s, evs[..3]);
    FoldThree(libc, t, evs[3..]);
    OnEventsAppend(libc, s, evs[..3], evs[3..]);
    assert evs[..3] + evs[3..] == evs;
  }

  lemma FoldOne(libc: Libc, s: State, ev: Event)
    ensures OnEvents(libc, s, [ev]) == OnEvent(libc, s, ev)
  {
    assert [ev][1..] == [];
  }

  lemma FoldThree(libc: Libc, s: State, evs: seq<Event>)
    requires |evs| == 3
    ensures OnEvents(libc, s, evs) == OnEvent(libc, OnEvent(libc, OnEvent(libc, s, evs[0]), evs[1]), evs[2])
  {
    hide OnEvent;
    var s1 := OnEvent(libc, s, evs[0]);
    var s2 := OnEvent(libc, s1, evs[1]);
    assert evs == [evs[0]] + ([evs[1]] + [evs[2]]);
    OnEventsAppend(libc, s, [evs[0]], [evs[1]] + [evs[2]]);
    OnEventsAppend(libc, s1, [evs[1]], [evs[2]]);
    FoldOne(libc, s, evs[0]);
    FoldOne(libc, s1, evs[1]);
    FoldOne(libc, s2, evs[2]);
  }

  /** loadState reads back what saveState wrote: the crash flag of that launch, the
      counters, and the durations as the C library rereads them. */
  lemma LoadRestoresSave(libc: Libc, s: State, saved: State)
    requires Formats(libc) && InInt(saved.launchesSinceCrash) && InInt(saved.sessionsSinceCrash)
    ensures Load(libc, s, SaveText(libc, saved)) == (Carried(libc, s, saved), Ok)
  {
    hide DocumentText, Run, SeparatedFrom, LegalDocument, ReportedCalls, OpenLevels, OnEvent, EventStatus,
         SaveFields, Carried, Formats;
    var fields := SaveFields(libc, saved);
    var fired := SaveCalls(libc, saved) + Ends(1);
    SixFields(libc, saved);
    SaveIsLegal(libc, saved);
    RoundTrip(BUFFERS, true, SaveCalls(libc, saved));
    FieldsRestore(libc, s, saved);
    FoldSix(libc, s, fields);
    FrameSilent(libc, s);
    FrameSilent(libc, OnEvents(libc, s, fields));
    assert Ends(1) == [End] by { OneEnd(); }
    assert fired == [Begin(true, None)] + fields + [End];
    OnEventsAppend(libc, s, [Begin(true, None)] + fields, [End]);
    OnEventsAppend(libc, s, [Begin(true, None)], fields);
    forall n | 0 < n <= |fired|
      ensures OnLoad(fired[..n]) == Ok
    {
      assert fired[..n][n - 1] == fired[n - 1];
      if 1 <= n - 1 <= 6 {
        assert fired[n - 1] == fields[n - 2];
      }
    }
    JsonEvents.HarmlessHandler(OnLoad, BUFFERS, ROOT, InMemory(SaveText(libc, saved)));
  }

  lemma OneEnd()
    ensures Ends(1) == [End]
  {
    assert Ends(0) == [];
  }

  lemma FrameSilent(libc: Libc, s: State)
    ensures OnEvents(libc, s, [Begin(true, None)]) == s && OnEvents(libc, s, [End]) == s
    ensures EventStatus(Begin(true, None)) == Ok && EventStatus(End) == Ok
  {
    assert [Begin(true, None)][1..] == [] && [End][1..] == [];
  }

  // ------------------------------------------------------------- any state file

  /** A number without a fraction, signed or not. */
  function Whole(v: Value): Option<int> {
    match v
    case IntV(i) => Some(i)
    case UIntV(u) => Some(u)
    case _ => None
  }

  predicate Named(ev: Event, name: string) {
    ev.Scalar? && ev.name == Some(name)
  }

  /** A format other than 1, or a count beyond the signed 64-bit range. */
  predicate Refused(ev: Event) {
    && ev.Scalar? && Whole(ev.value).Some?
    && ((ev.name == Some(VERSION) && Whole(ev.value).value != 1)
        || ((ev.name == Some(LAUNCHES) || ev.name == Some(SESSIONS)) && Whole(ev.value).value > INT64_MAX))
  }

  /** The field as given last. */
  function LastBool(evs: seq<Event>, name: string, default: bool): bool {
    if evs == [] then default
    else
      var ev := evs[|evs| - 1];
      if Named(ev, name) && ev.value.BoolV? then ev.value.b else LastBool(evs[..|evs| - 1], name, default)
  }

  function LastCount(evs: seq<Event>, name: string, default: int): int {
    if evs == [] then default
    else
      var ev := evs[|evs| - 1];
      if Named(ev, name) && Whole(ev.value).Some? then Int32(Whole(ev.value).value)
      else LastCount(evs[..|evs| - 1], name, default)
  }

  /** A duration as one field gives it. */
  function Measured(libc: Libc, ev: Event, name: string, default: real): real {
    if Named(ev, name) && Whole(ev.value).Some? then Whole(ev.value).value as real
    else if Named(ev, name) && ev.value.FloatV? then libc.parse(ev.value.negative, ev.value.digits)
    else default
  }

  function LastDuration(libc: Libc, evs: seq<Event>, name: string, default: real): real {
    if evs == [] then default
    else Measured(libc, evs[|evs| - 1], name, LastDuration(libc, evs[..|evs| - 1], name, default))
  }

  /** The events before the first that is refused. */
  function Heeded(evs: seq<Event>): (r: seq<Event>)
    ensures r <= evs && (forall i :: 0 <= i < |r| ==> !Refused(r[i])) && (|r| < |evs| ==> Refused(evs[|r|]))
  {
    if evs == [] || Refused(evs[0]) then [] else [evs[0]] + Heeded(evs[1..])
  }

  /** The state with the fields given last. */
  function WithFields(libc: Libc, s: State, evs: seq<Event>): State {
    s.(crashedLastLaunch := LastBool(evs, CRASHED, s.crashedLastLaunch),
       activeSinceCrash := LastDuration(libc, evs, ACTIVE, s.activeSinceCrash),
       backgroundSinceCrash := LastDuration(libc, evs, BACKGROUND, s.backgroundSinceCrash),
       launchesSinceCrash := LastCount(evs, LAUNCHES, s.launchesSinceCrash),
       sessionsSinceCrash := LastCount(evs, SESSIONS, s.sessionsSinceCrash))
  }

  /** Beyond the signed range the decoder reports unsigned integers, and only there. */
  predicate Ranged(ev: Event) {
    ev.Scalar? ==> (ev.value.IntV? ==> ev.value.i <= INT64_MAX) && (ev.value.UIntV? ==> ev.value.u > INT64_MAX)
  }

  lemma LastIsNew(libc: Libc, evs: seq<Event>, ev: Event, name: string, b: bool, i: int, x: real)
    ensures LastBool(evs + [ev], name, b) ==
            if Named(ev, name) && ev.value.BoolV? then ev.value.b else LastBool(evs, name, b)
    ensures LastCount(evs + [ev], name, i) ==
            if Named(ev, name) && Whole(ev.value).Some? then Int32(Whole(ev.value).value) else LastCount(evs, name, i)
    ensures LastDuration(libc, evs + [ev], name, x) == Measured(libc, ev, name, LastDuration(libc, evs, name, x))
  {
    hide Int32;
    assert (evs + [ev])[..|evs|] == evs;
  }

  lemma AllNew(libc: Libc, s: State, evs: seq<Event>, ev: Event)
    ensures var t := WithFields(libc, s, evs);
            var r := WithFields(libc, s, evs + [ev]);
            && r == t.(crashedLastLaunch := r.crashedLastLaunch, activeSinceCrash := r.activeSinceCrash,
                       backgroundSinceCrash := r.backgroundSinceCrash, launchesSinceCrash := r.launchesSinceCrash,
                       sessionsSinceCrash := r.sessionsSinceCrash)
            && r.crashedLastLaunch ==
               (if Named(ev, CRASHED) && ev.value.BoolV? then ev.value.b else t.crashedLastLaunch)
            && r.launchesSinceCrash ==
               (if Named(ev, LAUNCHES) && Whole(ev.value).Some? then Int32(Whole(ev.value).value)
                else t.launchesSinceCrash)
            && r.sessionsSinceCrash ==
               (if Named(ev, SESSIONS) && Whole(ev.value).Some? then Int32(Whole(ev.value).value)
                else t.sessionsSinceCrash)
            && r.activeSinceCrash == Measured(libc, ev, ACTIVE, t.activeSinceCrash)
            && r.backgroundSinceCrash == Measured(libc, ev, BACKGROUND, t.backgroundSinceCrash)
  {
    hide LastBool, LastCount, LastDuration, Int32, Named, Whole;
    LastIsNew(libc, evs, ev, CRASHED, s.crashedLastLaunch, 0, 0.0);
    LastIsNew(libc, evs, ev, LAUNCHES, false, s.launchesSinceCrash, 0.0);
    LastIsNew(libc, evs, ev, SESSIONS, false, s.sessionsSinceCrash, 0.0);
    LastIsNew(libc, evs, ev, ACTIVE, false, 0, s.activeSinceCrash);
    LastIsNew(libc, evs, ev, BACKGROUND, false, 0, s.backgroundSinceCrash);
  }

  lemma RefusedExactly(ev: Event)
    requires Ranged(ev)
    ensures EventStatus(ev) == if Refused(ev) then InvalidData else Ok
  {
    KeysDiffer();
  }

  lemma RefusedIgnored(libc: Libc, s: State, ev: Event)
    requires Ranged(ev) && Refused(ev)
    ensures OnEvent(libc, s, ev) == s
  {
    KeysDiffer();
  }

  lemma OneField(libc: Libc, s: State, evs: seq<Event>, ev: Event)
    requires Ranged(ev) && !Refused(ev)
    ensures OnEvent(libc, WithFields(libc, s, evs), ev) == WithFields(libc, s, evs + [ev])
  {
    hide Int32, WithFields, EventStatus;
    KeysDiffer();
    RefusedExactly(ev);
    AllNew(libc, s, evs, ev);
  }

  lemma {:induction false} FieldsRead(libc: Libc, s: State, evs: seq<Event>)
    requires forall i :: 0 <= i < |evs| ==> Ranged(evs[i]) && !Refused(evs[i])
    ensures OnEvents(libc, s, evs) == WithFields(libc, s, evs)
    decreases |evs|
  {
    hide OnEvent, Refused, Ranged, WithFields;
    if evs == [] {
      NoFields(libc, s);
    } else {
      var n := |evs| - 1;
      FieldsRead(libc, s, evs[..n]);
      assert evs == evs[..n] + [evs[n]];
      OnEventsAppend(libc, s, evs[..n], [evs[n]]);
      FoldOne(libc, OnEvents(libc, s, evs[..n]), evs[n]);
      OneField(libc, s, evs[..n], evs[n]);
    }
  }

  lemma NoFields(libc: Libc, s: State)
    ensures WithFields(libc, s, []) == s
  {
  }

  lemma EventsRanged(text: string)
    ensures forall i :: 0 <= i < |Decode(BUFFERS, text).dec.fired| ==> Ranged(Decode(BUFFERS, text).dec.fired[i])
  {
    hide Run;
    var evs := JsonEvents.RunReports(AlwaysOk, BUFFERS, ROOT, InMemory(text));
    assert [] + evs == evs;
    assert forall i :: 0 <= i < |evs| ==> JsonEvents.DecodedEvent(evs[i]);
  }

  lemma OnLoadRefuses(evs: seq<Event>, m: nat)
    requires 0 < m <= |evs| && Ranged(evs[m - 1])
    ensures OnLoad(evs[..m]) == if Refused(evs[m - 1]) then InvalidData else Ok
  {
    hide EventStatus, Refused;
    assert evs[..m][m - 1] == evs[m - 1];
    RefusedExactly(evs[m - 1]);
  }

  /** The decoder stops at the first event that is refused. */
  lemma LoadStops(text: string)
    ensures var decoded, r := Decode(BUFFERS, text), Run(OnLoad, BUFFERS, ROOT, InMemory(text));
            var n := |Heeded(decoded.dec.fired)|;
            if n == |decoded.dec.fired| then r.dec.fired == decoded.dec.fired && r.status == decoded.status
            else r.dec.fired == decoded.dec.fired[..n + 1] && r.status == InvalidData
  {
    hide Run, EventStatus, Refused, Ranged;
    var evs := Decode(BUFFERS, text).dec.fired;
    var n := |Heeded(evs)|;
    EventsRanged(text);
    assert forall m :: 0 <= m < n ==> evs[m] == Heeded(evs)[m];
    forall m | 0 < m <= |evs|
      ensures OnLoad(evs[..m]) == if Refused(evs[m - 1]) then InvalidData else Ok
    {
      OnLoadRefuses(evs, m);
    }
    if n == |evs| {
      JsonEvents.HarmlessHandler(OnLoad, BUFFERS, ROOT, InMemory(text));
    } else {
      JsonEvents.FirstFailure(OnLoad, BUFFERS, ROOT, InMemory(text), n + 1);
    }
  }

  /** Loading any file, however it came about: each field is what the file gives last
      before a format other than 1, a count that does not fit, or malformed text stops it,
      and fields it does not give stay as they were. */
  lemma LoadReads(libc: Libc, s: State, text: string)
    ensures var decoded := Decode(BUFFERS, text);
            var heeded := Heeded(decoded.dec.fired);
            Load(libc, s, text) ==
            (WithFields(libc, s, heeded), if heeded == decoded.dec.fired then decoded.status else InvalidData)
  {
    hide Run, OnEvent, EventStatus, WithFields, Refused, Ranged, OnLoad;
    var evs := Decode(BUFFERS, text).dec.fired;
    var heeded := Heeded(evs);
    var n := |heeded|;
    EventsRanged(text);
    LoadStops(text);
    FieldsRead(libc, s, heeded);
    if n < |evs| {
      assert evs[..n + 1] == heeded + [evs[n]];
      OnEventsAppend(libc, s, heeded, [evs[n]]);
      FoldOne(libc, WithFields(libc, s, heeded), evs[n]);
      RefusedIgnored(libc, WithFields(libc, s, heeded), evs[n]);
    }
  }

  // ------------------------------------------------------------- notifications

  datatype Notification = Active(isActive: bool) | Foreground(isInForeground: bool) | Terminate | Crash | Snapshot

  datatype Timed = Timed(now: real, what: Notification)

  /** The state and the state file. */
  datatype World = World(state: State, file: Option<string>)

  /** updateAppState. */
  function Update(s: State, now: real): State {
    var duration := now - s.transitionTime;
    var t := s.(transitionTime := now);
    if s.isActive then
      t.(activeSinceLaunch := s.activeSinceLaunch + duration, activeSinceCrash := s.activeSinceCrash + duration)
    else if !s.inForeground then
      t.(backgroundSinceLaunch := s.backgroundSinceLaunch + duration,
         backgroundSinceCrash := s.backgroundSinceCrash + duration)
    else t
  }

  function OnActive(s: State, now: real, isActive: bool): State {
    var duration := now - s.transitionTime;
    if isActive then s.(isActive := true, transitionTime := now)
    else
      s.(isActive := false, activeSinceLaunch := s.activeSinceLaunch + duration,
         activeSinceCrash := s.activeSinceCrash + duration)
  }

  function OnForeground(s: State, now: real, isInForeground: bool): State {
    var duration := now - s.transitionTime;
    if isInForeground then
      s.(inForeground := true, backgroundSinceLaunch := s.backgroundSinceLaunch + duration,
         backgroundSinceCrash := s.backgroundSinceCrash + duration,
         sessionsSinceCrash := Int32(s.sessionsSinceCrash + 1), sessionsSinceLaunch := Int32(s.sessionsSinceLaunch + 1))
    else s.(inForeground := false, transitionTime := now)
  }

  function Saved(libc: Libc, s: State): World {
    World(s, Some(SaveText(libc, s)))
  }

  /** A notification while the monitor is enabled. */
  function Notify(libc: Libc, w: World, e: Timed): World {
    var s := w.state;
    match e.what
    case Active(b) => w.(state := OnActive(s, e.now, b))
    case Foreground(b) =>
      if b then w.(state := OnForeground(s, e.now, b)) else Saved(libc, OnForeground(s, e.now, b))
    case Terminate => Saved(libc, Update(s, e.now))
    case Crash => Saved(libc, Update(s, e.now).(crashedThisLaunch := true))
    case Snapshot => w.(state := Update(s, e.now))
  }

  function NotifyAll(libc: Libc, w: World, evs: seq<Timed>): World
    decreases |evs|
  {
    if evs == [] then w else NotifyAll(libc, Notify(libc, w, evs[0]), evs[1..])
  }

  /** kfcrashstate_reset on an enabled monitor. */
  function Reset(libc: Libc, s: State): World {
    var t := s.(sessionsSinceLaunch := 1, activeSinceLaunch := 0.0, backgroundSinceLaunch := 0.0);
    var u := if s.crashedLastLaunch then
               t.(activeSinceCrash := 0.0, backgroundSinceCrash := 0.0, launchesSinceCrash := 0,
                  sessionsSinceCrash := 0)
             else t;
    Saved(libc, u.(crashedThisLaunch := false, launchesSinceCrash := Int32(u.launchesSinceCrash + 1),
                   sessionsSinceCrash := Int32(u.sessionsSinceCrash + 1), inForeground := true))
  }

  /** kfcrashstate_initialize. */
  ghost function Initialize(libc: Libc, file: Option<string>, now: real): State {
    var s := CLEAR.(transitionTime := now);
    match file
    case None => s
    case Some(text) => Load(libc, s, text).0
  }

  // ------------------------------------------------------------------ durations

  /** Where the application is: in front but not active, active, or in the background. */
  datatype Mode = Inactive | Running | Hidden

  /** The life cycle: becoming active and inactive in the foreground, leaving and
      entering the foreground while inactive; anything else may happen at any time. */
  function NextMode(m: Mode, what: Notification): Option<Mode> {
    match what
    case Active(b) => if m == (if b then Inactive else Running) then Some(if b then Running else Inactive) else None
    case Foreground(b) => if m == (if b then Hidden else Inactive) then Some(if b then Inactive else Hidden) else None
    case _ => Some(m)
  }

  predicate Ordered(m: Mode, evs: seq<Timed>)
    decreases |evs|
  {
    evs == [] || (NextMode(m, evs[0].what).Some? && Ordered(NextMode(m, evs[0].what).value, evs[1..]))
  }

  /** The time spent in a mode, from `since` in mode m until `until`. */
  function TimeIn(want: Mode, m: Mode, since: real, evs: seq<Timed>, until: real): real
    requires Ordered(m, evs)
    decreases |evs|
  {
    if evs == [] then if m == want then until - since else 0.0
    else
      (if m == want then evs[0].now - since else 0.0)
      + TimeIn(want, NextMode(m, evs[0].what).value, evs[0].now, evs[1..], until)
  }

  /** The totals at `since`, part of which is not yet added up. */
  ghost predicate Accounts(s: State, m: Mode, since: real, active: real, background: real) {
    && s.isActive == m.Running? && s.inForeground == !m.Hidden?
    && s.activeSinceLaunch + (if m.Running? then since - s.transitionTime else 0.0) == active
    && s.backgroundSinceLaunch + (if m.Hidden? then since - s.transitionTime else 0.0) == background
  }

  /** Both pairs of durations grow alike. */
  predicate InStep(s: State, t: State) {
    && t.activeSinceCrash - t.activeSinceLaunch == s.activeSinceCrash - s.activeSinceLaunch
    && t.backgroundSinceCrash - t.backgroundSinceLaunch == s.backgroundSinceCrash - s.backgroundSinceLaunch
  }

  /** A notification in life-cycle order brings the totals up to its time. */
  lemma AccountsKept(libc: Libc, w: World, m: Mode, since: real, e: Timed, active: real, background: real)
    requires NextMode(m, e.what).Some? && Accounts(w.state, m, since, active, background)
    ensures var a := active + if m.Running? then e.now - since else 0.0;
            var b := background + if m.Hidden? then e.now - since else 0.0;
            var t := Notify(libc, w, e).state;
            Accounts(t, NextMode(m, e.what).value, e.now, a, b) && InStep(w.state, t)
  {
    hide SaveText;
    match e.what
    case Active(b) => assert Notify(libc, w, e).state == OnActive(w.state, e.now, b);
    case Foreground(b) => assert Notify(libc, w, e).state == OnForeground(w.state, e.now, b);
    case _ =>
  }

  lemma {:induction false} DurationsKept(libc: Libc, w: World, m: Mode, since: real, evs: seq<Timed>, until: real,
      active: real, background: real)
    requires Ordered(m, evs) && Accounts(w.state, m, since, active, background)
    ensures var s := Update(NotifyAll(libc, w, evs).state, until);
            && s.activeSinceLaunch == active + TimeIn(Running, m, since, evs, until)
            && s.backgroundSinceLaunch == background + TimeIn(Hidden, m, since, evs, until)
            && InStep(w.state, s)
    decreases |evs|
  {
    hide Notify, NextMode, Update, Accounts, InStep;
    if evs == [] {
      UpdateAccounts(w.state, m, since, until, active, background);
    } else {
      var e := evs[0];
      var a := active + if m.Running? then e.now - since else 0.0;
      var b := background + if m.Hidden? then e.now - since else 0.0;
      AccountsKept(libc, w, m, since, e, active, background);
      var next := Notify(libc, w, e);
      DurationsKept(libc, next, NextMode(m, e.what).value, e.now, evs[1..], until, a, b);
      StillInStep(w.state, next.state, Update(NotifyAll(libc, w, evs).state, until));
    }
  }

  lemma UpdateAccounts(s: State, m: Mode, since: real, until: real, active: real, background: real)
    requires Accounts(s, m, since, active, background)
    ensures var t := Update(s, until);
            && t.activeSinceLaunch == active + (if m.Running? then until - since else 0.0)
            && t.backgroundSinceLaunch == background + (if m.Hidden? then until - since else 0.0)
            && InStep(s, t)
  {
  }

  lemma StillInStep(s: State, t: State, u: State)
    requires InStep(s, t) && InStep(t, u)
    ensures InStep(s, u)
  {
  }

  /** Along any sequence of notifications in life-cycle order, with snapshots at
      arbitrary points, the durations reported by the next snapshot are exactly the
      times spent active and in the background: nothing is counted twice or lost. */
  lemma DurationsExact(libc: Libc, start: State, enabledAt: real, evs: seq<Timed>, until: real)
    requires !start.isActive && Ordered(Inactive, evs)
    ensures var w := Reset(libc, start);
            var s := Notify(libc, NotifyAll(libc, w, evs), Timed(until, Snapshot)).state;
            && s.activeSinceLaunch == TimeIn(Running, Inactive, enabledAt, evs, until)
            && s.backgroundSinceLaunch == TimeIn(Hidden, Inactive, enabledAt, evs, until)
            && s.activeSinceCrash == w.state.activeSinceCrash + s.activeSinceLaunch
            && s.backgroundSinceCrash == w.state.backgroundSinceCrash + s.backgroundSinceLaunch
  {
    hide SaveText, NotifyAll, TimeIn;
    DurationsKept(libc, Reset(libc, start), Inactive, enabledAt, evs, until, 0.0, 0.0);
  }

  /** The notifications behind which the state is saved. */
  predicate Saves(what: Notification) {
    what == Foreground(false) || what.Terminate? || what.Crash?
  }

  /** How many notifications there are up to the last that saves; none saves without one. */
  function LastSave(evs: seq<Timed>): (k: nat)
    ensures k <= |evs| && (k > 0 ==> Saves(evs[k - 1].what))
    ensures forall i :: k <= i < |evs| ==> !Saves(evs[i].what)
  {
    if evs == [] then 0 else if Saves(evs[|evs| - 1].what) then |evs| else LastSave(evs[..|evs| - 1])
  }

  lemma {:induction false} NotifyOneMore(libc: Libc, w: World, evs: seq<Timed>, e: Timed)
    ensures NotifyAll(libc, w, evs + [e]) == Notify(libc, NotifyAll(libc, w, evs), e)
    decreases |evs|
  {
    hide Notify;
    if evs == [] {
      assert [e][1..] == [];
    } else {
      assert (evs + [e])[0] == evs[0] && (evs + [e])[1..] == evs[1..] + [e];
      NotifyOneMore(libc, Notify(libc, w, evs[0]), evs[1..], e);
    }
  }

  lemma NotifySaves(libc: Libc, w: World, e: Timed)
    ensures var r := Notify(libc, w, e);
            if Saves(e.what) then r == Saved(libc, r.state) && r.state.transitionTime == e.now else r.file == w.file
  {
    hide SaveText;
  }

  /** The file holds the state as it was saved last. */
  lemma {:induction false} FileIsLastSave(libc: Libc, w: World, evs: seq<Timed>)
    ensures var k := LastSave(evs);
            var saved := NotifyAll(libc, w, evs[..k]);
            && NotifyAll(libc, w, evs).file == saved.file
            && (k > 0 ==> saved == Saved(libc, saved.state) && saved.state.transitionTime == evs[k - 1].now)
    decreases |evs|
  {
    hide Notify, NotifyAll, SaveText;
    var k := LastSave(evs);
    if evs != [] {
      var n := |evs| - 1;
      assert evs == evs[..n] + [evs[n]];
      NotifyOneMore(libc, w, evs[..n], evs[n]);
      NotifySaves(libc, NotifyAll(libc, w, evs[..n]), evs[n]);
      if k == |evs| {
        assert evs[..k] == evs;
      } else {
        FileIsLastSave(libc, w, evs[..n]);
        assert evs[..n][..k] == evs[..k];
      }
    } else {
      assert evs[..0] == evs;
    }
  }

  lemma {:induction false} OrderedPart(m: Mode, evs: seq<Timed>, n: nat)
    requires Ordered(m, evs) && n <= |evs|
    ensures Ordered(m, evs[..n])
    decreases |evs|
  {
    if n > 0 {
      assert evs[..n][0] == evs[0] && evs[..n][1..] == evs[1..][..n - 1];
      OrderedPart(NextMode(m, evs[0].what).value, evs[1..], n - 1);
    }
  }

  /** How often the application entered the foreground. */
  function Entered(evs: seq<Timed>): nat {
    if evs == [] then 0 else (if evs[0].what == Foreground(true) then 1 else 0) + Entered(evs[1..])
  }

  predicate SomeCrash(evs: seq<Timed>) {
    exists i :: 0 <= i < |evs| && evs[i].what.Crash?
  }

  lemma Int32Again(a: int, b: int)
    ensures Int32(Int32(a) + b) == Int32(a + b)
  {
  }

  lemma CountersBehind(libc: Libc, w: World, e: Timed)
    ensures var s := Notify(libc, w, e).state;
            && s.launchesSinceCrash == w.state.launchesSinceCrash
            && s.crashedThisLaunch == (w.state.crashedThisLaunch || e.what.Crash?)
            && s.sessionsSinceCrash ==
               if e.what == Foreground(true) then Int32(w.state.sessionsSinceCrash + 1) else w.state.sessionsSinceCrash
  {
    hide SaveText, Int32;
  }

  /** The counters and the crash flag behind a series of notifications. */
  lemma {:induction false} CountersKept(libc: Libc, w: World, evs: seq<Timed>)
    requires InInt(w.state.sessionsSinceCrash)
    ensures var s := NotifyAll(libc, w, evs).state;
            && s.launchesSinceCrash == w.state.launchesSinceCrash
            && s.crashedThisLaunch == (w.state.crashedThisLaunch || SomeCrash(evs))
            && s.sessionsSinceCrash == Int32(w.state.sessionsSinceCrash + Entered(evs))
    decreases |evs|
  {
    hide Notify, Int32;
    if evs != [] {
      var w1 := Notify(libc, w, evs[0]);
      CountersBehind(libc, w, evs[0]);
      CountersKept(libc, w1, evs[1..]);
      Int32Again(w.state.sessionsSinceCrash + 1, Entered(evs[1..]));
      CrashFirst(evs);
    }
  }

  lemma CrashFirst(evs: seq<Timed>)
    requires evs != []
    ensures SomeCrash(evs) <==> evs[0].what.Crash? || SomeCrash(evs[1..])
  {
    assert forall i :: 0 <= i < |evs| - 1 ==> evs[1..][i] == evs[i + 1];
    if SomeCrash(evs) && !evs[0].what.Crash? {
      var i :| 0 <= i < |evs| && evs[i].what.Crash?;
      assert evs[1..][i - 1].what.Crash?;
    }
  }

  /** An update at the time of the last transition adds nothing. */
  lemma UpdateAtOnce(s: State)
    ensures var t := Update(s, s.transitionTime);
            && t.activeSinceLaunch == s.activeSinceLaunch && t.backgroundSinceLaunch == s.backgroundSinceLaunch
            && t.activeSinceCrash == s.activeSinceCrash && t.backgroundSinceCrash == s.backgroundSinceCrash
  {
  }

  /** The durations as they are saved behind an ordered part of a launch. */
  lemma SavedDurations(libc: Libc, start: State, enabledAt: real, evs: seq<Timed>, until: real)
    requires !start.isActive && Ordered(Inactive, evs)
    requires evs == [] || NotifyAll(libc, Reset(libc, start), evs).state.transitionTime == until
    requires evs == [] ==> until == enabledAt
    ensures var first, s := Reset(libc, start).state, NotifyAll(libc, Reset(libc, start), evs).state;
            && s.activeSinceCrash == first.activeSinceCrash + TimeIn(Running, Inactive, enabledAt, evs, until)
            && s.backgroundSinceCrash == first.backgroundSinceCrash + TimeIn(Hidden, Inactive, enabledAt, evs, until)
  {
    hide SaveText, NotifyAll, InStep, Update, TimeIn;
    var w0 := Reset(libc, start);
    var s := NotifyAll(libc, w0, evs).state;
    if evs == [] {
      NoTime(libc, w0, until);
    } else {
      DurationsKept(libc, w0, Inactive, enabledAt, evs, until, 0.0, 0.0);
      UpdateAtOnce(s);
      GrownAlike(w0.state, Update(s, until));
    }
  }

  lemma NoTime(libc: Libc, w: World, at: real)
    ensures NotifyAll(libc, w, []) == w
    ensures TimeIn(Running, Inactive, at, [], at) == 0.0 && TimeIn(Hidden, Inactive, at, [], at) == 0.0
  {
  }

  /** At every point of an ordered launch, however it ends, the next one would start from
      what was saved last, when the application was terminated, crashed or left the
      foreground, or else at the launch: the durations since the crash with exactly the
      times spent active and in the background until then, as the C library rereads them,
      whether a crash came before that, the sessions up to then, and the launches. */
  lemma DurationsCarriedOver(libc: Libc, start: State, enabledAt: real, evs: seq<Timed>, next: real)
    requires Formats(libc) && !start.isActive && Ordered(Inactive, evs)
    requires InInt(start.launchesSinceCrash) && InInt(start.sessionsSinceCrash)
    ensures Ordered(Inactive, evs[..LastSave(evs)])
    ensures var first := Reset(libc, start).state;
            var done := evs[..LastSave(evs)];
            var until := if done == [] then enabledAt else done[|done| - 1].now;
            var s := Initialize(libc, NotifyAll(libc, Reset(libc, start), evs).file, next);
            && s.activeSinceCrash ==
               Reread(libc, first.activeSinceCrash + TimeIn(Running, Inactive, enabledAt, done, until))
            && s.backgroundSinceCrash ==
               Reread(libc, first.backgroundSinceCrash + TimeIn(Hidden, Inactive, enabledAt, done, until))
            && s.crashedLastLaunch == SomeCrash(done)
            && s.sessionsSinceCrash == Int32(first.sessionsSinceCrash + Entered(done))
            && s.launchesSinceCrash == first.launchesSinceCrash
  {
    hide SaveText, NotifyAll, TimeIn, Load, Formats, Reread, Int32, SomeCrash, Entered, Ordered;
    var w0 := Reset(libc, start);
    var k := LastSave(evs);
    var done := evs[..k];
    var until := if done == [] then enabledAt else done[|done| - 1].now;
    OrderedPart(Inactive, evs, k);
    FileIsLastSave(libc, w0, evs);
    NoTime(libc, w0, until);
    var saved := NotifyAll(libc, w0, done).state;
    SavedDurations(libc, start, enabledAt, done, until);
    CountersKept(libc, w0, done);
    LoadRestoresSave(libc, CLEAR.(transitionTime := next), saved);
  }

  lemma GrownAlike(s: State, t: State)
    requires s.activeSinceLaunch == 0.0 && s.backgroundSinceLaunch == 0.0
    ensures InStep(s, t) ==>
              && t.activeSinceCrash == s.activeSinceCrash + t.activeSinceLaunch
              && t.backgroundSinceCrash == s.backgroundSinceCrash + t.backgroundSinceLaunch
  {
  }

  /** A snapshot taken at once would report these totals. */
  predicate RightAt(s: State, now: real, active: real, background: real) {
    Update(s, now).activeSinceLaunch == active && Update(s, now).backgroundSinceLaunch == background
  }

  /** One notification of any kind, in whatever mode it comes in, leaves the durations right
      if and only if it is in life-cycle order or no time has passed since the last
      transition was noted: each of the eight others counts that time twice, for the wrong
      mode, or not at all. */
  lemma OnlyOrderKeepsDurations(libc: Libc, w: World, m: Mode, e: Timed, active: real, background: real)
    requires Accounts(w.state, m, e.now, active, background)
    ensures RightAt(Notify(libc, w, e).state, e.now, active, background) <==>
            NextMode(m, e.what).Some? || e.now == w.state.transitionTime
  {
    hide SaveText;
    match e.what
    case Active(b) => assert Notify(libc, w, e).state == OnActive(w.state, e.now, b);
    case Foreground(b) => assert Notify(libc, w, e).state == OnForeground(w.state, e.now, b);
    case _ =>
  }

  // ------------------------------------------------------------------- launches

  /** A launch: initialised, enabled once, and then notified. */
  datatype Launch = Launch(start: real, evs: seq<Timed>)

  predicate Crashed(l: Launch) {
    SomeCrash(l.evs)
  }

  ghost function RunLaunch(libc: Libc, file: Option<string>, l: Launch): World {
    NotifyAll(libc, Reset(libc, Initialize(libc, file, l.start)), l.evs)
  }

  /** The world at the end of the last of a series of launches of a fresh installation. */
  ghost function RunLaunches(libc: Libc, ls: seq<Launch>): World
    requires ls != []
    decreases |ls|
  {
    var n := |ls| - 1;
    RunLaunch(libc, if n == 0 then None else RunLaunches(libc, ls[..n]).file, ls[n])
  }

  /** How many launches there were since the one that crashed last, or since the first. */
  function LaunchesSinceCrash(ls: seq<Launch>): (n: nat)
    ensures ls != [] ==> 1 <= n
    ensures n <= |ls|
  {
    if ls == [] then 0
    else if |ls| > 1 && Crashed(ls[|ls| - 2]) then 1
    else 1 + LaunchesSinceCrash(ls[..|ls| - 1])
  }

  /** What the file says at any point of a launch with the given launch count. */
  ghost predicate Recorded(libc: Libc, w: World, count: int, crashed: bool) {
    && w.state.launchesSinceCrash == count && w.state.crashedThisLaunch == crashed && InInt(w.state.sessionsSinceCrash)
    && exists s :: w.file == Some(SaveText(libc, s)) && s.launchesSinceCrash == count && s.crashedThisLaunch == crashed
                   && InInt(s.sessionsSinceCrash)
  }

  lemma NotifyKeepsRecord(libc: Libc, w: World, e: Timed, count: int, crashed: bool)
    requires Recorded(libc, w, count, crashed)
    ensures Recorded(libc, Notify(libc, w, e), count, crashed || e.what.Crash?)
  {
    hide SaveText, Int32;
    var r := Notify(libc, w, e);
    var s :| w.file == Some(SaveText(libc, s)) && s.launchesSinceCrash == count && s.crashedThisLaunch == crashed
             && InInt(s.sessionsSinceCrash);
    assert r.file == w.file || r.file == Some(SaveText(libc, r.state));
  }

  lemma {:induction false} LaunchKeepsRecord(libc: Libc, w: World, evs: seq<Timed>, count: int, crashed: bool)
    requires Recorded(libc, w, count, crashed)
    ensures Recorded(libc, NotifyAll(libc, w, evs), count, crashed || exists i :: 0 <= i < |evs| && evs[i].what.Crash?)
    decreases |evs|
  {
    hide Recorded, Notify;
    if evs != [] {
      NotifyKeepsRecord(libc, w, evs[0], count, crashed);
      var now := crashed || evs[0].what.Crash?;
      LaunchKeepsRecord(libc, Notify(libc, w, evs[0]), evs[1..], count, now);
      var rest := evs[1..];
      if exists i :: 0 <= i < |evs| && evs[i].what.Crash? {
        var i :| 0 <= i < |evs| && evs[i].what.Crash?;
        assert i > 0 ==> rest[i - 1].what.Crash?;
      }
      if exists i :: 0 <= i < |rest| && rest[i].what.Crash? {
        var i :| 0 <= i < |rest| && rest[i].what.Crash?;
        assert evs[i + 1].what.Crash?;
      }
    }
  }

  lemma ResetRecords(libc: Libc, s: State)
    requires InInt(s.launchesSinceCrash) && InInt(s.sessionsSinceCrash) && s.launchesSinceCrash < 0x7FFF_FFFF
    ensures Recorded(libc, Reset(libc, s), if s.crashedLastLaunch then 1 else s.launchesSinceCrash + 1, false)
  {
    hide SaveText;
  }

  /** Across launches, with one enable each, launchesSinceLastCrash is the number of
      launches since the last one that recorded a crash, at every point of the last
      launch; the file carries it through the JSON codec. */
  lemma {:induction false} LaunchesCounted(libc: Libc, ls: seq<Launch>)
    requires Formats(libc) && 0 < |ls| < 0x7FFF_FFFF
    ensures Recorded(libc, RunLaunches(libc, ls), LaunchesSinceCrash(ls), Crashed(ls[|ls| - 1]))
    ensures RunLaunches(libc, ls).state.launchesSinceCrash == LaunchesSinceCrash(ls)
    decreases |ls|
  {
    hide Recorded, Load, SaveText, NotifyAll, Reset, Formats;
    var n := |ls| - 1;
    var l := ls[n];
    var file := if n == 0 then None else RunLaunches(libc, ls[..n]).file;
    var s := Initialize(libc, file, l.start);
    if n > 0 {
      LaunchesCounted(libc, ls[..n]);
      assert ls[..n][n - 1] == ls[n - 1];
      FileRestores(libc, RunLaunches(libc, ls[..n]), LaunchesSinceCrash(ls[..n]), Crashed(ls[n - 1]), l.start);
    }
    ResetRecords(libc, s);
    LaunchKeepsRecord(libc, Reset(libc, s), l.evs, if s.crashedLastLaunch then 1 else s.launchesSinceCrash + 1, false);
    assert Recorded(libc, RunLaunches(libc, ls), LaunchesSinceCrash(ls), Crashed(l));
    RecordedState(libc, RunLaunches(libc, ls), LaunchesSinceCrash(ls), Crashed(l));
  }

  // ------------------------------------------------------------------- sessions

  lemma {:induction false} NotificationsKeep(libc: Libc, w: World, evs: seq<Timed>)
    requires 0 <= w.state.sessionsSinceLaunch && w.state.sessionsSinceLaunch + Entered(evs) < 0x8000_0000
    requires 0 <= w.state.sessionsSinceCrash && w.state.sessionsSinceCrash + Entered(evs) < 0x8000_0000
    ensures var s := NotifyAll(libc, w, evs).state;
            && s.sessionsSinceLaunch == w.state.sessionsSinceLaunch + Entered(evs)
            && s.sessionsSinceCrash == w.state.sessionsSinceCrash + Entered(evs)
            && s.crashedLastLaunch == w.state.crashedLastLaunch
    decreases |evs|
  {
    hide SaveText;
    if evs != [] {
      NotificationsKeep(libc, Notify(libc, w, evs[0]), evs[1..]);
    }
  }

  /** A launch counts one session and one more whenever the application comes back to
      the foreground; behind a crash the count since the crash starts afresh, and so do
      the durations since the crash. */
  lemma SessionsCounted(libc: Libc, start: State, evs: seq<Timed>)
    requires 0 <= start.sessionsSinceCrash && start.sessionsSinceCrash + 1 + Entered(evs) < 0x8000_0000
    ensures var w := Reset(libc, start);
            var s := NotifyAll(libc, w, evs).state;
            && s.sessionsSinceLaunch == 1 + Entered(evs)
            && s.sessionsSinceCrash ==
               (if start.crashedLastLaunch then 0 else start.sessionsSinceCrash) + 1 + Entered(evs)
            && w.state.activeSinceCrash == (if start.crashedLastLaunch then 0.0 else start.activeSinceCrash)
            && w.state.backgroundSinceCrash == (if start.crashedLastLaunch then 0.0 else start.backgroundSinceCrash)
  {
    hide SaveText, NotifyAll, Entered;
    NotificationsKeep(libc, Reset(libc, start), evs);
  }

  lemma {:induction false} CrashFlagKept(libc: Libc, w: World, evs: seq<Timed>)
    ensures NotifyAll(libc, w, evs).state.crashedLastLaunch == w.state.crashedLastLaunch
    decreases |evs|
  {
    hide SaveText, Int32;
    if evs != [] {
      CrashFlagKept(libc, Notify(libc, w, evs[0]), evs[1..]);
    }
  }

  /** At every point of a launch the state says whether the launch before it recorded a
      crash. */
  lemma CrashReported(libc: Libc, ls: seq<Launch>)
    requires Formats(libc) && 2 <= |ls| < 0x7FFF_FFFF
    ensures RunLaunches(libc, ls).state.crashedLastLaunch == Crashed(ls[|ls| - 2])
  {
    hide Recorded, Load, SaveText, NotifyAll, Formats, Crashed;
    var n := |ls| - 1;
    var before := RunLaunches(libc, ls[..n]);
    LaunchesCounted(libc, ls[..n]);
    FileRestores(libc, before, LaunchesSinceCrash(ls[..n]), Crashed(ls[n - 1]), ls[n].start);
    CrashFlagKept(libc, Reset(libc, Initialize(libc, before.file, ls[n].start)), ls[n].evs);
  }

  lemma RecordedState(libc: Libc, w: World, count: int, crashed: bool)
    requires Recorded(libc, w, count, crashed)
    ensures w.state.launchesSinceCrash == count
  {
  }

  lemma FileRestores(libc: Libc, w: World, count: int, crashed: bool, now: real)
    requires Formats(libc) && Recorded(libc, w, count, crashed) && InInt(count)
    ensures var s := Initialize(libc, w.file, now);
            && s.launchesSinceCrash == count && s.crashedLastLaunch == crashed && InInt(s.sessionsSinceCrash)
  {
    hide SaveText, Load, Formats;
    var saved :| w.file == Some(SaveText(libc, saved)) && saved.launchesSinceCrash == count
                 && saved.crashedThisLaunch == crashed && InInt(saved.sessionsSinceCrash);
    LoadRestoresSave(libc, CLEAR.(transitionTime := now), saved);
  }

  // ---------------------------------------------------------- the global state

  class Monitor {
    const libc: Libc
    var state: State
    var isEnabled: bool
    /** The state file; none before it is first written. */
    var file: Option<string>

    ghost function Now(): World
      reads this
    {
      World(state, file)
    }

    constructor (libc: Libc, file: Option<string>)
      ensures !isEnabled && this.file == file && this.libc == libc && state == CLEAR
    {
      this.libc := libc;
      this.file := file;
      isEnabled := false;
      state := CLEAR;
    }

    /** The callbacks of decoding the state file. */
    method DecodeFile() returns (fired: seq<Event>)
      requires file.Some?
      ensures fired == Run(OnLoad, BUFFERS, ROOT, InMemory(file.value)).dec.fired
    {
      hide Run;
      var context := new JsonDecodeContext.DecodeContext.InMemory(file.value, 250, 750, OnLoad);
      var _ := context.Decode();
      fired := context.fired;
    }

    method LoadState()
      requires file.Some?
      modifies this`state
      ensures state == Load(libc, old(state), file.value).0
    {
      hide OnEvent, Run;
      var fired := DecodeFile();
      var i := 0;
      assert fired[0..] == fired;
      while i < |fired|
        invariant 0 <= i <= |fired|
        invariant OnEvents(libc, old(state), fired) == OnEvents(libc, state, fired[i..])
      {
        assert fired[i..][0] == fired[i] && fired[i..][1..] == fired[i + 1..];
        state := OnEvent(libc, state, fired[i]);
        i := i + 1;
      }
    }

    method SaveState()
      modifies this`file
      ensures Now() == Saved(libc, state)
    {
      file := Some(SaveText(libc, state));
    }

    /** kfcrashstate_initialize. */
    method InitializeState(now: real)
      modifies this`state
      ensures state == Initialize(libc, file, now)
    {
      state := CLEAR.(transitionTime := now);
      if file.Some? {
        LoadState();
      }
    }

    /** kfcrashstate_reset. */
    method ResetState() returns (done: bool)
      modifies this`state, this`file
      ensures done == isEnabled
      ensures Now() == if isEnabled then Reset(libc, old(state)) else old(Now())
    {
      if !isEnabled {
        return false;
      }
      state := state.(sessionsSinceLaunch := 1, activeSinceLaunch := 0.0, backgroundSinceLaunch := 0.0);
      if state.crashedLastLaunch {
        state := state.(activeSinceCrash := 0.0, backgroundSinceCrash := 0.0,
                        launchesSinceCrash := 0, sessionsSinceCrash := 0);
      }
      state := state.(crashedThisLaunch := false);
      state := state.(launchesSinceCrash := Int32(state.launchesSinceCrash + 1));
      state := state.(sessionsSinceCrash := Int32(state.sessionsSinceCrash + 1));
      state := state.(inForeground := true);
      SaveState();
      return true;
    }

    /** setEnabled: only a change has an effect. */
    method SetEnabled(enable: bool)
      modifies this
      ensures isEnabled == enable
      ensures Now() == if enable && !old(isEnabled) then Reset(libc, old(state)) else old(Now())
    {
      if isEnabled == enable {
        return;
      }
      isEnabled := enable;
      if enable {
        var _ := ResetState();
      }
    }

    method UpdateAppState(now: real)
      modifies this`state
      ensures state == Update(old(state), now)
    {
      var duration := now - state.transitionTime;
      state := state.(transitionTime := now);
      if state.isActive {
        state := state.(activeSinceLaunch := state.activeSinceLaunch + duration);
        state := state.(activeSinceCrash := state.activeSinceCrash + duration);
      } else if !state.inForeground {
        state := state.(backgroundSinceLaunch := state.backgroundSinceLaunch + duration);
        state := state.(backgroundSinceCrash := state.backgroundSinceCrash + duration);
      }
    }

    /** The notify functions and addContextualInfoToEvent. */
    method Receive(e: Timed)
      modifies this`state, this`file
      ensures Now() == if isEnabled then Notify(libc, old(Now()), e) else old(Now())
    {
      if !isEnabled {
        return;
      }
      match e.what {
        case Active(b) => NotifyAppActive(e.now, b);
        case Foreground(b) => NotifyAppInForeground(e.now, b);
        case Terminate =>
          UpdateAppState(e.now);
          SaveState();
        case Crash =>
          UpdateAppState(e.now);
          state := state.(crashedThisLaunch := true);
          SaveState();
        case Snapshot => UpdateAppState(e.now);
      }
    }

    method NotifyAppActive(now: real, isActive: bool)
      modifies this`state
      ensures state == OnActive(old(state), now, isActive)
    {
      state := state.(isActive := isActive);
      if isActive {
        state := state.(transitionTime := now);
      } else {
        var duration := now - state.transitionTime;
        state := state.(activeSinceLaunch := state.activeSinceLaunch + duration);
        state := state.(activeSinceCrash := state.activeSinceCrash + duration);
      }
    }

    method NotifyAppInForeground(now: real, isInForeground: bool)
      modifies this`state, this`file
      ensures Now() == Notify(libc, old(Now()), Timed(now, Foreground(isInForeground)))
    {
      state := state.(inForeground := isInForeground);
      if isInForeground {
        var duration := now - state.transitionTime;
        state := state.(backgroundSinceLaunch := state.backgroundSinceLaunch + duration);
        state := state.(backgroundSinceCrash := state.backgroundSinceCrash + duration);
        state := state.(sessionsSinceCrash := Int32(state.sessionsSinceCrash + 1));
        state := state.(sessionsSinceLaunch := Int32(state.sessionsSinceLaunch + 1));
      } else {
        state := state.(transitionTime := now);
        SaveState();
      }
    }
  }
}
