/** The report fixer: decode, rewrite, encode, twice.  Shown to be a pointwise
    transformation of the report's events. */
module ReportFixer {
  import opened JsonText
  import opened JsonEncoder
  import opened JsonDecoder
  import opened JsonRoundTrip
  import opened JsonDocument
  import opened JsonEvents

  const MAX_DEPTH: nat := 100
  const MAX_NAME_LENGTH: nat := 100

  const DATE_PATHS: seq<seq<string>> :=
    [["", "report", "timestamp"], ["", "recrash_report", "report", "timestamp"]]
  const VERSION_PATHS: seq<seq<string>> :=
    [["", "report", "version"], ["", "recrash_report", "report", "version"]]

  datatype Version = Version(major: int, minor: int, patch: int)

  const NO_VERSION: Version := Version(0, 0, 0)

  /** The C library: UTC date strings from seconds or microseconds, respelling of a
      double, and atoi. */
  datatype Libc = Libc(date: (bool, int) -> string, reformat: (bool, string) -> (bool, string), atoi: string -> int)

  ghost predicate Sane(l: Libc) {
    && (forall micros, n {:trigger l.date(micros, n)} ::
          AllEscapable(l.date(micros, n)) && NUL !in l.date(micros, n))
    && (forall negative, digits {:trigger l.reformat(negative, digits)} ::
          FloatSpelling(l.reformat(negative, digits).1))
  }

  // ---------------------------------------------------------------- callbacks

  /** The fixer's context: the encoder, the names of the open containers as stored,
      and the report version seen last. */
  datatype Fix = Fix(enc: Enc, path: seq<string>, version: Version)

  datatype FixResult = FixResult(fix: Fix, status: Status)

  function Key(name: Option<string>): string {
    if name.Some? then name.value else ""
  }

  /** strncpy and strncmp look at MAX_NAME_LENGTH characters. */
  function Clip(s: string): string {
    if |s| <= MAX_NAME_LENGTH then s else s[..MAX_NAME_LENGTH]
  }

  predicate MatchesPath(path: seq<string>, final: string, target: seq<string>) {
    && |path| < |target|
    && (forall i :: 0 <= i < |path| ==> Clip(path[i]) == Clip(target[i]))
    && Clip(final) == Clip(target[|path|])
  }

  predicate MatchesAPath(path: seq<string>, final: string, targets: seq<seq<string>>) {
    exists i :: 0 <= i < |targets| && MatchesPath(path, final, targets[i])
  }

  /** matchesPath reaches the null entries behind a listed path: all its components match
      and the current depth is not yet used up. */
  predicate ComparesNull(path: seq<string>, target: seq<string>) {
    |target| <= |path| && forall i :: 0 <= i < |target| ==> Clip(path[i]) == Clip(target[i])
  }

  predicate ComparesNullIn(path: seq<string>, final: string, targets: seq<seq<string>>) {
    exists i ::
      && 0 <= i < |targets| && ComparesNull(path, targets[i])
      && forall j :: 0 <= j < i ==> !MatchesPath(path, final, targets[j])
  }

  predicate MatchesMinVersion(v: Version, major: int, minor: int, patch: int) {
    || v.major > major
    || (v.major == major && v.minor > minor)
    || (v.major == major && v.minor == minor && v.patch >= patch)
  }

  function DateText(l: Libc, v: Version, n: int): string {
    l.date(MatchesMinVersion(v, 3, 3, 0), n)
  }

  /** The non-empty pieces between dots, as strtok finds them. */
  function Tokens(s: string, current: string): seq<string> {
    if s == "" then if current == "" then [] else [current]
    else if s[0] != '.' then Tokens(s[1..], current + [s[0]])
    else if current == "" then Tokens(s[1..], "")
    else [current] + Tokens(s[1..], "")
  }

  function ParseVersion(l: Libc, s: string): Version {
    var parts := Tokens(s, "");
    Version(if |parts| > 0 then l.atoi(parts[0]) else 0,
            if |parts| > 1 then l.atoi(parts[1]) else 0,
            if |parts| > 2 then l.atoi(parts[2]) else 0)
  }

  function Rewritten(l: Libc, f: Fix, name: Option<string>, v: Value): Value {
    match v
    case IntV(n) => if MatchesAPath(f.path, Key(name), DATE_PATHS) then StrV(DateText(l, f.version, n)) else v
    case FloatV(negative, digits) => var r := l.reformat(negative, digits); FloatV(r.0, r.1)
    case _ => v
  }

  function OnEvent(l: Libc, f: Fix, ev: Event): FixResult {
    match ev
    case Scalar(name, v) =>
      var r := Call(f.enc, Scalar(name, Rewritten(l, f, name, v)));
      var version :=
        if v.StrV? && MatchesAPath(f.path, Key(name), VERSION_PATHS) then ParseVersion(l, v.s) else f.version;
      FixResult(f.(enc := r.enc, version := version), r.status)
    case Begin(_, name) =>
      var r := Call(f.enc, ev);
      if |f.path| >= MAX_DEPTH then FixResult(f.(enc := r.enc), DataTooLong)
      else FixResult(f.(enc := r.enc, path := f.path + [Clip(Key(name))]), r.status)
    case End =>
      var r := Call(f.enc, ev);
      FixResult(f.(enc := r.enc, path := if |f.path| > 0 then f.path[..|f.path| - 1] else []), r.status)
  }

  /** The callback compares a name with a null pointer. */
  predicate PassesNull(f: Fix, ev: Event) {
    && ev.Scalar?
    && ((ev.value.IntV? && ComparesNullIn(f.path, Key(ev.name), DATE_PATHS))
        || (ev.value.StrV? && ComparesNullIn(f.path, Key(ev.name), VERSION_PATHS)))
  }

  /** The context after a history of callbacks, up to the first that fails. */
  function OnEvents(l: Libc, f: Fix, evs: seq<Event>): FixResult {
    if evs == [] then FixResult(f, Ok)
    else
      var before := OnEvents(l, f, evs[..|evs| - 1]);
      if before.status != Ok then before else OnEvent(l, before.fix, evs[|evs| - 1])
  }

  // ------------------------------------------------------------------- passes

  /** A string buffer of 10000 bytes, a quarter of it for names. */
  const LIMITS: Limits := Limits(2500, 7500)

  /** A pass that compares with a null pointer has no defined result. */
  datatype PassResult = NoReport | FixedReport(text: string, version: Version) | Undefined

  function Start(report: string, version: Version): Fix {
    Fix(BeginEncode(true, Some(|report| * 3 / 2)), [], version)
  }

  ghost function Callback(l: Libc, f: Fix): Handler {
    evs => OnEvents(l, f, evs).status
  }

  ghost function Decoding(l: Libc, report: string, version: Version): Outcome {
    Run(Callback(l, Start(report, version)), LIMITS, ROOT, InMemory(report))
  }

  /** One of the callbacks made compares with a null pointer. */
  ghost predicate MeetsNull(l: Libc, start: Fix, fired: seq<Event>) {
    exists i :: 0 <= i < |fired| && PassesNull(OnEvents(l, start, fired[..i]).fix, fired[i])
  }

  /** kscrf_fixupCrashReportWithVersionComponents. */
  ghost function FixPass(l: Libc, report: string, version: Version): PassResult {
    var decoded := Decoding(l, report, version);
    if MeetsNull(l, Start(report, version), decoded.dec.fired) then Undefined
    else if decoded.status != Ok then NoReport
    else
      var f := OnEvents(l, Start(report, version), decoded.dec.fired).fix;
      var closed := EndEncode(f.enc);
      if closed.status != Ok then NoReport else FixedReport(closed.enc.out, f.version)
  }

  /** kscrf_fixupCrashReport: the first pass only finds the version. */
  ghost function FixReport(l: Libc, report: string): PassResult {
    match FixPass(l, report, NO_VERSION)
    case FixedReport(_, version) => FixPass(l, report, version)
    case other => other
  }

  // ------------------------------------------------- the fixer seen from outside

  /** The names of the containers open after a sequence of events, outermost first. */
  function OpenNames(evs: seq<Event>): seq<string> {
    if evs == [] then []
    else
      var names := OpenNames(evs[..|evs| - 1]);
      match evs[|evs| - 1]
      case Begin(_, name) => names + [Key(name)]
      case End => if |names| > 0 then names[..|names| - 1] else []
      case Scalar(_, _) => names
  }

  /** A path is dated or carries the version if it is on the way to a listed path. */
  predicate OnTheWay(path: seq<string>, targets: seq<seq<string>>) {
    exists i :: 0 <= i < |targets| && path <= targets[i]
  }

  /** The innermost open container is the one at a listed path or inside it. */
  predicate InsideListed(names: seq<string>, targets: seq<seq<string>>) {
    exists i :: 0 <= i < |targets| && targets[i] <= names
  }

  /** An integer inside a container at a timestamp path, or a string inside one at a
      version path. */
  predicate NullCompared(evs: seq<Event>, i: nat)
    requires i < |evs|
  {
    && evs[i].Scalar?
    && ((evs[i].value.IntV? && InsideListed(OpenNames(evs[..i]), DATE_PATHS))
        || (evs[i].value.StrV? && InsideListed(OpenNames(evs[..i]), VERSION_PATHS)))
  }

  /** No container is begun inside MAX_DEPTH others. */
  predicate NestedWithin(evs: seq<Event>, depth: nat) {
    forall i :: 0 <= i < |evs| && evs[i].Begin? ==> |OpenNames(evs[..i])| < depth
  }

  predicate IsVersion(evs: seq<Event>, i: nat)
    requires i < |evs|
  {
    evs[i].Scalar? && evs[i].value.StrV? && OnTheWay(OpenNames(evs[..i]) + [Key(evs[i].name)], VERSION_PATHS)
  }

  predicate IsDate(evs: seq<Event>, i: nat)
    requires i < |evs|
  {
    evs[i].Scalar? && evs[i].value.IntV? && OnTheWay(OpenNames(evs[..i]) + [Key(evs[i].name)], DATE_PATHS)
  }

  /** The version given last in document order, or a default if none is. */
  function LastVersion(l: Libc, evs: seq<Event>, default: Version): Version {
    if evs == [] then default
    else if IsVersion(evs, |evs| - 1) then ParseVersion(l, evs[|evs| - 1].value.s)
    else LastVersion(l, evs[..|evs| - 1], default)
  }

  function FixedEvent(l: Libc, evs: seq<Event>, i: nat, default: Version): Event
    requires i < |evs|
  {
    if IsDate(evs, i) then
      Scalar(evs[i].name, StrV(DateText(l, LastVersion(l, evs[..i], default), evs[i].value.i)))
    else if evs[i].Scalar? && evs[i].value.FloatV? then
      var r := l.reformat(evs[i].value.negative, evs[i].value.digits);
      Scalar(evs[i].name, FloatV(r.0, r.1))
    else evs[i]
  }

  function FixedEvents(l: Libc, evs: seq<Event>, default: Version): (r: seq<Event>)
    ensures |r| == |evs|
  {
    seq(|evs|, i requires 0 <= i < |evs| => FixedEvent(l, evs, i, default))
  }

  // --------------------------------------------------------------- refinement

  lemma ClippedPath(path: seq<string>, names: seq<string>, final: string, target: seq<string>)
    requires |path| == |names| && forall i :: 0 <= i < |path| ==> path[i] == Clip(names[i])
    requires forall i :: 0 <= i < |target| ==> |target[i]| < MAX_NAME_LENGTH
    ensures MatchesPath(path, final, target) <==> names + [final] <= target
  {
    var full := names + [final];
    if MatchesPath(path, final, target) {
      forall i | 0 <= i < |full| ensures full[i] == target[i] {
        if i < |path| {
          assert Clip(path[i]) == Clip(target[i]) && Clip(Clip(names[i])) == Clip(names[i]);
        }
      }
    }
    if full <= target {
      forall i | 0 <= i < |path| ensures Clip(path[i]) == Clip(target[i]) {
        assert full[i] == target[i] == names[i];
      }
      assert full[|path|] == target[|path|];
    }
  }

  predicate ShortNames(targets: seq<seq<string>>) {
    forall i, j :: 0 <= i < |targets| && 0 <= j < |targets[i]| ==> |targets[i][j]| < MAX_NAME_LENGTH
  }

  lemma ClippedPaths(path: seq<string>, names: seq<string>, final: string, targets: seq<seq<string>>)
    requires |path| == |names| && forall i :: 0 <= i < |path| ==> path[i] == Clip(names[i])
    requires ShortNames(targets)
    ensures MatchesAPath(path, final, targets) <==> OnTheWay(names + [final], targets)
  {
    forall i | 0 <= i < |targets|
      ensures MatchesPath(path, final, targets[i]) <==> names + [final] <= targets[i]
    {
      ClippedPath(path, names, final, targets[i]);
    }
  }

  /** The stored path is the clipped list of open names. */
  predicate PathStored(path: seq<string>, names: seq<string>) {
    |path| == |names| && forall i :: 0 <= i < |path| ==> path[i] == Clip(names[i])
  }

  lemma FixedEventsAppend(l: Libc, evs: seq<Event>, ev: Event, default: Version)
    ensures FixedEvents(l, evs + [ev], default) ==
            FixedEvents(l, evs, default) + [FixedEvent(l, evs + [ev], |evs|, default)]
  {
    var all := evs + [ev];
    forall i | 0 <= i < |evs| ensures FixedEvent(l, all, i, default) == FixedEvent(l, evs, i, default) {
      assert all[..i] == evs[..i];
    }
  }

  /** One callback, seen from outside. */
  lemma CallbackTracks(l: Libc, f: Fix, evs: seq<Event>, ev: Event, default: Version)
    requires PathStored(f.path, OpenNames(evs)) && f.version == LastVersion(l, evs, default)
    ensures var r := OnEvent(l, f, ev);
            var call := Call(f.enc, FixedEvent(l, evs + [ev], |evs|, default));
            && (r.status == Ok <==> call.status == Ok && (ev.Begin? ==> |OpenNames(evs)| < MAX_DEPTH))
            && (r.status == Ok ==>
                  && call.enc == r.fix.enc
                  && PathStored(r.fix.path, OpenNames(evs + [ev]))
                  && r.fix.version == LastVersion(l, evs + [ev], default))
  {
    hide Call, ParseVersion, DateText, Clip, MatchesAPath, OnTheWay;
    var all := evs + [ev];
    assert all[..|evs|] == evs;
    if ev.Scalar? {
      ClippedPaths(f.path, OpenNames(evs), Key(ev.name), DATE_PATHS);
      ClippedPaths(f.path, OpenNames(evs), Key(ev.name), VERSION_PATHS);
    }
  }

  lemma NestedAppend(evs: seq<Event>, ev: Event, depth: nat)
    ensures NestedWithin(evs + [ev], depth) <==>
            NestedWithin(evs, depth) && (ev.Begin? ==> |OpenNames(evs)| < depth)
  {
    hide OpenNames;
    var all := evs + [ev];
    assert all[..|evs|] == evs && all[|evs|] == ev;
    assert forall i :: 0 <= i < |evs| ==> all[..i] == evs[..i] && all[i] == evs[i];
    if NestedWithin(all, depth) {
      assert forall i :: 0 <= i < |evs| && evs[i].Begin? ==> |OpenNames(all[..i])| < depth;
    }
  }

  /** The fixer's callbacks succeed exactly if the encoder accepts the transformed events
      and no more than 100 containers nest.  Then the stored path is the list of open
      containers, the version is the last one seen, and the encoder is where the
      transformed events take it. */
  lemma {:induction false} FixerTracks(l: Libc, start: Fix, evs: seq<Event>)
    requires start.path == []
    ensures var r, calls := OnEvents(l, start, evs), Calls(start.enc, FixedEvents(l, evs, start.version));
            && (r.status == Ok <==> calls.status == Ok && NestedWithin(evs, MAX_DEPTH))
            && (r.status == Ok ==>
                  && PathStored(r.fix.path, OpenNames(evs))
                  && r.fix.version == LastVersion(l, evs, start.version)
                  && calls.enc == r.fix.enc)
    decreases |evs|
  {
    hide OnEvent, FixedEvent, Call, PathStored, NestedWithin;
    if evs == [] {
      assert PathStored([], []) && NestedWithin(evs, MAX_DEPTH) by { EmptyPath(); }
    } else {
      var n := |evs| - 1;
      var before := evs[..n];
      FixerTracks(l, start, before);
      assert evs == before + [evs[n]];
      NestedAppend(before, evs[n], MAX_DEPTH);
      FixedEventsAppend(l, before, evs[n], start.version);
      var fixed := FixedEvent(l, evs, n, start.version);
      CallsSplit(start.enc, FixedEvents(l, before, start.version), [fixed]);
      if OnEvents(l, start, before).status == Ok {
        var f := OnEvents(l, start, before).fix;
        CallbackTracks(l, f, before, evs[n], start.version);
        assert Calls(f.enc, [fixed]) == Call(f.enc, fixed);
      }
    }
  }

  lemma EmptyPath()
    ensures PathStored([], []) && NestedWithin([], MAX_DEPTH)
  {
  }

  lemma {:induction false} PrefixSucceeds(l: Libc, start: Fix, evs: seq<Event>, n: nat)
    requires n <= |evs| && OnEvents(l, start, evs).status == Ok
    ensures OnEvents(l, start, evs[..n]).status == Ok
    decreases |evs|
  {
    hide OnEvent;
    if n < |evs| {
      assert evs[..|evs| - 1][..n] == evs[..n];
      PrefixSucceeds(l, start, evs[..|evs| - 1], n);
    } else {
      assert evs[..n] == evs;
    }
  }

  // ------------------------------------------------ when a pass has a result

  /** The text of the transformed events. */
  ghost function FixedText(l: Libc, evs: seq<Event>, default: Version): string {
    AfterCalls(BeginEncode(true, None), FixedEvents(l, evs, default)).out
  }

  /** What the fixer can rewrite: names and strings that can be spelled, at most 100
      containers inside each other, and a result of at most one and a half times the
      length of the report. */
  ghost predicate Rewritable(l: Libc, report: string, evs: seq<Event>, default: Version) {
    && (forall i :: 0 <= i < |evs| ==> Clean(evs[i]))
    && NestedWithin(evs, MAX_DEPTH)
    && |FixedText(l, evs, default)| <= |report| * 3 / 2
  }

  lemma FixedIsClean(l: Libc, evs: seq<Event>, default: Version)
    requires Sane(l)
    ensures (forall i :: 0 <= i < |evs| ==> Clean(FixedEvents(l, evs, default)[i])) <==>
            (forall i :: 0 <= i < |evs| ==> Clean(evs[i]))
    ensures forall i :: 0 <= i < |evs| ==> SameFrame(evs[i], FixedEvents(l, evs, default)[i])
  {
    hide Clean, FixedEvent, Sane, SameFrame;
    forall i | 0 <= i < |evs|
      ensures Clean(FixedEvent(l, evs, i, default)) <==> Clean(evs[i])
      ensures SameFrame(evs[i], FixedEvent(l, evs, i, default))
    {
      FixedEventIsClean(l, evs, i, default);
    }
    assert forall i :: 0 <= i < |evs| ==> FixedEvents(l, evs, default)[i] == FixedEvent(l, evs, i, default);
  }

  lemma FixedEventIsClean(l: Libc, evs: seq<Event>, i: nat, default: Version)
    requires Sane(l) && i < |evs|
    ensures Clean(FixedEvent(l, evs, i, default)) <==> Clean(evs[i])
    ensures SameFrame(evs[i], FixedEvent(l, evs, i, default))
  {
    hide AllEscapable, LastVersion, OpenNames, OnTheWay;
    if IsDate(evs, i) {
      var micros := MatchesMinVersion(LastVersion(l, evs[..i], default), 3, 3, 0);
      assert AllEscapable(l.date(micros, evs[i].value.i));
    }
  }

  /** The callbacks of a pass over events that a decoder can report. */
  lemma CallbacksSucceedExactly(l: Libc, report: string, evs: seq<Event>, version: Version)
    requires Sane(l) && Follows(ROOT, evs)
    ensures var r := OnEvents(l, Start(report, version), evs);
            && (r.status == Ok <==> Rewritable(l, report, evs, version))
            && (r.status == Ok ==>
                  && r.fix.enc == AfterCalls(Start(report, version).enc, FixedEvents(l, evs, version))
                  && r.fix.enc.out == FixedText(l, evs, version)
                  && r.fix.enc.stack == AdvanceAll(ROOT, evs).stack
                  && r.fix.version == LastVersion(l, evs, version)
                  && PathStored(r.fix.path, OpenNames(evs)))
  {
    hide Sane, Follows, AdvanceAll, OnEvents, LastVersion, FixedEvents, Calls, AfterCalls, PathStored, NestedWithin,
         Clean, SameFrame;
    var start := Start(report, version);
    var fixed := FixedEvents(l, evs, version);
    FixerTracks(l, start, evs);
    FixedIsClean(l, evs, version);
    SameShape(ROOT, evs, fixed);
    AcceptedExactly(start.enc, ROOT, fixed);
    LimitIrrelevant(BeginEncode(true, None), start.enc, fixed);
  }

  /** The callbacks made in a pass, and the events of the report. */
  lemma PassRun(l: Libc, report: string, version: Version) returns (evs: seq<Event>, n: nat)
    requires Sane(l)
    ensures evs == Decode(LIMITS, report).dec.fired && Follows(ROOT, evs) && n <= |evs|
    ensures Decoding(l, report, version).dec.fired == evs[..n]
    ensures forall m :: 0 <= m < n ==> OnEvents(l, Start(report, version), evs[..m]).status == Ok
    ensures if OnEvents(l, Start(report, version), evs[..n]).status == Ok
            then n == |evs| && Decoding(l, report, version) == Decode(LIMITS, report)
            else Decoding(l, report, version).status != Ok
    ensures Decode(LIMITS, report).status == Ok ==> evs != [] && !Running(AdvanceAll(ROOT, evs))
    ensures forall i :: 0 <= i < |evs| ==> DecodedEvent(evs[i])
  {
    hide Run, Follows, AdvanceAll, OnEvents, DecodedEvent;
    var h := Callback(l, Start(report, version));
    evs := RunReports(AlwaysOk, LIMITS, ROOT, InMemory(report));
    assert [] + evs == evs;
    n := CallbacksMade(h, LIMITS, ROOT, InMemory(report));
    assert evs[..0] == [] && OnEvents(l, Start(report, version), []).status == Ok
           by { NoCallback(l, Start(report, version)); }
  }

  lemma NoCallback(l: Libc, f: Fix)
    ensures OnEvents(l, f, []) == FixResult(f, Ok)
  {
  }

  lemma NullIn(path: seq<string>, names: seq<string>, final: string, targets: seq<seq<string>>)
    requires PathStored(path, names) && ShortNames(targets)
    requires |targets| == 2 && |targets[0]| <= |targets[1]|
    ensures ComparesNullIn(path, final, targets) <==> InsideListed(names, targets)
  {
    hide PathStored;
    forall i | 0 <= i < |targets|
      ensures ComparesNull(path, targets[i]) <==> targets[i] <= names
    {
      NullBehind(path, names, targets[i]);
    }
    if ComparesNull(path, targets[1]) {
      assert !MatchesPath(path, final, targets[0]);
    }
  }

  lemma ListsAreShort()
    ensures ShortNames(DATE_PATHS) && ShortNames(VERSION_PATHS)
  {
  }

  /** A callback compares with a null pointer exactly for such an event. */
  lemma PassesNullExactly(f: Fix, evs: seq<Event>, i: nat)
    requires i < |evs| && PathStored(f.path, OpenNames(evs[..i]))
    ensures PassesNull(f, evs[i]) <==> NullCompared(evs, i)
  {
    hide ComparesNullIn, InsideListed, PathStored, ShortNames, OpenNames;
    if evs[i].Scalar? {
      ListsAreShort();
      NullIn(f.path, OpenNames(evs[..i]), Key(evs[i].name), DATE_PATHS);
      NullIn(f.path, OpenNames(evs[..i]), Key(evs[i].name), VERSION_PATHS);
    }
  }

  lemma NullBehind(path: seq<string>, names: seq<string>, target: seq<string>)
    requires PathStored(path, names) && forall i :: 0 <= i < |target| ==> |target[i]| < MAX_NAME_LENGTH
    ensures ComparesNull(path, target) <==> target <= names
  {
    if ComparesNull(path, target) {
      forall i | 0 <= i < |target| ensures names[i] == target[i] {
        assert Clip(path[i]) == Clip(target[i]) && Clip(Clip(names[i])) == Clip(names[i]);
      }
    }
    if target <= names {
      forall i | 0 <= i < |target| ensures Clip(path[i]) == Clip(target[i]) {
        assert names[i] == target[i];
      }
    }
  }

  lemma NullSeen(l: Libc, report: string, version: Version, evs: seq<Event>, i: nat)
    requires Sane(l) && i < |evs| && Follows(ROOT, evs[..i])
    requires OnEvents(l, Start(report, version), evs[..i]).status == Ok
    ensures PassesNull(OnEvents(l, Start(report, version), evs[..i]).fix, evs[i]) <==> NullCompared(evs, i)
  {
    hide PassesNull, NullCompared, OnEvents, Follows, PathStored, Rewritable, FixedEvents, AfterCalls, Sane,
         OpenNames, FixedText, LastVersion, AdvanceAll, Start;
    CallbacksSucceedExactly(l, report, evs[..i], version);
    PassesNullExactly(OnEvents(l, Start(report, version), evs[..i]).fix, evs, i);
  }

  lemma {:induction false} FollowsUpTo(k: Control, evs: seq<Event>, n: nat)
    requires n <= |evs| && Follows(k, evs)
    ensures Follows(k, evs[..n])
    decreases |evs|
  {
    hide Shaped, Advance;
    if n > 0 {
      assert evs[..n][1..] == evs[1..][..n - 1];
      FollowsUpTo(Advance(k, evs[0]), evs[1..], n - 1);
    }
  }

  /** The comparisons with null pointers among the callbacks made. */
  lemma NullsMet(l: Libc, report: string, version: Version, evs: seq<Event>, n: nat)
    requires Sane(l) && Follows(ROOT, evs) && n <= |evs|
    requires forall m :: 0 <= m < n ==> OnEvents(l, Start(report, version), evs[..m]).status == Ok
    ensures MeetsNull(l, Start(report, version), evs[..n]) <==> exists i :: 0 <= i < n && NullCompared(evs, i)
  {
    hide PassesNull, NullCompared, OnEvents, Follows, Sane;
    var start := Start(report, version);
    forall i | 0 <= i < n
      ensures evs[..n][..i] == evs[..i] && evs[..n][i] == evs[i]
      ensures PassesNull(OnEvents(l, start, evs[..i]).fix, evs[i]) <==> NullCompared(evs, i)
    {
      FollowsUpTo(ROOT, evs, i);
      NullSeen(l, report, version, evs, i);
    }
    if i :| 0 <= i < n && NullCompared(evs, i) {
      assert PassesNull(OnEvents(l, start, evs[..n][..i]).fix, evs[..n][i]);
    }
  }

  /** A pass compares with a null pointer if and only if the report has an integer inside
      a container at a timestamp path, or a string inside one at a version path, and
      everything before it can be rewritten. */
  lemma PassUndefined(l: Libc, report: string, version: Version)
    requires Sane(l)
    ensures var evs := Decode(LIMITS, report).dec.fired;
            FixPass(l, report, version).Undefined? <==>
            exists i :: 0 <= i < |evs| && NullCompared(evs, i) && Rewritable(l, report, evs[..i], version)
  {
    hide Decode, Decoding, OnEvents, NullCompared, Rewritable, Sane, MeetsNull, EndEncode, Follows, AdvanceAll,
         DecodedEvent, Start;
    var evs, n := PassRun(l, report, version);
    NullsMet(l, report, version, evs, n);
    forall i | 0 <= i < |evs|
      ensures Rewritable(l, report, evs[..i], version) <==>
              i < n || OnEvents(l, Start(report, version), evs[..i]).status == Ok
      ensures OnEvents(l, Start(report, version), evs[..i]).status == Ok ==> i < n
    {
      FollowsUpTo(ROOT, evs, i);
      CallbacksSucceedExactly(l, report, evs[..i], version);
      assert i >= n ==> evs[..i][..n] == evs[..n];
      if i >= n && OnEvents(l, Start(report, version), evs[..i]).status == Ok {
        PrefixSucceeds(l, Start(report, version), evs[..i], n);
      }
    }
  }

  /** A pass returns a report if and only if the text decodes, nothing in it makes the
      fixer compare with a null pointer, and all of it can be rewritten; what it returns
      is the text of the transformed events, with the last version given. */
  lemma PassSucceeds(l: Libc, report: string, version: Version)
    requires Sane(l)
    ensures var r, evs := FixPass(l, report, version), Decode(LIMITS, report).dec.fired;
            && (r.FixedReport? <==>
                  && Decode(LIMITS, report).status == Ok
                  && (forall i :: 0 <= i < |evs| ==> !NullCompared(evs, i))
                  && Rewritable(l, report, evs, version))
            && (r.FixedReport? ==> r.text == FixedText(l, evs, version) && r.version == LastVersion(l, evs, version))
  {
    hide Decode, Decoding, OnEvents, NullCompared, Rewritable, Sane, MeetsNull, Follows, AdvanceAll, DecodedEvent,
         FixedText, LastVersion, FixedEvents, AfterCalls, PathStored, Start;
    var evs, n := PassRun(l, report, version);
    var start := Start(report, version);
    NullsMet(l, report, version, evs, n);
    CallbacksSucceedExactly(l, report, evs, version);
    if n < |evs| && OnEvents(l, start, evs).status == Ok {
      PrefixSucceeds(l, start, evs, n);
    }
    assert n == |evs| ==> evs[..n] == evs;
    if n == |evs| && OnEvents(l, start, evs).status == Ok && Decode(LIMITS, report).status == Ok {
      assert OnEvents(l, start, evs).fix.enc.stack == [] by { Finishes(AdvanceAll(ROOT, evs)); }
      NothingOpen(OnEvents(l, start, evs).fix.enc);
    }
  }

  lemma Finishes(k: Control)
    ensures !Running(k) ==> k.stack == []
  {
  }

  lemma NothingOpen(e: Enc)
    requires e.stack == []
    ensures EndEncode(e) == EncResult(e, Ok)
  {
  }

  // ------------------------------------------------- what the result decodes to

  lemma FixedIsWritable(l: Libc, evs: seq<Event>, default: Version)
    requires Sane(l) && forall i :: 0 <= i < |evs| ==> DecodedEvent(evs[i])
    ensures WritableEvents(FixedEvents(l, evs, default))
  {
    hide DecodedEvent, FixedEvent, Writable, Sane;
    forall i | 0 <= i < |evs|
      ensures FixedEvent(l, evs, i, default).Scalar? ==> Writable(FixedEvent(l, evs, i, default).value)
    {
      FixedEventIsWritable(l, evs, i, default);
    }
  }

  lemma FixedEventIsWritable(l: Libc, evs: seq<Event>, i: nat, default: Version)
    requires Sane(l) && i < |evs| && DecodedEvent(evs[i])
    ensures FixedEvent(l, evs, i, default).Scalar? ==> Writable(FixedEvent(l, evs, i, default).value)
  {
    var ev := evs[i];
    if IsDate(evs, i) {
      var v := LastVersion(l, evs[..i], default);
      var micros := MatchesMinVersion(v, 3, 3, 0);
      assert NUL !in l.date(micros, ev.value.i);
    } else if ev.Scalar? && ev.value.FloatV? {
      assert FloatSpelling(l.reformat(ev.value.negative, ev.value.digits).1);
    }
  }

  lemma {:induction false} NestingIsShallow(done: seq<Event>, evs: seq<Event>)
    requires NestedWithin(done + evs, MAX_DEPTH)
    ensures Shallow(|OpenNames(done)|, evs)
    decreases |evs|
  {
    hide Key;
    if evs != [] {
      var all := done + evs;
      assert all[..|done|] == done && all[|done|] == evs[0];
      var more := done + [evs[0]];
      assert more[..|more| - 1] == done && more[|more| - 1] == evs[0];
      assert |OpenNames(more)| == DepthBehind(|OpenNames(done)|, evs[0]);
      assert more + evs[1..] == all;
      NestingIsShallow(more, evs[1..]);
    }
  }

  lemma {:induction false} SameShallow(depth: nat, a: seq<Event>, b: seq<Event>)
    requires |a| == |b| && (forall i :: 0 <= i < |a| ==> SameFrame(a[i], b[i])) && Shallow(depth, a)
    ensures Shallow(depth, b)
    decreases |a|
  {
    if a != [] {
      assert SameFrame(a[0], b[0]);
      SameShallow(DepthBehind(depth, a[0]), a[1..], b[1..]);
    }
  }

  /** A complete event sequence that the encoder accepted needs no closing and decodes
      to itself. */
  lemma EncodedDecodes(c: Limits, evs: seq<Event>, text: string)
    requires evs != [] && evs[0].Begin? && Follows(ROOT, evs) && !Running(AdvanceAll(ROOT, evs))
    requires WritableEvents(evs) && Shallow(0, evs) && forall i :: 0 <= i < |evs| ==> Clean(evs[i])
    requires text == AfterCalls(BeginEncode(true, None), evs).out && c.nameLen > |text| && c.stringLen > |text|
    ensures Decode(c, text).status == Ok && Decode(c, text).dec.fired == evs
  {
    hide Follows, AdvanceAll, WritableEvents, LegalCalls, AfterCalls, ReportedAll, Run, Calls, Shallow, Clean,
         SeparatedFrom, ControlOf;
    var begin := BeginEncode(true, None);
    var done := AfterCalls(begin, evs);
    AcceptedExactly(begin, ROOT, evs);
    AcceptedIsLegal(c, begin, ROOT, evs);
    Finishes(AdvanceAll(ROOT, evs));
    ClosedByEnd(c, begin, evs);
    KeepsStep(c, text, begin, evs, []);
    assert [] + evs == evs;
    Controls(done);
    Finished(c, text, evs);
  }

  lemma Controls(done: Enc)
    requires done.stack == [] && !done.first
    ensures ControlOf(BeginEncode(true, None)) == ROOT && ControlOf(done) == After([])
  {
  }

  /** One pass over a report whose root is a container: the fixed text decodes to the
      transformed events. */
  lemma PassTransforms(l: Libc, report: string, version: Version, c: Limits)
    requires Sane(l) && FixPass(l, report, version).FixedReport?
    requires c.nameLen > |FixPass(l, report, version).text| && c.stringLen > |FixPass(l, report, version).text|
    ensures var evs := Decode(LIMITS, report).dec.fired;
            && evs != []
            && (evs[0].Begin? ==>
                  var again := Decode(c, FixPass(l, report, version).text);
                  again.status == Ok && again.dec.fired == FixedEvents(l, evs, version))
  {
    hide Decode, FixPass, OnEvents, LastVersion, FixedEvents, DecodedEvent, AfterCalls, Sane, Clean, Follows,
         AdvanceAll, SameFrame, NestedWithin, Shallow, Decoding, NullCompared, WritableEvents;
    var evs, n := PassRun(l, report, version);
    PassSucceeds(l, report, version);
    if evs[0].Begin? {
      var fixed := FixedEvents(l, evs, version);
      FixedIsWritable(l, evs, version);
      FixedIsClean(l, evs, version);
      SameShape(ROOT, evs, fixed);
      assert [] + evs == evs;
      NestingIsShallow([], evs);
      SameShallow(0, evs, fixed);
      assert fixed[0].Begin? by { BeginsAlike(evs[0], fixed[0]); }
      EncodedDecodes(c, fixed, FixedText(l, evs, version));
    }
  }

  lemma BeginsAlike(a: Event, b: Event)
    requires SameFrame(a, b) && a.Begin?
    ensures b.Begin?
  {
  }

  /** The fixer returns a report if and only if the text decodes, nothing in it makes the
      fixer compare with a null pointer, and both passes can rewrite it; the second pass
      starts from the last version the report gives. */
  lemma FixerSucceeds(l: Libc, report: string)
    requires Sane(l)
    ensures var r, evs := FixReport(l, report), Decode(LIMITS, report).dec.fired;
            var version := LastVersion(l, evs, NO_VERSION);
            && (r.FixedReport? <==>
                  && Decode(LIMITS, report).status == Ok
                  && (forall i :: 0 <= i < |evs| ==> !NullCompared(evs, i))
                  && Rewritable(l, report, evs, NO_VERSION) && Rewritable(l, report, evs, version))
            && (r.FixedReport? ==> r.text == FixedText(l, evs, version))
  {
    hide Decode, FixPass, LastVersion, NullCompared, Rewritable, FixedText, Sane;
    PassSucceeds(l, report, NO_VERSION);
    PassSucceeds(l, report, LastVersion(l, Decode(LIMITS, report).dec.fired, NO_VERSION));
  }

  /** The fixer as a whole: if it returns a report for a container-rooted document, that
      report's events are the document's events, except that dated integers have become
      date strings (and doubles are respelled); each date uses the version seen last
      before it, or the document's last version if none precedes it. */
  lemma FixerTransforms(l: Libc, report: string, c: Limits)
    requires Sane(l) && FixReport(l, report).FixedReport?
    requires c.nameLen > |FixReport(l, report).text| && c.stringLen > |FixReport(l, report).text|
    ensures var evs := Decode(LIMITS, report).dec.fired;
            && evs != []
            && (evs[0].Begin? ==>
                  var again := Decode(c, FixReport(l, report).text);
                  again.status == Ok && again.dec.fired == FixedEvents(l, evs, LastVersion(l, evs, NO_VERSION)))
  {
    hide FixPass, Sane, Decode, FixedEvents, LastVersion, NullCompared, Rewritable, FixedText;
    PassSucceeds(l, report, NO_VERSION);
    PassTransforms(l, report, FixPass(l, report, NO_VERSION).version, c);
  }

  // --------------------------------- which integers and strings are really meant

  function PathOf(evs: seq<Event>, i: nat): seq<string>
    requires i < |evs| && !evs[i].End?
  {
    OpenNames(evs[..i]) + [Key(evs[i].name)]
  }

  /** Not a listed path, but on the way to one. */
  predicate StrayPath(path: seq<string>) {
    path == [""] || path == ["", "report"] || path == ["", "recrash_report"] || path == ["", "recrash_report", "report"]
  }

  /** An integer that is not a timestamp but sits on the way to one. */
  predicate StrayInteger(evs: seq<Event>, i: nat)
    requires i < |evs|
  {
    evs[i].Scalar? && evs[i].value.IntV? && StrayPath(PathOf(evs, i))
  }

  /** A string that is not a version but sits on the way to one. */
  predicate StrayString(evs: seq<Event>, i: nat)
    requires i < |evs|
  {
    evs[i].Scalar? && evs[i].value.StrV? && StrayPath(PathOf(evs, i))
  }

  /** The two listed paths that end in a field. */
  function Listed(field: string): seq<seq<string>> {
    [["", "report", field], ["", "recrash_report", "report", field]]
  }

  lemma ListedPaths(path: seq<string>, field: string)
    requires path != []
    ensures OnTheWay(path, Listed(field)) <==> path in Listed(field) || StrayPath(path)
  {
    var a, b := Listed(field)[0], Listed(field)[1];
    assert OnTheWay(path, Listed(field)) <==> path <= a || path <= b;
    assert path in Listed(field) <==> path == a || path == b;
    assert a[..1] == b[..1] == [""] && a[..2] == ["", "report"] && a[..3] == a;
    assert b[..2] == ["", "recrash_report"] && b[..3] == ["", "recrash_report", "report"] && b[..4] == b;
    if path <= a {
      assert path == a[..|path|] && 1 <= |path| <= 3;
    }
    if path <= b {
      assert path == b[..|path|] && 1 <= |path| <= 4;
    }
    assert [""] <= a && ["", "report"] <= a && ["", "recrash_report"] <= b && ["", "recrash_report", "report"] <= b;
  }

  predicate IntegerEvent(ev: Event) {
    ev.Scalar? && (ev.value.IntV? || ev.value.UIntV?)
  }

  /** An integer above INT64_MAX at a timestamp path. */
  predicate HugeTimestamp(evs: seq<Event>, i: nat)
    requires i < |evs|
  {
    evs[i].Scalar? && evs[i].value.UIntV? && PathOf(evs, i) in DATE_PATHS
  }

  /** The documented rewriting, exactly the integers at the two timestamp paths, is what
      happens if and only if no other signed integer sits on the way to one of them and no
      integer at one of them exceeds INT64_MAX. */
  lemma OnlyTimestampsRewritten(evs: seq<Event>)
    ensures (forall i :: 0 <= i < |evs| && IntegerEvent(evs[i]) ==>
               (IsDate(evs, i) <==> PathOf(evs, i) in DATE_PATHS))
            <==> (forall i :: 0 <= i < |evs| ==> !StrayInteger(evs, i) && !HugeTimestamp(evs, i))
  {
    hide OnTheWay, OpenNames, StrayPath;
    forall i | 0 <= i < |evs| && IntegerEvent(evs[i])
      ensures (IsDate(evs, i) <==> PathOf(evs, i) in DATE_PATHS) <==> !StrayInteger(evs, i) && !HugeTimestamp(evs, i)
    {
      ListedPaths(PathOf(evs, i), "timestamp");
      StrayIsNotListed(PathOf(evs, i), "timestamp");
    }
  }

  lemma StrayIsNotListed(path: seq<string>, field: string)
    requires field != "report"
    ensures StrayPath(path) ==> path !in Listed(field)
  {
  }

  /** Exactly the strings at the two version paths are taken as the version if and only
      if no other string sits on the way to one of them. */
  lemma OnlyVersionsSaved(evs: seq<Event>)
    ensures (forall i :: 0 <= i < |evs| && evs[i].Scalar? && evs[i].value.StrV? ==>
               (IsVersion(evs, i) <==> PathOf(evs, i) in VERSION_PATHS))
            <==> (forall i :: 0 <= i < |evs| ==> !StrayString(evs, i))
  {
    hide OnTheWay, OpenNames, StrayPath;
    forall i | 0 <= i < |evs| && evs[i].Scalar? && evs[i].value.StrV?
      ensures (IsVersion(evs, i) <==> PathOf(evs, i) in VERSION_PATHS) <==> !StrayString(evs, i)
    {
      ListedPaths(PathOf(evs, i), "version");
      StrayIsNotListed(PathOf(evs, i), "version");
    }
  }
}
