/** Four reports that the fixer does not treat as documented. */
module ReportFixerWitness {
  import opened JsonText
  import opened JsonEncoder
  import opened JsonDecoder
  import opened JsonRoundTrip
  import opened JsonDocument
  import opened JsonEvents
  import opened JsonSteps
  import opened ReportFixer

  // -------------------------------------------------------------- a stray integer

  const STRAY_INTEGER: string := "{\"report\":7}                    "

  const STRAY_INTEGER_EVENTS: seq<Event> := [Begin(true, None), Scalar(Some("report"), IntV(7)), End]

  lemma StrayIntegerDecodes()
    ensures Decode(LIMITS, STRAY_INTEGER).status == Ok
            && Decode(LIMITS, STRAY_INTEGER).dec.fired == STRAY_INTEGER_EVENTS
  {
    hide Steps, Leads, Decode;
    var evs := STRAY_INTEGER_EVENTS;
    var e1, e2 := Compact([true], true, "{"), Compact([true], false, "{\"report\":7");
    var done := Compact([], false, "{\"report\":7}");
    RootStep(LIMITS, false);
    assert Digits(7) == "7";
    MemberStep(LIMITS, e1, evs[1], "report", "", e2);
    EndStep(LIMITS, e2, "", done);
    StepsLead(LIMITS, evs, [BeginEncode(false, None), e1, e2, done]);
    PaddedDecodes(LIMITS, evs, done, STRAY_INTEGER);
  }

  // --------------------------------------------------- the length of pretty text

  lemma {:induction false} IndentLength(levels: nat)
    ensures |Indent(levels)| == 4 * levels
  {
    if levels > 0 {
      IndentLength(levels - 1);
    }
  }

  /** A pretty encoder that has written so many characters. */
  predicate Written(e: Enc, stack: seq<bool>, first: bool, length: nat) {
    e.pretty && e.stack == stack && e.first == first && |e.out| == length
  }

  lemma RootWritten()
    ensures Written(AfterCall(BeginEncode(true, None), Begin(true, None)), [true], true, 1)
  {
    assert [] + [true] == [true];
  }

  lemma MemberWritten(e: Enc, stack: seq<bool>, first: bool, length: nat, ev: Event, name: string, token: nat)
    requires Written(e, stack, first, length) && InObject(e) && !ev.End? && ev.name == Some(name)
    requires forall i :: 0 <= i < |name| ==> Plain(name[i])
    requires |Token(ev)| == token
    ensures Written(AfterCall(e, ev), if ev.Begin? then stack + [ev.isObject] else stack, ev.Begin?,
                    length + (if first then 0 else 1) + 1 + 4 * |stack| + |name| + 4 + token)
  {
    hide Escape, ValueText, Indent;
    PlainIsItself(name);
    IndentLength(|stack|);
  }

  lemma EndWritten(e: Enc, stack: seq<bool>, length: nat)
    requires Written(e, stack, false, length) && |stack| > 0
    ensures Written(AfterCall(e, End), stack[..|stack| - 1], false, length + 1 + 4 * (|stack| - 1) + 1)
  {
    hide Indent;
    IndentLength(|stack| - 1);
  }

  lemma {:induction false} StatesWritten(evs: seq<Event>, states: seq<Enc>)
    requires |states| == |evs| + 1 && forall i :: 0 <= i < |evs| ==> AfterCall(states[i], evs[i]) == states[i + 1]
    ensures AfterCalls(states[0], evs) == states[|evs|]
    decreases |evs|
  {
    hide AfterCall;
    if evs != [] {
      StatesWritten(evs[1..], states[1..]);
    }
  }

  /** {"report":7} with room to grow: the integer is no timestamp, and the report that the
      fixer returns has a date in its place. */
  lemma StrayIntegerIsRewritten(l: Libc, c: Limits)
    requires Sane(l) && l.date(false, 7) == "1970-01-01T00:00:07Z"
    requires c.nameLen > |STRAY_INTEGER| * 3 / 2 && c.stringLen > |STRAY_INTEGER| * 3 / 2
    ensures PathOf(STRAY_INTEGER_EVENTS, 1) !in DATE_PATHS
    ensures var fixed := FixReport(l, STRAY_INTEGER);
            && fixed.FixedReport?
            && Decode(c, fixed.text).dec.fired ==
               [Begin(true, None), Scalar(Some("report"), StrV("1970-01-01T00:00:07Z")), End]
  {
    hide Decode, FixReport, FixedText, Sane, AllEscapable;
    var evs := STRAY_INTEGER_EVENTS;
    StrayIntegerDecodes();
    StrayIntegerFixed(l);
    assert Rewritable(l, STRAY_INTEGER, evs, NO_VERSION) by { StrayIntegerFits(l); }
    FixerSucceeds(l, STRAY_INTEGER);
    FixerTransforms(l, STRAY_INTEGER, c);
  }

  lemma PlainToken(name: Option<string>, s: string)
    requires forall i :: 0 <= i < |s| ==> Plain(s[i])
    ensures |Token(Scalar(name, StrV(s)))| == |s| + 2
  {
    PlainIsItself(s);
  }

  lemma StrayIntegerFits(l: Libc)
    requires l.date(false, 7) == "1970-01-01T00:00:07Z"
    ensures |FixedText(l, STRAY_INTEGER_EVENTS, NO_VERSION)| == 40
  {
    hide AfterCall, AfterCalls, Token, FixedEvents;
    StrayIntegerFixed(l);
    var evs := FixedEvents(l, STRAY_INTEGER_EVENTS, NO_VERSION);
    var e0 := BeginEncode(true, None);
    var e1 := AfterCall(e0, evs[0]);
    var e2 := AfterCall(e1, evs[1]);
    RootWritten();
    assert |Token(evs[1])| == 22 by { PlainToken(Some("report"), evs[1].value.s); }
    MemberWritten(e1, [true], true, 1, evs[1], "report", 22);
    EndWritten(e2, [true], 38);
    StatesWritten(evs, [e0, e1, e2, AfterCall(e2, End)]);
  }

  lemma StrayIntegerFixed(l: Libc)
    ensures var evs := STRAY_INTEGER_EVENTS;
            && LastVersion(l, evs, NO_VERSION) == NO_VERSION
            && PathOf(evs, 1) == ["", "report"] && !StrayString(evs, 1)
            && FixedEvents(l, evs, NO_VERSION) == [evs[0], Scalar(Some("report"), StrV(l.date(false, 7))), End]
            && NestedWithin(evs, MAX_DEPTH) && forall i :: 0 <= i < |evs| ==> !NullCompared(evs, i) && Clean(evs[i])
  {
    var evs := STRAY_INTEGER_EVENTS;
    assert evs[..1] == [evs[0]] && evs[..2] == [evs[0], evs[1]] && evs[..0] == [] && evs[..2][..1] == evs[..1]
           && evs[..1][..0] == [];
    assert OpenNames(evs[..1]) == [""];
    assert !IsVersion(evs, 0) && !IsVersion(evs, 1) && !IsVersion(evs, 2);
    assert LastVersion(l, evs[..1], NO_VERSION) == NO_VERSION;
    assert LastVersion(l, evs[..2], NO_VERSION) == LastVersion(l, evs[..1], NO_VERSION);
    ListedPaths(PathOf(evs, 1), "timestamp");
  }

  // -------------------------------------------------------------- a null comparison

  const NULL_REPORT: string :=
    "{" + "\"report\":{" + "\"timestamp\":{" + "\"x\":1" + "}" + "}" + "}"

  const NULL_EVENTS: seq<Event> :=
    [Begin(true, None), Begin(true, Some("report")), Begin(true, Some("timestamp")), Scalar(Some("x"), IntV(1)),
     End, End, End]

  lemma NullMembers(a: string, b: string, c: string)
    ensures Steps(LIMITS, Compact([true], true, a), NULL_EVENTS[1], Compact([true, true], true, a + "\"report\":{"))
    ensures Steps(LIMITS, Compact([true, true], true, b), NULL_EVENTS[2],
                  Compact([true, true, true], true, b + "\"timestamp\":{"))
    ensures Steps(LIMITS, Compact([true, true, true], true, c), NULL_EVENTS[3],
                  Compact([true, true, true], false, c + "\"x\":1"))
  {
    hide Steps;
    assert Digits(1) == "1";
    assert [true] + [true] == [true, true] && [true, true] + [true] == [true, true, true];
    CompactMember(LIMITS, [true], true, a, NULL_EVENTS[1], "report", "\"report\":{");
    CompactMember(LIMITS, [true, true], true, b, NULL_EVENTS[2], "timestamp", "\"timestamp\":{");
    CompactMember(LIMITS, [true, true, true], true, c, NULL_EVENTS[3], "x", "\"x\":1");
  }

  lemma NullReportDecodes()
    ensures Decode(LIMITS, NULL_REPORT).dec.fired == NULL_EVENTS
  {
    hide Steps, Leads, Decode;
    var a := "{";
    var b := a + "\"report\":{";
    var c := b + "\"timestamp\":{";
    var d := c + "\"x\":1";
    RootStep(LIMITS, false);
    NullMembers(a, b, c);
    CompactEnd(LIMITS, [true, true, true], false, d);
    CompactEnd(LIMITS, [true, true], false, d + "}");
    CompactEnd(LIMITS, [true], false, d + "}" + "}");
    assert [true, true, true][..2] == [true, true] && [true, true][..1] == [true] && [true][..0] == [];
    StepsLead(LIMITS, NULL_EVENTS,
              [BeginEncode(false, None), Compact([true], true, a), Compact([true, true], true, b),
               Compact([true, true, true], true, c), Compact([true, true, true], false, d),
               Compact([true, true], false, d + "}"), Compact([true], false, d + "}" + "}"),
               Compact([], false, d + "}" + "}" + "}")]);
    PaddedDecodes(LIMITS, NULL_EVENTS, Compact([], false, d + "}" + "}" + "}"), NULL_REPORT);
  }

  /** An integer inside a container at a timestamp path: whatever the version, the pass
      compares its name with a null pointer. */
  lemma NullIsCompared(l: Libc, version: Version)
    requires Sane(l)
    ensures FixPass(l, NULL_REPORT, version).Undefined? && FixReport(l, NULL_REPORT).Undefined?
  {
    hide Decode, FixPass, Sane, Rewritable, NullCompared;
    NullReportDecodes();
    NullInside();
    NullFits(l, version);
    PassUndefined(l, NULL_REPORT, version);
    NullFits(l, NO_VERSION);
    PassUndefined(l, NULL_REPORT, NO_VERSION);
  }

  lemma NullInside()
    ensures NullCompared(NULL_EVENTS, 3) && OpenNames(NULL_EVENTS[..1]) == [""]
            && OpenNames(NULL_EVENTS[..2]) == ["", "report"]
  {
    var evs := NULL_EVENTS[..3];
    assert evs == [NULL_EVENTS[0], NULL_EVENTS[1], NULL_EVENTS[2]];
    assert evs[..0] == [] && evs[..1] == [evs[0]] == NULL_EVENTS[..1]
           && evs[..2] == [evs[0], evs[1]] == NULL_EVENTS[..2];
    assert OpenNames(evs[..1]) == [""];
    assert OpenNames(evs[..2]) == ["", "report"];
    assert OpenNames(evs) == ["", "report", "timestamp"] == DATE_PATHS[0];
  }

  lemma NullFits(l: Libc, version: Version)
    ensures Rewritable(l, NULL_REPORT, NULL_EVENTS[..3], version)
  {
    hide OpenNames, FixedText;
    var evs := NULL_EVENTS[..3];
    NullInside();
    assert evs[..0] == [] && evs[..1] == NULL_EVENTS[..1] && evs[..2] == NULL_EVENTS[..2];
    assert OpenNames([]) == [] by { NothingOpenYet(); }
    NullLength(l, version);
  }

  lemma NothingOpenYet()
    ensures OpenNames([]) == []
  {
  }

  lemma NullLength(l: Libc, version: Version)
    ensures |FixedText(l, NULL_EVENTS[..3], version)| == 40
  {
    hide AfterCall, AfterCalls, Token;
    var evs := NULL_EVENTS[..3];
    var e0 := BeginEncode(true, None);
    assert FixedEvents(l, evs, version) == evs;
    RootWritten();
    var e1 := AfterCall(e0, evs[0]);
    assert |Token(evs[1])| == |Token(evs[2])| == 1 by { OneToken(evs[1]); OneToken(evs[2]); }
    MemberWritten(e1, [true], true, 1, evs[1], "report", 1);
    var e2 := AfterCall(e1, evs[1]);
    assert [true] + [true] == [true, true];
    MemberWritten(e2, [true, true], true, 17, evs[2], "timestamp", 1);
    StatesWritten(evs, [e0, e1, e2, AfterCall(e2, evs[2])]);
  }

  lemma OneToken(ev: Event)
    requires ev.Begin?
    ensures |Token(ev)| == 1
  {
  }

  // --------------------------------------------------------------- a stray string

  const STRAY_STRING: string :=
    "{" + "\"recrash_report\":\"9\"" + ",\"report\":{" + "\"timestamp\":1" + "}" + "}" + "                      "

  const STRAY_STRING_EVENTS: seq<Event> :=
    [Begin(true, None), Scalar(Some("recrash_report"), StrV("9")),
     Begin(true, Some("report")), Scalar(Some("timestamp"), IntV(1)), End, End]

  lemma StrayStringFirst(out: string)
    ensures Steps(LIMITS, Compact([true], true, out), STRAY_STRING_EVENTS[1],
                  Compact([true], false, out + "\"recrash_report\":\"9\""))
  {
    hide Steps;
    assert Escape("9") == "9";
    CompactMember(LIMITS, [true], true, out, STRAY_STRING_EVENTS[1], "recrash_report", "\"recrash_report\":\"9\"");
  }

  lemma StrayStringMembers(b: string, c: string)
    ensures Steps(LIMITS, Compact([true], false, b), STRAY_STRING_EVENTS[2],
                  Compact([true, true], true, b + ",\"report\":{"))
    ensures Steps(LIMITS, Compact([true, true], true, c), STRAY_STRING_EVENTS[3],
                  Compact([true, true], false, c + "\"timestamp\":1"))
  {
    hide Steps;
    assert Digits(1) == "1";
    assert [true] + [true] == [true, true];
    CompactMember(LIMITS, [true], false, b, STRAY_STRING_EVENTS[2], "report", ",\"report\":{");
    CompactMember(LIMITS, [true, true], true, c, STRAY_STRING_EVENTS[3], "timestamp", "\"timestamp\":1");
  }

  lemma StrayStringDecodes()
    ensures Decode(LIMITS, STRAY_STRING).status == Ok && Decode(LIMITS, STRAY_STRING).dec.fired == STRAY_STRING_EVENTS
  {
    hide Steps, Leads, Decode;
    var a := "{";
    var b := a + "\"recrash_report\":\"9\"";
    var c := b + ",\"report\":{";
    var d := c + "\"timestamp\":1";
    RootStep(LIMITS, false);
    StrayStringFirst(a);
    StrayStringMembers(b, c);
    CompactEnd(LIMITS, [true, true], false, d);
    CompactEnd(LIMITS, [true], false, d + "}");
    assert [true, true][..1] == [true] && [true][..0] == [];
    StepsLead(LIMITS, STRAY_STRING_EVENTS,
              [BeginEncode(false, None), Compact([true], true, a), Compact([true], false, b),
               Compact([true, true], true, c), Compact([true, true], false, d),
               Compact([true], false, d + "}"), Compact([], false, d + "}" + "}")]);
    PaddedDecodes(LIMITS, STRAY_STRING_EVENTS, Compact([], false, d + "}" + "}"), STRAY_STRING);
  }

  function StrayStringDated(l: Libc): seq<Event> {
    STRAY_STRING_EVENTS[3 := Scalar(Some("timestamp"), StrV(l.date(true, 1)))]
  }

  lemma StrayStringOpens()
    ensures var evs := STRAY_STRING_EVENTS;
            && OpenNames(evs[..1]) == OpenNames(evs[..2]) == [""] && OpenNames(evs[..3]) == ["", "report"]
            && NestedWithin(evs, MAX_DEPTH)
  {
    var evs := STRAY_STRING_EVENTS;
    assert evs[..2][..1] == evs[..1] && evs[..3][..2] == evs[..2] && evs[..1][..0] == [];
    assert OpenNames(evs[..1]) == [""];
    assert OpenNames(evs[..2]) == [""];
  }

  lemma StrayStringPaths()
    ensures var evs := STRAY_STRING_EVENTS;
            && PathOf(evs, 1) == ["", "recrash_report"] && PathOf(evs, 1) !in VERSION_PATHS && IsVersion(evs, 1)
            && IsDate(evs, 3) && !InsideListed([""], VERSION_PATHS) && !InsideListed(["", "report"], DATE_PATHS)
  {
    hide OpenNames;
    StrayStringOpens();
    var evs := STRAY_STRING_EVENTS;
    assert PathOf(evs, 3) == DATE_PATHS[0] && DATE_PATHS[0] <= DATE_PATHS[0];
    ListedPaths(PathOf(evs, 1), "version");
    ListedPaths(PathOf(evs, 3), "timestamp");
  }

  /** From the stray string on its number is the version. */
  lemma StrayStringVersion(l: Libc, version: Version)
    requires l.atoi("9") == 9
    ensures LastVersion(l, STRAY_STRING_EVENTS[..3], version) == LastVersion(l, STRAY_STRING_EVENTS, version) ==
            Version(9, 0, 0)
  {
    hide OpenNames, OnTheWay, ParseVersion;
    var evs := STRAY_STRING_EVENTS;
    StrayStringPaths();
    assert ParseVersion(l, "9") == Version(9, 0, 0) by { OneToken9(l); }
    assert evs[..2][..1] == evs[..1] && evs[..3][..2] == evs[..2] && evs[..4][..3] == evs[..3]
           && evs[..5][..4] == evs[..4];
    assert IsVersion(evs[..2], 1);
    assert LastVersion(l, evs[..2], version) == Version(9, 0, 0);
    assert LastVersion(l, evs[..3], version) == LastVersion(l, evs[..2], version);
    assert LastVersion(l, evs[..4], version) == LastVersion(l, evs[..3], version);
    assert LastVersion(l, evs[..5], version) == LastVersion(l, evs[..4], version);
    assert evs[..|evs| - 1] == evs[..5];
  }

  lemma OneToken9(l: Libc)
    requires l.atoi("9") == 9
    ensures ParseVersion(l, "9") == Version(9, 0, 0)
  {
    assert "9"[1..] == "" && "" + ['9'] == "9";
    assert Tokens("", "9") == ["9"];
    assert Tokens("9", "") == ["9"];
  }

  lemma StrayStringFixed(l: Libc, version: Version)
    requires l.atoi("9") == 9
    ensures FixedEvents(l, STRAY_STRING_EVENTS, version) == StrayStringDated(l)
    ensures forall i :: 0 <= i < |STRAY_STRING_EVENTS| ==>
            !NullCompared(STRAY_STRING_EVENTS, i) && Clean(STRAY_STRING_EVENTS[i])
  {
    hide OpenNames, OnTheWay, LastVersion, InsideListed;
    StrayStringOpens();
    StrayStringPaths();
    StrayStringVersion(l, version);
  }

  lemma StrayStringLength(l: Libc)
    requires l.date(true, 1) == "1970-01-01T00:00:00.000001Z"
    ensures |AfterCalls(BeginEncode(true, None), StrayStringDated(l)).out| == 103
  {
    hide AfterCall, AfterCalls, Token, Written;
    var evs := StrayStringDated(l);
    var e0 := BeginEncode(true, None);
    var e1 := AfterCall(e0, evs[0]);
    var e2 := AfterCall(e1, evs[1]);
    var e3 := AfterCall(e2, evs[2]);
    RootWritten();
    StrayStringHead(e1);
    StrayStringTail(l, e3);
    var e4 := AfterCall(e3, evs[3]);
    var e5 := AfterCall(e4, End);
    StatesWritten(evs, [e0, e1, e2, e3, e4, e5, AfterCall(e5, End)]);
    assert |AfterCall(e5, End).out| == 103 by { LengthOf(AfterCall(e5, End), [], false, 103); }
  }

  lemma LengthOf(e: Enc, stack: seq<bool>, first: bool, length: nat)
    requires Written(e, stack, first, length)
    ensures |e.out| == length
  {
  }

  lemma StrayStringHead(e1: Enc)
    requires Written(e1, [true], true, 1)
    ensures Written(AfterCall(AfterCall(e1, STRAY_STRING_EVENTS[1]), STRAY_STRING_EVENTS[2]), [true, true], true, 44)
  {
    hide AfterCall, Token;
    var evs := STRAY_STRING_EVENTS;
    PlainToken(Some("recrash_report"), "9");
    MemberWritten(e1, [true], true, 1, evs[1], "recrash_report", 3);
    assert |Token(evs[2])| == 1 by { OneToken(evs[2]); }
    MemberWritten(AfterCall(e1, evs[1]), [true], false, 27, evs[2], "report", 1);
    assert [true] + [true] == [true, true];
  }

  lemma StrayStringTail(l: Libc, e3: Enc)
    requires Written(e3, [true, true], true, 44) && l.date(true, 1) == "1970-01-01T00:00:00.000001Z"
    ensures var e5 := AfterCall(AfterCall(e3, StrayStringDated(l)[3]), End);
            Written(AfterCall(e5, End), [], false, 103)
  {
    hide AfterCall, Token;
    var ev := StrayStringDated(l)[3];
    PlainToken(Some("timestamp"), l.date(true, 1));
    MemberWritten(e3, [true, true], true, 44, ev, "timestamp", 29);
    assert [true, true][..1] == [true] && [true][..0] == [];
    EndWritten(AfterCall(e3, ev), [true, true], 95);
    EndWritten(AfterCall(AfterCall(e3, ev), End), [true], 101);
  }

  /** A report without a version, but with a string on the way to one: the string is taken
      for the version, and the timestamp for microseconds. */
  lemma StrayStringIsSaved(l: Libc, c: Limits)
    requires Sane(l) && l.atoi("9") == 9 && l.date(true, 1) == "1970-01-01T00:00:00.000001Z"
    requires c.nameLen > |STRAY_STRING| * 3 / 2 && c.stringLen > |STRAY_STRING| * 3 / 2
    ensures PathOf(STRAY_STRING_EVENTS, 1) !in VERSION_PATHS
    ensures var fixed := FixReport(l, STRAY_STRING);
            && fixed.FixedReport?
            && Decode(c, fixed.text).dec.fired ==
               STRAY_STRING_EVENTS[3 := Scalar(Some("timestamp"), StrV("1970-01-01T00:00:00.000001Z"))]
  {
    hide Decode, FixReport, Sane, AllEscapable, AfterCalls, FixedEvents, NestedWithin, LastVersion, OpenNames,
         NullCompared, Clean;
    var evs := STRAY_STRING_EVENTS;
    StrayStringDecodes();
    StrayStringOpens();
    StrayStringPaths();
    StrayStringFixed(l, NO_VERSION);
    StrayStringFixed(l, Version(9, 0, 0));
    StrayStringVersion(l, NO_VERSION);
    StrayStringLength(l);
    FixerSucceeds(l, STRAY_STRING);
    FixerTransforms(l, STRAY_STRING, c);
  }

  // -------------------------------------------------------------- a huge timestamp

  const HUGE: nat := 9223372036854775808

  const HUGE_REPORT: string := "{" + "\"report\":{" + ("\"timestamp\":" + "9223372036854775808") + "}" + "}"

  const HUGE_EVENTS: seq<Event> :=
    [Begin(true, None), Begin(true, Some("report")), Scalar(Some("timestamp"), UIntV(HUGE)), End, End]

  lemma OneMoreDigit(n: nat, d: nat, s: string)
    requires 0 < n && d < 10 && Digits(n) == s
    ensures Digits(10 * n + d) == s + [DigitChar(d)]
  {
  }

  lemma HugeDigits()
    ensures Digits(HUGE) == "9223372036854775808"
  {
    hide Digits;
    assert Digits(9) == "9" by { NineIsDigit(); }
    OneMoreDigit(9, 2, "9");
    OneMoreDigit(92, 2, "92");
    OneMoreDigit(922, 3, "922");
    OneMoreDigit(9223, 3, "9223");
    OneMoreDigit(92233, 7, "92233");
    OneMoreDigit(922337, 2, "922337");
    OneMoreDigit(9223372, 0, "9223372");
    OneMoreDigit(92233720, 3, "92233720");
    OneMoreDigit(922337203, 6, "922337203");
    OneMoreDigit(9223372036, 8, "9223372036");
    OneMoreDigit(92233720368, 5, "92233720368");
    OneMoreDigit(922337203685, 4, "922337203685");
    OneMoreDigit(9223372036854, 7, "9223372036854");
    OneMoreDigit(92233720368547, 7, "92233720368547");
    OneMoreDigit(922337203685477, 5, "922337203685477");
    OneMoreDigit(9223372036854775, 8, "9223372036854775");
    OneMoreDigit(92233720368547758, 0, "92233720368547758");
    OneMoreDigit(922337203685477580, 8, "922337203685477580");
  }

  lemma NineIsDigit()
    ensures Digits(9) == "9"
  {
  }

  lemma HugeOuter(out: string)
    ensures Steps(LIMITS, Compact([true], true, out), HUGE_EVENTS[1],
                  Compact([true, true], true, out + "\"report\":{"))
  {
    hide Steps, Digits;
    assert [true] + [true] == [true, true];
    CompactMember(LIMITS, [true], true, out, HUGE_EVENTS[1], "report", "\"report\":{");
  }

  lemma HugeInner(out: string)
    ensures Steps(LIMITS, Compact([true, true], true, out), HUGE_EVENTS[2],
                  Compact([true, true], false, out + ("\"timestamp\":" + "9223372036854775808")))
  {
    hide Steps, Digits;
    HugeDigits();
    var digits := Digits(HUGE);
    assert "" + ("\"" + "timestamp" + "\"" + ":") + digits == "\"timestamp\":" + digits;
    CompactMember(LIMITS, [true, true], true, out, HUGE_EVENTS[2], "timestamp", "\"timestamp\":" + digits);
  }

  lemma HugeDecodes()
    ensures Decode(LIMITS, HUGE_REPORT).status == Ok && Decode(LIMITS, HUGE_REPORT).dec.fired == HUGE_EVENTS
  {
    hide Steps, Leads, Decode;
    var a := "{";
    var b := a + "\"report\":{";
    var c := b + ("\"timestamp\":" + "9223372036854775808");
    RootStep(LIMITS, false);
    HugeOuter(a);
    HugeInner(b);
    CompactEnd(LIMITS, [true, true], false, c);
    CompactEnd(LIMITS, [true], false, c + "}");
    assert [true, true][..1] == [true] && [true][..0] == [];
    StepsLead(LIMITS, HUGE_EVENTS,
              [BeginEncode(false, None), Compact([true], true, a), Compact([true, true], true, b),
               Compact([true, true], false, c), Compact([true], false, c + "}"), Compact([], false, c + "}" + "}")]);
    PaddedDecodes(LIMITS, HUGE_EVENTS, Compact([], false, c + "}" + "}"), HUGE_REPORT);
  }

  lemma HugeOpens()
    ensures var evs := HUGE_EVENTS;
            && OpenNames(evs[..1]) == [""] && OpenNames(evs[..2]) == ["", "report"]
            && NestedWithin(evs, MAX_DEPTH)
  {
    var evs := HUGE_EVENTS;
    assert evs[..2][..1] == evs[..1] && evs[..1][..0] == [] && evs[..2][1] == evs[1] && evs[..1][0] == evs[0];
    assert OpenNames(evs[..1]) == [""];
  }

  /** Nothing in the report is rewritten, whatever the version. */
  lemma HugeFixed(l: Libc, version: Version)
    ensures FixedEvents(l, HUGE_EVENTS, version) == HUGE_EVENTS
    ensures PathOf(HUGE_EVENTS, 2) == DATE_PATHS[0]
    ensures forall i :: 0 <= i < |HUGE_EVENTS| ==> !NullCompared(HUGE_EVENTS, i) && Clean(HUGE_EVENTS[i])
  {
    hide OpenNames, OnTheWay, LastVersion, InsideListed;
    HugeOpens();
  }

  lemma HugeLength()
    ensures |AfterCalls(BeginEncode(true, None), HUGE_EVENTS).out| == 66
  {
    hide AfterCall, AfterCalls, Token, Written, Digits;
    var evs := HUGE_EVENTS;
    var e0 := BeginEncode(true, None);
    var e1 := AfterCall(e0, evs[0]);
    var e2 := AfterCall(e1, evs[1]);
    RootWritten();
    HugeMiddle(e1);
    var e3 := AfterCall(e2, evs[2]);
    assert [true, true][..1] == [true] && [true][..0] == [];
    EndWritten(e3, [true, true], 58);
    var e4 := AfterCall(e3, End);
    EndWritten(e4, [true], 64);
    StatesWritten(evs, [e0, e1, e2, e3, e4, AfterCall(e4, End)]);
    assert |AfterCall(e4, End).out| == 66 by { LengthOf(AfterCall(e4, End), [], false, 66); }
  }

  lemma HugeMiddle(e1: Enc)
    requires Written(e1, [true], true, 1)
    ensures Written(AfterCall(AfterCall(e1, HUGE_EVENTS[1]), HUGE_EVENTS[2]), [true, true], false, 58)
  {
    hide AfterCall, Token, Digits, Written;
    var evs := HUGE_EVENTS;
    assert |Token(evs[1])| == 1 by { OneToken(evs[1]); }
    assert e1.pretty && InObject(e1) by { WrittenObject(e1, [true], true, 1); }
    MemberWritten(e1, [true], true, 1, evs[1], "report", 1);
    assert [true] + [true] == [true, true];
    var e2 := AfterCall(e1, evs[1]);
    WrittenObject(e2, [true, true], true, 17);
    assert |Token(evs[2])| == 19 by { HugeToken(evs[2]); }
    MemberWritten(e2, [true, true], true, 17, evs[2], "timestamp", 19);
  }

  lemma WrittenObject(e: Enc, stack: seq<bool>, first: bool, length: nat)
    requires Written(e, stack, first, length) && |stack| > 0 && stack[|stack| - 1]
    ensures e.pretty && InObject(e)
  {
  }

  lemma HugeToken(ev: Event)
    requires ev == HUGE_EVENTS[2]
    ensures |Token(ev)| == 19
  {
    hide Digits;
    HugeDigits();
  }

  /** A timestamp one above INT64_MAX: it meets no stray integer, and the report that the
      fixer returns has it as it was. */
  lemma HugeTimestampIsKept(l: Libc, c: Limits)
    requires Sane(l) && c.nameLen > 66 && c.stringLen > 66
    ensures PathOf(HUGE_EVENTS, 2) in DATE_PATHS && forall i :: 0 <= i < |HUGE_EVENTS| ==> !StrayInteger(HUGE_EVENTS, i)
    ensures FixReport(l, HUGE_REPORT).FixedReport?
    ensures Decode(c, FixReport(l, HUGE_REPORT).text).dec.fired == HUGE_EVENTS
  {
    hide Decode, FixReport, Sane, AllEscapable, AfterCalls, FixedEvents, NestedWithin, LastVersion, OpenNames,
         NullCompared, Clean, PathOf;
    var version := LastVersion(l, HUGE_EVENTS, NO_VERSION);
    HugeDecodes();
    HugeOpens();
    HugeFixed(l, NO_VERSION);
    HugeFixed(l, version);
    HugeLength();
    FixerSucceeds(l, HUGE_REPORT);
    FixerTransforms(l, HUGE_REPORT, c);
  }
}
