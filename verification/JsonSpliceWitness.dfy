/** Two user texts whose section does not end at the level where it began. */
module JsonSpliceWitness {
  import opened JsonText
  import opened JsonEncoder
  import opened JsonDecoder
  import opened JsonEvents
  import opened JsonBalance
  import opened JsonSplice

  const REFUSED: string := "{\"a\":{\"b\":\"\\u0001\"}}"

  const LAST_NUMBER: string := "7"

  /** A string of one plain character. */
  lemma LetterDecodes(buf: string, p: nat, len: int)
    requires p + 2 < |buf| && buf[p] == '\"' && buf[p + 2] == '\"' && len > 1
    requires buf[p + 1] != '\"' && buf[p + 1] != '\\'
    ensures DecodeString(buf, p, len) == StringOk([buf[p + 1]], p + 3)
  {
    assert ScanQuote(buf, p + 1) == p + 2;
    assert Unescape(buf, p + 2, p + 2) == Text("");
    assert Unescape(buf, p + 1, p + 2) == Text([buf[p + 1]]);
  }

  /** A string that is one \u escape below 0x80. */
  lemma EscapeDecodes(buf: string, p: nat, len: int)
    requires p + 7 < |buf| && buf[p] == '\"' && buf[p + 1] == '\\' && buf[p + 2] == 'u' && buf[p + 7] == '\"' && len > 6
    requires forall i :: p + 3 <= i < p + 7 ==> IsDigit(buf[i])
    requires Hex4(buf, p + 3) == 1
    ensures DecodeString(buf, p, len) == StringOk([1 as char], p + 8)
  {
    hide Hex4;
    assert ScanQuote(buf, p + 1) == ScanQuote(buf, p + 3) == ScanQuote(buf, p + 5) == ScanQuote(buf, p + 7) == p + 7;
    assert Unescape(buf, p + 7, p + 7) == Text("");
    assert Utf8(1) == [1 as char];
    assert UnicodeEscape(buf, p + 1, p + 7) == Unit([1 as char], 6);
    assert Unescape(buf, p + 1, p + 7) == Text([1 as char]);
  }

  lemma ColonLeads(c: Limits, name: string, buf: string, p: nat)
    requires p + 1 < |buf| && buf[p] == ':' && !IsSpace(buf[p + 1])
    ensures AtColon(c, name, buf, p) == AtElement(c, Some(name), buf, p + 1)
  {
    hide AtElement;
    assert SkipSpace(buf, p) == p && SkipSpace(buf, p + 1) == p + 1;
  }

  lemma OuterMember(k: Control)
    requires k.Loop? && k.stack == [true]
    ensures Next(ELEMENT_LIMITS, k, REFUSED, 1) == Got(Begin(true, Some("a")), 6)
  {
    hide DecodeString, AtColon;
    LetterDecodes(REFUSED, 1, 100);
    ColonLeads(ELEMENT_LIMITS, "a", REFUSED, 4);
    assert SkipSpace(REFUSED, 1) == 1 && SkipSpace(REFUSED, 5) == 5;
    assert CStr("a") == "a";
    assert AtElement(ELEMENT_LIMITS, Some("a"), REFUSED, 5) == Got(Begin(true, Some("a")), 6);
  }

  lemma InnerMember(k: Control)
    requires k.Loop? && k.stack == [true, true]
    ensures Next(ELEMENT_LIMITS, k, REFUSED, 6) == Got(Scalar(Some("b"), StrV([1 as char])), 18)
  {
    hide DecodeString, AtColon;
    LetterDecodes(REFUSED, 6, 100);
    assert Hex4(REFUSED, 13) == 1;
    EscapeDecodes(REFUSED, 10, 5000);
    ColonLeads(ELEMENT_LIMITS, "b", REFUSED, 9);
    assert SkipSpace(REFUSED, 6) == 6 && SkipSpace(REFUSED, 10) == 10;
    assert CStr("b") == "b" && CStr([1 as char]) == [1 as char];
    assert AtElement(ELEMENT_LIMITS, Some("b"), REFUSED, 10) == Got(Scalar(Some("b"), StrV([1 as char])), 18);
  }

  lemma ClosingBrace(k: Control, p: nat)
    requires k.After? && |k.stack| > 0 && k.stack[|k.stack| - 1] && 18 <= p < 20
    ensures Next(ELEMENT_LIMITS, k, REFUSED, p) == Got(End, p + 1)
  {
    assert SkipSpace(REFUSED, p) == p;
  }

  function RefusedEvents(key: string): seq<Event> {
    [Begin(true, Some(key)), Begin(true, Some("a")), Scalar(Some("b"), StrV([1 as char])), End, End]
  }

  function Standing(p: nat, fired: seq<Event>): Dec {
    Dec(REFUSED, p, "", true, fired)
  }

  /** One callback of the run over the text. */
  lemma Read(k: Control, p: nat, evs: seq<Event>, n: nat, end: nat, next: Control)
    requires p <= |REFUSED| && Running(k) && n < |evs| && Next(ELEMENT_LIMITS, k, REFUSED, p) == Got(evs[n], end)
    requires next == Advance(k, evs[n])
    ensures end <= |REFUSED|
    ensures Run(AlwaysOk, ELEMENT_LIMITS, k, Standing(p, evs[..n])) ==
            Run(AlwaysOk, ELEMENT_LIMITS, next, Standing(end, evs[..n + 1]))
  {
    hide Next, Advance, Run;
    assert evs[..n] + [evs[n]] == evs[..n + 1];
    StepMade(AlwaysOk, ELEMENT_LIMITS, k, Standing(p, evs[..n]), evs[n], end);
  }

  lemma Stacks()
    ensures [] + [true] == [true] && [true] + [true] == [true, true]
    ensures [true, true][..1] == [true] && [true][..0] == []
  {
  }

  lemma RefusedDecodes(key: string)
    ensures TextEvents(ELEMENT_LIMITS, Some(key), REFUSED) == RefusedEvents(key)
  {
    hide Run, Next;
    var evs := RefusedEvents(key);
    Stacks();
    FirstBrace(key);
    Read(Element(Some(key), []), 0, evs, 0, 1, Loop([true]));
    OuterMember(Loop([true]));
    Read(Loop([true]), 1, evs, 1, 6, Loop([true, true]));
    InnerMember(Loop([true, true]));
    Read(Loop([true, true]), 6, evs, 2, 18, After([true, true]));
    ClosingBrace(After([true, true]), 18);
    Read(After([true, true]), 18, evs, 3, 19, After([true]));
    ClosingBrace(After([true]), 19);
    Read(After([true]), 19, evs, 4, 20, After([]));
    Done(evs[..5]);
    assert evs[..5] == evs && evs[..0] == [];
  }

  lemma FirstBrace(key: string)
    ensures Next(ELEMENT_LIMITS, Element(Some(key), []), REFUSED, 0) == Got(Begin(true, Some(key)), 1)
  {
    assert SkipSpace(REFUSED, 0) == 0;
  }

  lemma Done(fired: seq<Event>)
    ensures Run(AlwaysOk, ELEMENT_LIMITS, After([]), Standing(20, fired)) == Outcome(Standing(20, fired), Ok)
  {
  }

  /** A complete object with a string that the encoder refuses: the object that reports
      the error lands inside it, and the section ends one level too deep. */
  lemma RefusedStringStaysOpen(r: Respelling, e: Enc, key: string, message: string)
    requires Balanced(e) && |e.stack| == 1 && AllEscapable(key)
    ensures |UserSection(r, e, key, message, Some(REFUSED), []).stack| == 2
  {
    hide UserSection, TextEvents, Balanced;
    RefusedDecodes(key);
    var evs := RefusedEvents(key);
    var clean := [evs[0], evs[1]];
    assert Shallow(2, evs) by { RefusedShallow(key); }
    assert CleanPrefix(evs) == clean by { RefusedPrefix(key); }
    assert LeftOpen(clean, Element(Some(key), [])) == 2 by { TwoOpen(key); }
    UserSectionLevel(r, e, key, message, Some(REFUSED), []);
  }

  lemma RefusedShallow(key: string)
    ensures Shallow(2, RefusedEvents(key))
  {
    var evs := RefusedEvents(key);
    assert evs[1..][1..] == evs[2..] && evs[2..][1..] == evs[3..] && evs[3..][1..] == evs[4..] && evs[4..][1..] == [];
    assert Shallow(3, evs[4..]);
    assert Shallow(4, evs[3..]);
    assert Shallow(4, evs[2..]);
    assert Shallow(3, evs[1..]);
  }

  lemma RefusedPrefix(key: string)
    requires AllEscapable(key)
    ensures CleanPrefix(RefusedEvents(key)) == [Begin(true, Some(key)), Begin(true, Some("a"))]
  {
    hide AllEscapable;
    var evs := RefusedEvents(key);
    assert AllEscapable("a") && !AllEscapable([1 as char]) by { Spellings(); }
    assert !Clean(evs[2]) && Clean(evs[1]) && Clean(evs[0]);
    var p := CleanPrefix(evs);
    assert |p| >= 1 && |p| >= 2 && |p| < 3 by { PrefixStops(evs, 2); }
  }

  lemma Spellings()
    ensures AllEscapable("a") && !AllEscapable([1 as char])
  {
    var bad := [1 as char];
    assert !Escapable(bad[0]);
  }

  lemma PrefixStops(evs: seq<Event>, n: nat)
    requires n < |evs| && !Clean(evs[n]) && forall i :: 0 <= i < n ==> Clean(evs[i])
    ensures |CleanPrefix(evs)| == n
  {
  }

  lemma TwoOpen(key: string)
    ensures LeftOpen([Begin(true, Some(key)), Begin(true, Some("a"))], Element(Some(key), [])) == 2
  {
    var evs := [Begin(true, Some(key)), Begin(true, Some("a"))];
    assert evs[1..][1..] == [];
    assert AdvanceAll(Loop([true]), evs[1..]).stack == [true, true];
    assert [] + [true] == [true];
    assert AdvanceAll(Element(Some(key), []), evs) == AdvanceAll(Loop([true]), evs[1..]);
  }

  /** A number: it is incomplete, since it ends the text, and the end of the section
      closes the report itself. */
  lemma NumberClosesReport(r: Respelling, e: Enc, key: string, message: string)
    requires Balanced(e) && |e.stack| == 1 && AllEscapable(key)
    ensures UserSection(r, e, key, message, Some(LAST_NUMBER), []).stack == []
  {
    hide UserSection, Balanced, AllEscapable;
    var k := Element(Some(key), []);
    assert SkipSpace(LAST_NUMBER, 0) == 0;
    assert DigitLoop(LAST_NUMBER, 0, 0).end == 1;
    assert Next(ELEMENT_LIMITS, k, LAST_NUMBER, 0) == Bad(Incomplete);
    StepFails(AlwaysOk, ELEMENT_LIMITS, k, InMemory(LAST_NUMBER), Incomplete);
    assert UserEvents(key, LAST_NUMBER) == [];
    assert AdvanceAll(k, []).stack == [];
    UserSectionLevel(r, e, key, message, Some(LAST_NUMBER), []);
  }
}
