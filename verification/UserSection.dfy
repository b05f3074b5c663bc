/** What becomes of the user's JSON text in a report: text that decodes is taken over, text
    that does not is kept as a string beside what could be read of it. */
module UserSection {
  import opened JsonText
  import opened JsonEncoder
  import opened JsonDecoder
  import opened JsonRoundTrip
  import opened JsonDocument
  import opened JsonEvents
  import opened JsonSplice

  // ---------------------------------------------------------- where decoding fails

  /** A decoder that fails has not finished the root element. */
  lemma {:induction false} FailsInside(c: Limits, k: Control, d: Dec) returns (evs: seq<Event>)
    requires Valid(d) && Run(AlwaysOk, c, k, d).status != Ok
    ensures Run(AlwaysOk, c, k, d).dec.fired == d.fired + evs && Running(AdvanceAll(k, evs))
    decreases Size(d)
  {
    hide Next, Advance, Refill, Run;
    evs := [];
    assert d.fired + [] == d.fired;
    NothingReported(AlwaysOk, c, k, d);
    match Next(c, k, d.buf, d.ptr)
    case Bad(status) => StepFails(AlwaysOk, c, k, d, status);
    case Got(ev, end) =>
      var d1 := Fire(d.(ptr := end), ev);
      StepMade(AlwaysOk, c, k, d, ev, end);
      var more := FailsInside(c, Advance(k, ev), d1);
      evs := [ev] + more;
      assert evs[1..] == more;
      assert d.fired + [ev] + more == d.fired + evs;
  }

  lemma {:induction false} DepthReached(depth: nat, k: Control, evs: seq<Event>)
    requires Follows(k, evs) && Shallow(depth, evs) && |k.stack| <= depth < MAX_LEVELS
    ensures depth - |k.stack| + |AdvanceAll(k, evs).stack| < MAX_LEVELS
    decreases |evs|
  {
    if evs != [] {
      DepthReached(DepthBehind(depth, evs[0]), Advance(k, evs[0]), evs[1..]);
    }
  }

  // ------------------------------------------------------------ the error object

  /** A string that the encoder takes and the decoder's buffer holds. */
  predicate LegalString(c: Limits, s: string) {
    AllEscapable(s) && NUL !in s && |Escape(s)| < c.stringLen
  }

  const ERROR := "error"
  const JSON_DATA := "json_data"

  lemma FieldNames(c: Limits)
    requires c.nameLen > 9
    ensures LegalName(c, Some(ERROR)) && LegalName(c, Some(JSON_DATA))
  {
    hide LegalName;
    PlainName(c, ERROR);
    PlainName(c, JSON_DATA);
  }

  lemma PlainName(c: Limits, name: string)
    requires |name| < c.nameLen && forall i :: 0 <= i < |name| ==> 'A' <= name[i] <= 'z' && name[i] != '\\'
    ensures LegalName(c, Some(name))
  {
    hide Escape;
    PlainIsItself(name);
  }

  lemma ErrorObjectIsLegal(c: Limits, e: Enc, key: string, message: string, json: string)
    requires 1 <= |e.stack| && |e.stack| + 1 < MAX_LEVELS && c.nameLen > 9
    requires LegalName(c, Some(key)) && LegalString(c, message) && LegalString(c, json)
    ensures LegalCalls(c, e, ErrorObject(key, message, json))
  {
    hide LegalName, CallText, Escape, AllEscapable;
    FieldNames(c);
    var evs := ErrorObject(key, message, json);
    var e1 := AfterCall(e, evs[0]);
    var e2 := AfterCall(e1, evs[1]);
    var e3 := AfterCall(e2, evs[2]);
    assert InObject(e1) && e2.stack == e1.stack && e3.stack == e1.stack;
    assert LegalCall(c, e3, evs[3]) && LegalCalls(c, AfterCall(e3, evs[3]), []);
    assert evs[3..][1..] == [];
    assert LegalCalls(c, e3, evs[3..]);
    assert evs[2..][1..] == evs[3..] && evs[1..][1..] == evs[2..];
    assert LegalCalls(c, e2, evs[2..]);
    assert LegalCalls(c, e1, evs[1..]);
  }

  lemma {:induction false} BlindlyIsCalls(e: Enc, evs: seq<Event>)
    requires Calls(e, evs).status == Ok
    ensures Blindly(e, evs) == Calls(e, evs).enc
    decreases |evs|
  {
    hide Call;
    if evs != [] {
      BlindlyIsCalls(Call(e, evs[0]).enc, evs[1..]);
    }
  }

  // ----------------------------------------------------------------- the section

  /** The start of the section for a text whose callbacks the encoder accepts.  If the text
      decodes, its root is a container and the section is at level 1, one endContainer call
      completes its calls; if it does not, the calls made so far are followed by the error
      object. */
  lemma TextTakenOver(r: Respelling, e: Enc, key: string, message: string, json: string, calls: seq<Event>)
    requires |e.stack| == 1 && Shallow(|e.stack|, TextEvents(ELEMENT_LIMITS, Some(key), json))
    requires calls == RespelledAll(r, TextEvents(ELEMENT_LIMITS, Some(key), json)) && Calls(e, calls).status == Ok
    ensures var decodes := Run(AlwaysOk, ELEMENT_LIMITS, Element(Some(key), []), InMemory(json)).status == Ok;
            var start := BeginUserSection(r, e, key, message, Some(json));
            && (decodes && calls != [] && calls[0].Begin? ==> EndContainer(start) == Calls(e, calls))
            && (!decodes ==> start == Blindly(Calls(e, calls).enc, ErrorObject(key, message, json)))
            && (!decodes ==> Running(AdvanceAll(Element(Some(key), []), calls)))
  {
    hide Run, Calls, Follows, AdvanceAll, Replay, Blindly, ErrorObject, Shallow, DecodedEvent, SameFrame;
    var k := Element(Some(key), []);
    var evs := TextEvents(ELEMENT_LIMITS, Some(key), json);
    if Run(AlwaysOk, ELEMENT_LIMITS, k, InMemory(json)).status == Ok {
      if calls != [] && calls[0].Begin? {
        SpliceMakesCalls(ELEMENT_LIMITS, r, e, Some(key), json, calls);
      }
    } else {
      var made := FailsInside(ELEMENT_LIMITS, k, InMemory(json));
      assert [] + made == made == evs;
      FiredFollows(AlwaysOk, ELEMENT_LIMITS, Some(key), InMemory(json));
      SameShape(k, evs, calls);
      assert e.stack + [] == e.stack;
      OpenReplay(e.stack, e, k, calls);
      ReplayedToTheEnd(ELEMENT_LIMITS, r, e, Some(key), json, false);
    }
  }

  /** A report with user text that does not decode is still a legal document: it decodes to
      the calls before the section, the callbacks the text made, and an object with the
      error and the whole text, with every container closed. */
  lemma UndecodableTextIsKept(c: Limits, r: Respelling, pretty: bool, before: seq<Event>, key: string,
                              message: string, json: string)
    requires LegalDocument(c, before) && SpellsFloats(r) && c.nameLen > 9
    requires LegalName(c, Some(key)) && LegalString(c, message) && LegalString(c, json)
    requires Run(AlwaysOk, ELEMENT_LIMITS, Element(Some(key), []), InMemory(json)).status != Ok
    requires var e := AfterCalls(BeginEncode(pretty, None), before);
             && |e.stack| == 1 && InObject(e)
             && Shallow(|e.stack| + 1, TextEvents(ELEMENT_LIMITS, Some(key), json))
             && var calls := RespelledAll(r, TextEvents(ELEMENT_LIMITS, Some(key), json));
             && Calls(e, calls).status == Ok
             && |Calls(e, calls).enc.out| < c.nameLen && |Calls(e, calls).enc.out| < c.stringLen
    ensures var e := AfterCalls(BeginEncode(pretty, None), before);
            var calls := RespelledAll(r, TextEvents(ELEMENT_LIMITS, Some(key), json));
            var all := before + calls + ErrorObject(key, message, json);
            var document := EndEncode(BeginUserSection(r, e, key, message, Some(json))).enc.out;
            && LegalDocument(c, all) && document == DocumentText(pretty, all)
            && Decode(c, document).status == Ok
            && Decode(c, document).dec.fired == ReportedCalls(all) + Ends(OpenLevels(all))
  {
    hide Run, Calls, LegalCalls, AfterCalls, ReportedAll, SpellsFloats, EndEncode, SeparatedFrom, Shallow, Follows,
         AdvanceAll, Blindly, ErrorObject, LegalName, LegalString, SameFrame, DecodedEvent, BeginUserSection;
    var begin := BeginEncode(pretty, None);
    var e := AfterCalls(begin, before);
    var k := Element(Some(key), []);
    var evs := TextEvents(ELEMENT_LIMITS, Some(key), json);
    var calls := RespelledAll(r, evs);
    var entry := ErrorObject(key, message, json);
    assert NUL !in key by { NameHasNoNul(c, key); }
    ShallowSooner(|e.stack| + 1, evs);
    TextTakenOver(r, e, key, message, json, calls);
    SplicedIsLegal(ELEMENT_LIMITS, c, r, e, Some(key), json);
    PrettyIrrelevant(c, BeginEncode(false, None), begin, before);
    CallsAppend(c, begin, before, calls);
    var after := AfterCalls(e, calls);
    ErrorObjectFits(c, r, e, key, json);
    ErrorObjectIsLegal(c, after, key, message, json);
    CallsAppend(c, begin, before + calls, entry);
    PrettyIrrelevant(c, BeginEncode(false, None), begin, before + calls + entry);
    LegalCallsSucceed(c, after, entry);
    BlindlyIsCalls(after, entry);
    assert before + calls + entry != [] by { DocumentNotEmpty(c, before); }
    assert LegalDocument(c, before + calls + entry);
    LegalCallsSucceed(c, begin, before + calls + entry);
    RoundTrip(c, pretty, before + calls + entry);
    assert BeginUserSection(r, e, key, message, Some(json)) == AfterCalls(begin, before + calls + entry);
  }

  lemma NameHasNoNul(c: Limits, key: string)
    requires LegalName(c, Some(key))
    ensures NUL !in key
  {
  }

  lemma {:induction false} ShallowSooner(depth: nat, evs: seq<Event>)
    requires depth > 0 && Shallow(depth, evs)
    ensures Shallow(depth - 1, evs)
    decreases |evs|
  {
    if evs != [] {
      if DepthBehind(depth, evs[0]) > 0 {
        ShallowSooner(DepthBehind(depth, evs[0]), evs[1..]);
      }
    }
  }

  /** Behind the text's calls there is room for one more level. */
  lemma ErrorObjectFits(c: Limits, r: Respelling, e: Enc, key: string, json: string)
    requires |e.stack| == 1 && Shallow(|e.stack| + 1, TextEvents(ELEMENT_LIMITS, Some(key), json))
    requires var calls := RespelledAll(r, TextEvents(ELEMENT_LIMITS, Some(key), json));
             Calls(e, calls).status == Ok && Running(AdvanceAll(Element(Some(key), []), calls))
    ensures var calls := RespelledAll(r, TextEvents(ELEMENT_LIMITS, Some(key), json));
            1 <= |Calls(e, calls).enc.stack| && |Calls(e, calls).enc.stack| + 1 < MAX_LEVELS
  {
    hide Run, Calls, Follows, AdvanceAll, Shallow, DecodedEvent, SameFrame, Replay;
    var k := Element(Some(key), []);
    var evs := TextEvents(ELEMENT_LIMITS, Some(key), json);
    var calls := RespelledAll(r, evs);
    FiredFollows(AlwaysOk, ELEMENT_LIMITS, Some(key), InMemory(json));
    SameShape(k, evs, calls);
    DepthReached(2, k, evs);
    assert e.stack + [] == e.stack;
    OpenReplay(e.stack, e, k, calls);
  }
}
