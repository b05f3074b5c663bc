/** Following single encoder calls with known arguments. */
module JsonSteps {
  import opened JsonText
  import opened JsonEncoder
  import opened JsonDecoder
  import opened JsonRoundTrip
  import opened JsonDocument

  /** A legal call, reported as it is, that takes the encoder from e to next. */
  predicate Steps(c: Limits, e: Enc, ev: Event, next: Enc) {
    LegalCall(c, e, ev) && Reported(InObject(e), ev) == ev && AfterCall(e, ev) == next
  }

  ghost predicate Leads(c: Limits, e: Enc, evs: seq<Event>, done: Enc) {
    LegalCalls(c, e, evs) && ReportedAll(e, evs) == evs && AfterCalls(e, evs) == done
  }

  lemma OneMore(c: Limits, e: Enc, evs: seq<Event>, next: Enc, done: Enc)
    requires evs != [] && Steps(c, e, evs[0], next) && Leads(c, next, evs[1..], done)
    ensures Leads(c, e, evs, done)
  {
    hide AfterCall, LegalCall, Reported;
  }

  lemma NoMore(c: Limits, e: Enc)
    ensures Leads(c, e, [], e)
  {
  }

  lemma {:induction false} StepsLead(c: Limits, evs: seq<Event>, states: seq<Enc>)
    requires |states| == |evs| + 1 && forall i :: 0 <= i < |evs| ==> Steps(c, states[i], evs[i], states[i + 1])
    ensures Leads(c, states[0], evs, states[|evs|])
    decreases |evs|
  {
    hide Steps, Leads;
    NoMore(c, states[0]);
    if evs != [] {
      StepsLead(c, evs[1..], states[1..]);
      OneMore(c, states[0], evs, states[1], states[|evs|]);
    }
  }

  lemma RootStep(c: Limits, pretty: bool)
    ensures Steps(c, BeginEncode(pretty, None), Begin(true, None), Enc([true], true, pretty, "{", None))
  {
    assert [] + [true] == [true] && "" + "{" == "{";
  }

  /** A named call inside an object. */
  lemma MemberStep(c: Limits, e: Enc, ev: Event, name: string, lead: string, next: Enc)
    requires InObject(e) && !ev.End? && ev.name == Some(name) && LegalValue(c, ev)
    requires |name| < c.nameLen && forall i :: 0 <= i < |name| ==> Plain(name[i])
    requires ev.Begin? ==> |e.stack| + 1 < MAX_LEVELS
    requires Reported(true, ev) == ev && Separator(e) == lead
    requires next.out == e.out + (lead + ("\"" + name + "\"" + Colon(e)) + Token(ev))
    requires next == if ev.Begin? then e.(stack := e.stack + [ev.isObject], first := true, out := next.out)
                     else e.(first := false, out := next.out)
    ensures Steps(c, e, ev, next)
  {
    hide Escape, Separator, ValueText, LegalValue;
    PlainIsItself(name);
    assert NUL !in name;
  }

  lemma EndStep(c: Limits, e: Enc, white: string, next: Enc)
    requires |e.stack| > 0 && white == if e.pretty && !e.first then "\n" + Indent(|e.stack| - 1) else ""
    requires next == e.(stack := e.stack[..|e.stack| - 1], first := false, out := e.out + (white + Closer(InObject(e))))
    ensures Steps(c, e, End, next)
  {
    hide Indent;
  }

  /** An element of an array. */
  lemma ElementStep(c: Limits, e: Enc, ev: Event, lead: string, next: Enc)
    requires |e.stack| > 0 && !InObject(e) && !ev.End? && LegalValue(c, ev)
    requires ev.Begin? ==> |e.stack| + 1 < MAX_LEVELS
    requires Reported(false, ev) == ev && Separator(e) == lead
    requires next.out == e.out + (lead + Token(ev))
    requires next == if ev.Begin? then e.(stack := e.stack + [ev.isObject], first := true, out := next.out)
                     else e.(first := false, out := next.out)
    ensures Steps(c, e, ev, next)
  {
    hide Separator, ValueText, LegalValue;
    assert lead + "" == lead;
  }

  /** The compact text of a complete call sequence, with anything behind it, decodes to
      the calls. */
  lemma PaddedDecodes(c: Limits, evs: seq<Event>, done: Enc, text: string)
    requires Leads(c, BeginEncode(done.pretty, None), evs, done) && evs != [] && evs[|evs| - 1].End?
    requires done.stack == [] && !done.first && done.out <= text
    ensures Decode(c, text).status == Ok && Decode(c, text).dec.fired == evs
  {
    hide LegalCalls, AfterCalls, ReportedAll, Run, SeparatedFrom;
    KeepsStep(c, text, BeginEncode(done.pretty, None), evs, []);
    assert [] + evs == evs;
    Stops(c, text, |done.out|, evs);
  }

  lemma Stops(c: Limits, text: string, p: nat, fired: seq<Event>)
    requires p <= |text|
    ensures Run(AlwaysOk, c, After([]), Reading(text, p, fired)) == Outcome(Reading(text, p, fired), Ok)
  {
  }

  function Compact(stack: seq<bool>, first: bool, out: string): Enc {
    Enc(stack, first, false, out, None)
  }

  /** A member in compact text. */
  lemma CompactMember(c: Limits, stack: seq<bool>, first: bool, out: string, ev: Event, name: string, text: string)
    requires |stack| > 0 && stack[|stack| - 1] && !ev.End? && ev.name == Some(name) && LegalValue(c, ev)
    requires |name| < c.nameLen && forall i :: 0 <= i < |name| ==> Plain(name[i])
    requires ev.Begin? ==> |stack| + 1 < MAX_LEVELS
    requires Reported(true, ev) == ev
    requires text == (if first then "" else ",") + ("\"" + name + "\"" + ":") + Token(ev)
    ensures Steps(c, Compact(stack, first, out), ev,
                  Compact(if ev.Begin? then stack + [ev.isObject] else stack, ev.Begin?, out + text))
  {
    hide Steps, LegalValue, ValueText, Reported;
    var e := Compact(stack, first, out);
    var lead := if first then "" else ",";
    assert lead + "" == lead;
    MemberStep(c, e, ev, name, lead,
               Compact(if ev.Begin? then stack + [ev.isObject] else stack, ev.Begin?, out + text));
  }

  lemma CompactEnd(c: Limits, stack: seq<bool>, first: bool, out: string)
    requires |stack| > 0 && stack[|stack| - 1]
    ensures Steps(c, Compact(stack, first, out), End, Compact(stack[..|stack| - 1], false, out + "}"))
  {
    hide Steps;
    assert "" + "}" == "}";
    EndStep(c, Compact(stack, first, out), "", Compact(stack[..|stack| - 1], false, out + "}"));
  }
}
