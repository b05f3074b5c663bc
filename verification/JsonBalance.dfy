/** Brackets and quotes of the encoder's output match whatever is called and whatever
    fails: scanning the text finds exactly the container stack open. */
module JsonBalance {
  import opened JsonText
  import opened JsonEncoder

  /** Where a scan of JSON text stands: the brackets open, outermost first, and whether
      it is inside a string, behind a backslash there, or has met a wrong closer. */
  datatype Scan =
    | Outside(stack: seq<bool>)
    | Inside(stack: seq<bool>, escaped: bool)
    | Broken

  function Step(scan: Scan, c: char): Scan {
    match scan
    case Broken => Broken
    case Inside(stack, escaped) =>
      if escaped then Inside(stack, false)
      else if c == '\\' then Inside(stack, true)
      else if c == '\"' then Outside(stack)
      else scan
    case Outside(stack) =>
      if c == '\"' then Inside(stack, false)
      else if c == '{' || c == '[' then Outside(stack + [c == '{'])
      else if c == '}' || c == ']' then
        if |stack| > 0 && stack[|stack| - 1] == (c == '}') then Outside(stack[..|stack| - 1]) else Broken
      else scan
  }

  function Scanned(scan: Scan, s: string): Scan
    decreases |s|
  {
    if s == "" then scan else Scanned(Step(scan, s[0]), s[1..])
  }

  lemma {:induction false} ScannedConcat(scan: Scan, a: string, b: string)
    ensures Scanned(scan, a + b) == Scanned(Scanned(scan, a), b)
    decreases |a|
  {
    hide Step;
    if a == "" {
      assert a + b == b;
    } else {
      assert (a + b)[0] == a[0] && (a + b)[1..] == a[1..] + b;
      ScannedConcat(Step(scan, a[0]), a[1..], b);
    }
  }

  predicate Neutral(c: char) {
    c != '\"' && c != '{' && c != '[' && c != '}' && c != ']'
  }

  predicate AllNeutral(s: string) {
    forall i :: 0 <= i < |s| ==> Neutral(s[i])
  }

  lemma {:induction false} NeutralText(stack: seq<bool>, s: string)
    requires AllNeutral(s)
    ensures Scanned(Outside(stack), s) == Outside(stack)
    decreases |s|
  {
    if s != "" {
      assert Neutral(s[0]);
      NeutralText(stack, s[1..]);
    }
  }

  lemma EscapedCharInside(stack: seq<bool>, c: char)
    ensures Scanned(Inside(stack, false), EscapeChar(c)) == Inside(stack, false)
  {
    var e := EscapeChar(c);
    if |e| == 2 {
      var behind := Step(Inside(stack, false), e[0]);
      assert behind == Inside(stack, true);
      assert e[1..][0] == e[1] && e[1..][1..] == "";
      assert Scanned(behind, e[1..]) == Scanned(Step(behind, e[1]), "");
    } else {
      assert e[1..] == "";
    }
  }

  lemma {:induction false} EscapedInside(stack: seq<bool>, s: string)
    ensures Scanned(Inside(stack, false), Escape(s)) == Inside(stack, false)
    decreases |s|
  {
    hide EscapeChar;
    if s != "" {
      EscapedCharInside(stack, s[0]);
      ScannedConcat(Inside(stack, false), EscapeChar(s[0]), Escape(s[1..]));
      EscapedInside(stack, s[1..]);
    }
  }

  lemma QuotedScans(stack: seq<bool>, s: string)
    ensures Scanned(Outside(stack), "\"" + Escape(s) + "\"") == Outside(stack)
  {
    hide Escape;
    OneQuote(stack);
    EscapedInside(stack, s);
    ScannedConcat(Outside(stack), "\"" + Escape(s), "\"");
    ScannedConcat(Outside(stack), "\"", Escape(s));
  }

  lemma OneQuote(stack: seq<bool>)
    ensures Scanned(Outside(stack), "\"") == Inside(stack, false)
    ensures Scanned(Inside(stack, false), "\"") == Outside(stack)
  {
    assert "\""[1..] == "";
  }

  // ------------------------------------------------------------------ the encoder

  /** The text written so far has exactly the containers of the stack open and is not
      inside a string. */
  predicate Balanced(e: Enc) {
    e.limit.None? && Scanned(Outside([]), e.out) == Outside(e.stack)
  }

  lemma Extends(e: Enc, f: Enc, text: string)
    requires Balanced(e) && f.limit.None? && f.out == e.out + text
    requires Scanned(Outside(e.stack), text) == Outside(f.stack)
    ensures Balanced(f)
  {
    ScannedConcat(Outside([]), e.out, text);
  }

  lemma NeutralExtends(e: Enc, f: Enc, text: string)
    requires Balanced(e) && f.limit.None? && f.out == e.out + text && f.stack == e.stack && AllNeutral(text)
    ensures Balanced(f)
  {
    NeutralText(e.stack, text);
    Extends(e, f, text);
  }

  /** What escaping appends before it succeeds or gives up. */
  lemma {:induction false} EscapedPart(e: Enc, s: string) returns (n: nat)
    requires e.limit.None?
    ensures n <= |s| && AddEscaped(e, s).enc == e.(out := e.out + Escape(s[..n]))
    decreases |s|
  {
    hide AllEscapable, Escape;
    NothingToEscape();
    n := 0;
    assert s[..0] == "" && e.out + "" == e.out;
    if s != "" {
      var m := if |s| > MAX_CHUNK then MAX_CHUNK else |s|;
      var r := AppendEscaped(e, s[..m]);
      if r.status == Ok {
        var more := EscapedPart(r.enc, s[m..]);
        n := m + more;
        assert s[..n] == s[..m] + s[m..][..more];
        EscapeConcat(s[..m], s[m..][..more]);
        assert e.out + Escape(s[..m]) + Escape(s[m..][..more]) == e.out + (Escape(s[..m]) + Escape(s[m..][..more]));
      }
    }
  }

  lemma QuotedBalanced(e: Enc, s: string)
    requires Balanced(e)
    ensures Balanced(AddQuoted(e, s).enc) && AddQuoted(e, s).enc.stack == e.stack
    ensures AddQuoted(e, s).enc.pretty == e.pretty && AddQuoted(e, s).enc.first == e.first
  {
    hide AddEscaped, Escape, Scanned;
    var open := Emit(e, "\"").enc;
    var n := EscapedPart(open, s);
    var text := "\"" + Escape(s[..n]) + "\"";
    assert AddQuoted(e, s).enc.out == e.out + text;
    QuotedScans(e.stack, s[..n]);
    Extends(e, AddQuoted(e, s).enc, text);
  }

  lemma {:induction false} IndentNeutral(levels: nat)
    ensures AllNeutral(Indent(levels))
    decreases levels
  {
    if levels > 0 {
      IndentNeutral(levels - 1);
    }
  }

  lemma SeparateBalanced(e: Enc)
    requires Balanced(e)
    ensures Balanced(Separate(e).enc)
    ensures Separate(e).status == Ok && Separate(e).enc == e.(first := false, out := Separate(e).enc.out)
  {
    hide Scanned, Separate, Separator;
    SeparatorText(e);
    SeparatorNeutral(e);
    NeutralExtends(e, Separate(e).enc, Separator(e));
  }

  lemma SeparatorNeutral(e: Enc)
    ensures AllNeutral(Separator(e))
  {
    IndentNeutral(|e.stack|);
  }

  lemma BeginElementBalanced(e: Enc, name: Option<string>)
    requires Balanced(e)
    ensures var r := BeginElement(e, name).enc; Balanced(r) && r.stack == e.stack && !r.first && r.pretty == e.pretty
  {
    hide Scanned, Separate, AddQuoted;
    SeparateBalanced(e);
    var lead := Separate(e).enc;
    if InObject(lead) && name.Some? {
      QuotedBalanced(lead, name.value);
      var quoted := AddQuoted(lead, name.value);
      NeutralExtends(quoted.enc, quoted.enc.(out := quoted.enc.out + Colon(lead)), Colon(lead));
    }
  }

  /** The opaque spelling of a double has no quotes or brackets. */
  predicate PlainFloat(ev: Event) {
    ev.Scalar? && ev.value.FloatV? ==> forall i :: 0 <= i < |ev.value.digits| ==> IsFPChar(ev.value.digits[i])
  }

  lemma {:induction false} DigitsNeutral(n: nat)
    ensures AllNeutral(Digits(n))
    decreases n
  {
    if n >= 10 {
      DigitsNeutral(n / 10);
    }
  }

  lemma PlainValueNeutral(v: Value)
    requires !v.StrV? && PlainFloat(Scalar(None, v))
    ensures AllNeutral(ValueText(v))
  {
    hide Digits;
    match v
    case IntV(i) => DigitsNeutral(if i < 0 then -i else i);
    case UIntV(u) => DigitsNeutral(u);
    case FloatV(_, digits) => assert forall i :: 0 <= i < |digits| ==> IsFPChar(digits[i]);
    case _ =>
  }

  lemma ScalarBalanced(e: Enc, ev: Event)
    requires Balanced(e) && ev.Scalar? && PlainFloat(ev)
    ensures Balanced(Call(e, ev).enc) && Call(e, ev).enc.stack == e.stack
  {
    hide BeginElement, AddQuoted, Scanned, ValueText, AllNeutral;
    BeginElementBalanced(e, ev.name);
    var b := BeginElement(e, ev.name);
    if b.status == Ok {
      if ev.value.StrV? {
        QuotedBalanced(b.enc, ev.value.s);
      } else {
        PlainValueNeutral(ev.value);
        NeutralExtends(b.enc, Call(e, ev).enc, ValueText(ev.value));
      }
    }
  }

  lemma ContainerBalanced(e: Enc, ev: Event)
    requires Balanced(e) && ev.Begin?
    ensures Balanced(Call(e, ev).enc)
    ensures Call(e, ev).enc.stack == if Call(e, ev).status == Ok then e.stack + [ev.isObject] else e.stack
  {
    hide BeginElement;
    BeginElementBalanced(e, ev.name);
    var b := BeginElement(e, ev.name);
    if b.status == Ok {
      OneBracket(e.stack, ev.isObject);
      Extends(b.enc, Call(e, ev).enc, Opener(ev.isObject));
    }
  }

  lemma OneBracket(stack: seq<bool>, isObject: bool)
    ensures Scanned(Outside(stack), Opener(isObject)) == Outside(stack + [isObject])
    ensures Scanned(Outside(stack + [isObject]), Closer(isObject)) == Outside(stack)
  {
    assert Opener(isObject)[1..] == "" && Closer(isObject)[1..] == "";
    assert (stack + [isObject])[..|stack|] == stack;
  }

  lemma EndBalanced(e: Enc)
    requires Balanced(e)
    ensures Balanced(EndContainer(e).enc)
    ensures EndContainer(e).enc.stack == if |e.stack| == 0 then [] else e.stack[..|e.stack| - 1]
  {
    hide Scanned;
    if |e.stack| > 0 {
      EndContainerText(e);
      var base, kind := e.stack[..|e.stack| - 1], e.stack[|e.stack| - 1];
      assert e.stack == base + [kind];
      var white := if e.pretty && !e.first then "\n" + Indent(|e.stack| - 1) else "";
      IndentNeutral(|e.stack| - 1);
      NeutralText(e.stack, white);
      OneBracket(base, kind);
      ScannedConcat(Outside(e.stack), white, Closer(kind));
      assert CallText(e, End) == white + Closer(kind);
      Extends(e, EndContainer(e).enc, CallText(e, End));
    }
  }

  /** Every call, whether it succeeds or fails, keeps brackets and quotes matched and the
      open brackets equal to the container stack; one that fails leaves the stack. */
  lemma CallBalanced(e: Enc, ev: Event)
    requires Balanced(e) && PlainFloat(ev)
    ensures Balanced(Call(e, ev).enc)
    ensures Call(e, ev).status != Ok ==> Call(e, ev).enc.stack == e.stack
  {
    hide Balanced, BeginContainer, AddScalar, EndContainer;
    match ev
    case Begin(_, _) => ContainerBalanced(e, ev);
    case Scalar(_, _) => ScalarBalanced(e, ev);
    case End =>
      EndBalanced(e);
      assert e.limit.None? by { BalancedUnlimited(e); }
      EndAlwaysSucceeds(e);
  }

  lemma BalancedUnlimited(e: Enc)
    requires Balanced(e)
    ensures e.limit.None?
  {
  }

  lemma EndAlwaysSucceeds(e: Enc)
    requires e.limit.None?
    ensures EndContainer(e).status == Ok
  {
    if |e.stack| > 0 {
      EndContainerText(e);
    }
  }

  /** No container is begun that isObject could not hold. */
  predicate NeverTooDeep(e: Enc, evs: seq<Event>)
    decreases |evs|
  {
    evs != [] ==> (evs[0].Begin? ==> |e.stack| + 1 < MAX_LEVELS) && NeverTooDeep(Call(e, evs[0]).enc, evs[1..])
  }

  lemma {:induction false} BlindlyBalanced(e: Enc, evs: seq<Event>)
    requires Balanced(e) && forall i :: 0 <= i < |evs| ==> PlainFloat(evs[i])
    requires NeverTooDeep(e, evs)
    ensures Balanced(Blindly(e, evs))
    decreases |evs|
  {
    hide Call, Balanced, PlainFloat;
    if evs != [] {
      CallBalanced(e, evs[0]);
      BlindlyBalanced(Call(e, evs[0]).enc, evs[1..]);
    }
  }

  lemma {:induction false} EndEncodeBalanced(e: Enc)
    requires Balanced(e)
    ensures Balanced(EndEncode(e).enc) && EndEncode(e).enc.stack == []
    decreases |e.stack|
  {
    hide Balanced, EndContainer;
    if |e.stack| > 0 {
      EndBalanced(e);
      BalancedUnlimited(e);
      EndAlwaysSucceeds(e);
      EndEncodeBalanced(EndContainer(e).enc);
    }
  }

  /** After any calls at all, in any order, failed ones included and their results
      ignored, the open brackets of the text are exactly the container stack and every
      string is closed; endEncode closes the rest. */
  lemma BracketsMatch(pretty: bool, evs: seq<Event>)
    requires forall i :: 0 <= i < |evs| ==> PlainFloat(evs[i])
    requires NeverTooDeep(BeginEncode(pretty, None), evs)
    ensures var e := Blindly(BeginEncode(pretty, None), evs);
            && Scanned(Outside([]), e.out) == Outside(e.stack)
            && Scanned(Outside([]), EndEncode(e).enc.out) == Outside([])
  {
    hide Blindly, EndEncode;
    BlindlyBalanced(BeginEncode(pretty, None), evs);
    EndEncodeBalanced(Blindly(BeginEncode(pretty, None), evs));
  }
}
