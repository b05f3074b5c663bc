/** Where the truncation marker of a report stands: a scan of the brackets tells whether
    it closes the root object, as it is meant to. */
module TruncationMarker {
  import opened JsonText
  import opened JsonEncoder
  import opened JsonDecoder
  import opened JsonRoundTrip
  import opened JsonDocument
  import opened JsonBalance
  import opened MmapWriter
  import opened CrashReport

  // -------------------------------------------------- what the writer keeps, scanned

  predicate IsCloser(c: char) {
    c == '}' || c == ']'
  }

  /** The closing brackets in a text, in order. */
  function Brackets(s: string): string
    decreases |s|
  {
    if s == "" then "" else (if IsCloser(s[0]) then [s[0]] else "") + Brackets(s[1..])
  }

  /** The brackets that close these containers, innermost first. */
  function Closers(stack: seq<bool>): string
    decreases |stack|
  {
    if stack == [] then "" else Closer(stack[|stack| - 1]) + Closers(stack[..|stack| - 1])
  }

  predicate AllStructural(s: string) {
    forall i :: 0 <= i < |s| ==> Structural(s[i])
  }

  lemma {:induction false} BrokenStays(s: string)
    ensures Scanned(Broken, s) == Broken
    decreases |s|
  {
    if s != "" {
      BrokenStays(s[1..]);
    }
  }

  lemma {:induction false} InsideStays(stack: seq<bool>, escaped: bool, s: string)
    requires AllStructural(s)
    ensures Scanned(Inside(stack, escaped), s).Inside?
    decreases |s|
  {
    if s != "" {
      assert Structural(s[0]);
      InsideStays(stack, false, s[1..]);
    }
  }

  lemma ClosersOfMore(stack: seq<bool>, k: nat)
    requires k < |stack|
    ensures stack[k..] == stack[..|stack| - 1][k..] + [stack[|stack| - 1]]
    ensures Closers(stack[k..]) == Closer(stack[|stack| - 1]) + Closers(stack[..|stack| - 1][k..])
  {
    var more := stack[k..];
    assert more[..|more| - 1] == stack[..|stack| - 1][k..];
  }

  /** Structural bytes close the containers down to some level exactly if their brackets
      are the closers of those above it. */
  lemma {:induction false} KeptCloses(stack: seq<bool>, s: string, base: seq<bool>)
    requires AllStructural(s)
    ensures Scanned(Outside(stack), s) == Outside(base) <==>
            base <= stack && Brackets(s) == Closers(stack[|base|..])
    decreases |s|
  {
    if s == "" {
      assert base == stack ==> stack[|base|..] == [];
      assert base <= stack && stack[|base|..] == [] ==> base == stack;
    } else {
      assert Structural(s[0]);
      if !IsCloser(s[0]) {
        KeptCloses(stack, s[1..], base);
      } else {
        KeptCloser(stack, s, base);
        if |stack| > 0 {
          KeptCloses(stack[..|stack| - 1], s[1..], base);
        }
      }
    }
  }

  /** The first byte is a closing bracket. */
  lemma KeptCloser(stack: seq<bool>, s: string, base: seq<bool>)
    requires s != "" && IsCloser(s[0])
    ensures var below := if |stack| > 0 then stack[..|stack| - 1] else [];
            var right := |stack| > 0 && stack[|stack| - 1] == (s[0] == '}');
            && (right ==> Scanned(Outside(stack), s) == Scanned(Outside(below), s[1..]))
            && (!right ==> Scanned(Outside(stack), s) == Broken)
            && (base <= stack && Brackets(s) == Closers(stack[|base|..]) <==>
                right && base <= below && Brackets(s[1..]) == Closers(below[|base|..]))
  {
    hide Scanned;
    ScanStarts(Outside(stack), s);
    BrokenStays(s[1..]);
    assert Brackets(s) == [s[0]] + Brackets(s[1..]);
    if base <= stack {
      if |base| < |stack| {
        ClosersOfMore(stack, |base|);
        assert base <= stack[..|stack| - 1];
        var closer := Closer(stack[|stack| - 1]);
        assert ([s[0]] + Brackets(s[1..]))[0] == s[0] && ([s[0]] + Brackets(s[1..]))[1..] == Brackets(s[1..]);
        var rest := Closers(stack[..|stack| - 1][|base|..]);
        assert (closer + rest)[0] == closer[0] && (closer + rest)[1..] == rest;
      } else {
        assert stack[|base|..] == [];
      }
    }
  }

  lemma ScanStarts(scan: Scan, s: string)
    requires s != ""
    ensures Scanned(scan, s) == Scanned(Step(scan, s[0]), s[1..])
  {
  }

  /** The containers open at the cut are closed down to the root by these bytes, and by
      nothing else in them; the cut is not inside a string. */
  predicate ClosesToRoot(cut: Scan, kept: string) {
    && cut.Outside? && cut.stack != [] && cut.stack[0]
    && Brackets(kept) == Closers(cut.stack[1..])
  }

  lemma CutThenKept(cut: string, kept: string)
    requires AllStructural(kept)
    ensures Scanned(Outside([]), cut + kept) == Outside([true]) <==> ClosesToRoot(Scanned(Outside([]), cut), kept)
  {
    hide Scanned, Brackets, Closers;
    ScannedConcat(Outside([]), cut, kept);
    var scan := Scanned(Outside([]), cut);
    match scan
    case Broken => BrokenStays(kept);
    case Inside(stack, escaped) => InsideStays(stack, escaped, kept);
    case Outside(stack) =>
      KeptCloses(stack, kept, [true]);
      assert [true] <= stack <==> stack != [] && stack[0];
  }

  // ------------------------------------------------ a document closes its root once

  predicate Open(scan: Scan) {
    !scan.Broken? && |scan.stack| > 0
  }

  /** Behind every character some container is open. */
  predicate StaysOpen(scan: Scan, s: string)
    decreases |s|
  {
    s != "" ==> Open(Step(scan, s[0])) && StaysOpen(Step(scan, s[0]), s[1..])
  }

  lemma {:induction false} StaysOpenConcat(scan: Scan, a: string, b: string)
    ensures StaysOpen(scan, a + b) <==> StaysOpen(scan, a) && StaysOpen(Scanned(scan, a), b)
    decreases |a|
  {
    hide Step, Open;
    if a == "" {
      assert a + b == b;
    } else {
      assert (a + b)[0] == a[0] && (a + b)[1..] == a[1..] + b;
      StaysOpenConcat(Step(scan, a[0]), a[1..], b);
    }
  }

  lemma {:induction false} OpenBehind(scan: Scan, s: string)
    requires StaysOpen(scan, s) && s != ""
    ensures Open(Scanned(scan, s))
    decreases |s|
  {
    hide Step, Open;
    if s[1..] == "" {
      assert Scanned(scan, s) == Step(scan, s[0]);
    } else {
      OpenBehind(Step(scan, s[0]), s[1..]);
    }
  }

  lemma {:induction false} NeutralOpen(stack: seq<bool>, s: string)
    requires |stack| > 0 && AllNeutral(s)
    ensures StaysOpen(Outside(stack), s)
    decreases |s|
  {
    if s != "" {
      assert Neutral(s[0]);
      NeutralOpen(stack, s[1..]);
    }
  }

  lemma EscapedCharOpen(stack: seq<bool>, c: char)
    requires |stack| > 0
    ensures StaysOpen(Inside(stack, false), EscapeChar(c))
  {
    var e := EscapeChar(c);
    if |e| == 2 {
      assert e[1..][0] == e[1] && e[1..][1..] == "";
      var behind := Step(Inside(stack, false), e[0]);
      assert behind == Inside(stack, true);
      assert StaysOpen(behind, e[1..]);
    } else {
      assert e[1..] == "";
    }
  }

  lemma {:induction false} EscapedOpen(stack: seq<bool>, s: string)
    requires |stack| > 0
    ensures StaysOpen(Inside(stack, false), Escape(s))
    decreases |s|
  {
    hide EscapeChar;
    if s != "" {
      EscapedCharOpen(stack, s[0]);
      EscapedCharInside(stack, s[0]);
      StaysOpenConcat(Inside(stack, false), EscapeChar(s[0]), Escape(s[1..]));
      EscapedOpen(stack, s[1..]);
    }
  }

  lemma QuotedOpen(stack: seq<bool>, s: string)
    requires |stack| > 0
    ensures StaysOpen(Outside(stack), "\"" + Escape(s) + "\"")
  {
    hide Escape;
    OneQuote(stack);
    QuoteOpen(stack);
    EscapedInside(stack, s);
    EscapedOpen(stack, s);
    ScannedConcat(Outside(stack), "\"", Escape(s));
    StaysOpenConcat(Outside(stack), "\"", Escape(s));
    StaysOpenConcat(Outside(stack), "\"" + Escape(s), "\"");
  }

  lemma QuoteOpen(stack: seq<bool>)
    requires |stack| > 0
    ensures StaysOpen(Outside(stack), "\"") && StaysOpen(Inside(stack, false), "\"")
  {
    assert "\""[1..] == "";
  }

  lemma NameOpen(e: Enc, name: Option<string>)
    requires |e.stack| > 0
    ensures StaysOpen(Outside(e.stack), NameText(e, name))
    ensures Scanned(Outside(e.stack), NameText(e, name)) == Outside(e.stack)
  {
    hide Escape, StaysOpen, Scanned;
    if InObject(e) && name.Some? {
      var quoted := "\"" + Escape(name.value) + "\"";
      QuotedScans(e.stack, name.value);
      QuotedOpen(e.stack, name.value);
      NeutralText(e.stack, Colon(e));
      NeutralOpen(e.stack, Colon(e));
      ScannedConcat(Outside(e.stack), quoted, Colon(e));
      StaysOpenConcat(Outside(e.stack), quoted, Colon(e));
    } else {
      NeutralText(e.stack, "");
      NeutralOpen(e.stack, "");
    }
  }

  lemma TokenOpen(stack: seq<bool>, ev: Event)
    requires |stack| > 0 && !ev.End? && PlainFloat(ev)
    ensures StaysOpen(Outside(stack), Token(ev))
  {
    hide Escape, StaysOpen, Digits;
    if ev.Begin? {
      BracketOpen(stack, ev.isObject);
    } else if ev.value.StrV? {
      QuotedOpen(stack, ev.value.s);
    } else {
      PlainValueNeutral(ev.value);
      NeutralOpen(stack, ValueText(ev.value));
    }
  }

  lemma BracketOpen(stack: seq<bool>, isObject: bool)
    ensures StaysOpen(Outside(stack), Opener(isObject))
    ensures |stack| > 0 ==> StaysOpen(Outside(stack + [isObject]), Closer(isObject))
  {
    assert Opener(isObject)[1..] == "" && Closer(isObject)[1..] == "";
    assert (stack + [isObject])[..|stack|] == stack;
  }

  /** A call inside the root keeps it open, unless it ends it. */
  lemma CallOpen(e: Enc, ev: Event)
    requires |e.stack| > 0 && PlainFloat(ev) && (ev.End? ==> |e.stack| > 1)
    ensures StaysOpen(Outside(e.stack), CallText(e, ev))
  {
    hide StaysOpen, Scanned, Token, NameText, Separator, AllNeutral;
    if ev.End? {
      EndOpen(e);
      var base := e.stack[..|e.stack| - 1];
      assert e.stack == base + [InObject(e)];
      BracketOpen(base, InObject(e));
      StaysOpenConcat(Outside(e.stack), EndWhite(e), Closer(InObject(e)));
      assert CallText(e, End) == EndWhite(e) + Closer(InObject(e));
    } else {
      var lead, name, token := Separator(e), NameText(e, ev.name), Token(ev);
      assert AllNeutral(lead) by { SeparatorNeutral(e); }
      NeutralText(e.stack, lead);
      NeutralOpen(e.stack, lead);
      NameOpen(e, ev.name);
      TokenOpen(e.stack, ev);
      StaysOpenConcat(Outside(e.stack), lead, name);
      ScannedConcat(Outside(e.stack), lead, name);
      StaysOpenConcat(Outside(e.stack), lead + name, token);
      assert CallText(e, ev) == lead + name + token by { LeadNameToken(e, ev); }
    }
  }

  lemma LeadNameToken(e: Enc, ev: Event)
    requires !ev.End?
    ensures CallText(e, ev) == Separator(e) + NameText(e, ev.name) + Token(ev)
  {
  }

  /** The white space before a closing bracket. */
  lemma EndOpen(e: Enc)
    requires |e.stack| > 0
    ensures StaysOpen(Outside(e.stack), EndWhite(e)) && Scanned(Outside(e.stack), EndWhite(e)) == Outside(e.stack)
  {
    IndentNeutral(|e.stack| - 1);
    NeutralText(e.stack, EndWhite(e));
    NeutralOpen(e.stack, EndWhite(e));
  }

  lemma LegalIsPlain(c: Limits, e: Enc, ev: Event)
    requires LegalCall(c, e, ev)
    ensures PlainFloat(ev)
  {
  }

  /** One legal call that leaves a container open. */
  lemma CallKeepsOpen(c: Limits, e: Enc, ev: Event)
    requires Balanced(e) && StaysOpen(Outside([]), e.out) && LegalCall(c, e, ev) && |AfterCall(e, ev).stack| > 0
    requires |e.stack| == 0 ==> e.out == ""
    ensures Balanced(AfterCall(e, ev)) && StaysOpen(Outside([]), AfterCall(e, ev).out)
  {
    hide StaysOpen, Scanned, CallText, LegalValue, LegalName;
    LegalIsPlain(c, e, ev);
    LegalIsSpellable(c, e, ev);
    CallEffect(e, ev);
    CallBalanced(e, ev);
    StaysOpenConcat(Outside([]), e.out, CallText(e, ev));
    if |e.stack| > 0 {
      CallOpen(e, ev);
    } else {
      assert CallText(e, ev) == Opener(ev.isObject) by { RootCallText(c, e, ev); }
      BracketOpen([], ev.isObject);
    }
  }

  lemma RootCallText(c: Limits, e: Enc, ev: Event)
    requires LegalCall(c, e, ev) && |e.stack| == 0
    ensures ev.Begin? && CallText(e, ev) == Opener(ev.isObject)
  {
    assert Separator(e) == "" && NameText(e, ev.name) == "";
  }

  lemma {:induction false} CallsKeepOpen(c: Limits, e: Enc, evs: seq<Event>)
    requires Balanced(e) && StaysOpen(Outside([]), e.out) && LegalCalls(c, e, evs) && |AfterCalls(e, evs).stack| > 0
    requires |e.stack| == 0 ==> e.out == ""
    ensures Balanced(AfterCalls(e, evs)) && StaysOpen(Outside([]), AfterCalls(e, evs).out)
    decreases |evs|
  {
    hide StaysOpen, Balanced, AfterCall, LegalCall;
    if evs != [] {
      var next := AfterCall(e, evs[0]);
      if |next.stack| == 0 {
        NothingBehindRoot(c, e, evs);
      }
      CallKeepsOpen(c, e, evs[0]);
      CallsKeepOpen(c, next, evs[1..]);
    }
  }

  lemma NothingBehindRoot(c: Limits, e: Enc, evs: seq<Event>)
    requires evs != [] && LegalCalls(c, e, evs) && |AfterCall(e, evs[0]).stack| == 0
    ensures AfterCalls(e, evs).stack == []
  {
    hide CallText, LegalValue, LegalName;
    if evs[1..] != [] {
      assert LegalCall(c, AfterCall(e, evs[0]), evs[1..][0]);
    }
  }

  /** All calls of a document but the last, which closes its root. */
  lemma DocumentSplits(c: Limits, pretty: bool, evs: seq<Event>) returns (before: Enc)
    requires LegalDocument(c, evs)
    ensures Balanced(before) && StaysOpen(Outside([]), before.out) && |before.stack| == 1
    ensures DocumentText(pretty, evs) == before.out + CallText(before, End)
  {
    hide StaysOpen, Balanced, AfterCall, LegalCall, EndEncode, Calls, CallText;
    var begin := BeginEncode(pretty, None);
    PrettyIrrelevant(c, BeginEncode(false, None), begin, evs);
    LegalCallsSucceed(c, begin, evs);
    var open := AfterCalls(begin, evs);
    var ends := Ends(|open.stack|);
    EndEncodeCloses(c, open);
    CallsAppend(c, begin, evs, ends);
    var all := evs + ends;
    ClosedByEnd(c, begin, all);
    var n := |all| - 1;
    assert all == all[..n] + [End];
    CallsAppend(c, begin, all[..n], [End]);
    before := AfterCalls(begin, all[..n]);
    assert LegalCall(c, before, End) && AfterCalls(before, [End]) == AfterCall(before, End);
    assert |before.stack| > 0 by { EndNeedsContainer(c, before); }
    ClosesOne(before);
    NothingScanned(begin);
    CallsKeepOpen(c, begin, all[..n]);
  }

  lemma NothingScanned(e: Enc)
    requires e.out == "" && e.stack == [] && e.limit.None?
    ensures Balanced(e) && StaysOpen(Outside([]), e.out)
  {
  }

  /** While something stays open, the outermost container stays the same. */
  lemma {:induction false} RootStaysUnder(scan: Scan, s: string)
    requires Open(scan) && StaysOpen(scan, s)
    ensures Open(Scanned(scan, s)) && Scanned(scan, s).stack[0] == scan.stack[0]
    decreases |s|
  {
    if s != "" {
      RootStaysUnder(Step(scan, s[0]), s[1..]);
    }
  }

  /** A document closes all its containers, and its root only with its last character. */
  lemma ClosedAtEndOnly(c: Limits, pretty: bool, evs: seq<Event>, n: nat)
    requires LegalDocument(c, evs) && n <= |DocumentText(pretty, evs)|
    ensures var text := DocumentText(pretty, evs);
            && Scanned(Outside([]), text) == Outside([])
            && (0 < n < |text| ==>
                  var scan := Scanned(Outside([]), text[..n]);
                  Open(scan) && scan.stack[0] == (text[|text| - 1] == '}'))
  {
    hide StaysOpen, Scanned, DocumentText, LegalDocument, Open;
    var before := DocumentSplits(c, pretty, evs);
    var text := DocumentText(pretty, evs);
    var closer := Closer(InObject(before));
    var inner := before.out + EndWhite(before);
    assert before.stack == [InObject(before)];
    assert text == inner + closer;
    EndOpen(before);
    StaysOpenConcat(Outside([]), before.out, EndWhite(before));
    ScannedConcat(Outside([]), before.out, EndWhite(before));
    ScannedConcat(Outside([]), inner, closer);
    OneBracket([], InObject(before));
    assert [] + [InObject(before)] == before.stack;
    if 0 < n < |text| {
      assert text[..n] == inner[..n] && inner == inner[..n] + inner[n..];
      StaysOpenConcat(Outside([]), inner[..n], inner[n..]);
      OpenBehind(Outside([]), inner[..n]);
      ScannedConcat(Outside([]), inner[..n], inner[n..]);
      RootStaysUnder(Scanned(Outside([]), inner[..n]), inner[n..]);
    }
  }

  // ------------------------------------------------------------------- the marker

  /** The text ends with the marker, and the marker stands directly in the root object,
      which it closes. */
  predicate MarkerInRoot(text: string) {
    && |text| >= MARKER_LEN && text[|text| - MARKER_LEN..] == MARKER
    && Scanned(Outside([]), text[..|text| - MARKER_LEN]) == Outside([true])
  }

  lemma MarkerEnds(text: string)
    requires MarkerInRoot(text)
    ensures text != "" && text[|text| - 1] == '}'
  {
    assert |MARKER| == MARKER_LEN && text[|text| - 1] == text[|text| - MARKER_LEN..][MARKER_LEN - 1];
  }

  lemma LastOfSum(a: string, b: string, tail: string)
    requires tail != ""
    ensures (a + b + tail)[|a + b + tail| - 1] == tail[|tail| - 1]
  {
  }

  /** Bytes without a brace behind the last one, or behind the marker, end the text. */
  lemma EndsElsewhere(text: string)
    requires var p := LastBrace(text); p == 0 || |text| - p >= MARKER_LEN
    ensures !MarkerInRoot(Marked(text))
  {
    hide LastBrace, Scanned, MarkerInRoot, Marked;
    OtherLast(text);
    if MarkerInRoot(Marked(text)) {
      MarkerEnds(Marked(text));
    }
  }

  lemma OtherLast(text: string)
    requires var p := LastBrace(text); p == 0 || |text| - p >= MARKER_LEN
    ensures Marked(text) == "" || Marked(text)[|Marked(text)| - 1] != '}'
  {
    hide LastBrace;
    var p := LastBrace(text);
    if p > 0 {
      var tail := text[p - 1 + MARKER_LEN..];
      LastOfSum(text[..p - 1], MARKER, tail);
      assert tail[|tail| - 1] == text[|text| - 1];
    }
  }

  lemma EndsWithMarker(before: string)
    ensures MarkerInRoot(before + MARKER) <==> Scanned(Outside([]), before) == Outside([true])
  {
    hide Scanned;
    assert |MARKER| == MARKER_LEN;
    assert (before + MARKER)[..|before|] == before && (before + MARKER)[|before|..] == MARKER;
  }

  /** When the marker ends the text and closes the root. */
  lemma MarkedShape(text: string)
    ensures var p := LastBrace(text);
            MarkerInRoot(Marked(text)) <==>
            p > 0 && |text| - p < MARKER_LEN && Scanned(Outside([]), text[..p - 1]) == Outside([true])
  {
    hide LastBrace, Scanned, MarkerInRoot, Marked;
    var p := LastBrace(text);
    if p > 0 && |text| - p < MARKER_LEN {
      assert Marked(text) == text[..p - 1] + MARKER by { MarkerLast(text); }
      EndsWithMarker(text[..p - 1]);
    } else {
      EndsElsewhere(text);
    }
  }

  lemma MarkerLast(text: string)
    requires LastBrace(text) > 0 && |text| - LastBrace(text) < MARKER_LEN
    ensures Marked(text) == text[..LastBrace(text) - 1] + MARKER
  {
    hide LastBrace;
    assert text[..LastBrace(text) - 1] + MARKER + "" == text[..LastBrace(text) - 1] + MARKER;
  }

  lemma LastBraceOfSum(a: string, b: string)
    ensures LastBrace(a + b) == if LastBrace(b) > 0 then |a| + LastBrace(b) else LastBrace(a)
  {
    hide LastBrace;
    var p, q, r := LastBrace(a), LastBrace(b), LastBrace(a + b);
    var expected := if q > 0 then |a| + q else p;
    assert forall i :: expected <= i < |a + b| ==> (a + b)[i] != '}';
    assert expected > 0 ==> (a + b)[expected - 1] == '}';
    assert r > 0 ==> (a + b)[r - 1] == '}';
  }

  /** A brace before the cut does not close the root. */
  lemma CutIsInside(c: Limits, pretty: bool, evs: seq<Event>, limit: nat, p: nat)
    requires LegalDocument(c, evs) && limit < |DocumentText(pretty, evs)|
    requires 0 < p <= limit && DocumentText(pretty, evs)[p - 1] == '}'
    ensures Scanned(Outside([]), DocumentText(pretty, evs)[..p - 1]) != Outside([true])
  {
    hide Scanned, DocumentText, LegalDocument;
    var text := DocumentText(pretty, evs);
    ClosedAtEndOnly(c, pretty, evs, p);
    assert text[..p] == text[..p - 1] + "}";
    ScannedConcat(Outside([]), text[..p - 1], "}");
    OneBracket([], true);
    assert [] + [true] == [true];
  }

  /** What is kept behind the overflow, as far as there is room for it. */
  ghost function Kept(size: nat, chunks: seq<string>): string
    requires size >= RESERVE
  {
    Take(Keep(Behind(size - RESERVE, chunks)), RESERVE - MARKER_LEN)
  }

  lemma KeptStructural(size: nat, chunks: seq<string>)
    requires size >= RESERVE
    ensures AllStructural(Kept(size, chunks))
  {
    var kept := Keep(Behind(size - RESERVE, chunks));
    assert forall i :: 0 <= i < |Kept(size, chunks)| ==> Kept(size, chunks)[i] == kept[i];
  }

  lemma StructuralPrefix(s: string, n: nat)
    requires AllStructural(s) && n <= |s|
    ensures AllStructural(s[..n])
  {
  }

  /** The marker closes the root object of a truncated report, as it is meant to, if and
      only if a brace is kept behind the overflow with fewer than 22 bytes behind it, the
      stream is not cut inside a string, and the brackets kept before that brace are
      exactly the closers of the containers open at the cut, innermost first, down to the
      root. */
  lemma MarkerClosesRoot(c: Limits, pretty: bool, evs: seq<Event>, size: nat, chunks: seq<string>)
    requires LegalDocument(c, evs) && evs[0] == Begin(true, None)
    requires size >= RESERVE && Stream(chunks) == DocumentText(pretty, evs)
    requires |DocumentText(pretty, evs)| > size - RESERVE
    ensures var cut := DocumentText(pretty, evs)[..size - RESERVE];
            var kept := Kept(size, chunks);
            var q := LastBrace(kept);
            MarkerInRoot(Marked(WriteAll(size, chunks).text)) <==>
            && q > 0 && |kept| - q < MARKER_LEN
            && ClosesToRoot(Scanned(Outside([]), cut), kept[..q - 1])
  {
    hide DocumentText, LegalDocument, Behind, WriteAll, Stream, Keep, Marked, MarkerInRoot, LastBrace, Scanned,
         ClosesToRoot, Kept, AllStructural, Take;
    var limit := size - RESERVE;
    var cut, kept := DocumentText(pretty, evs)[..limit], Kept(size, chunks);
    var text := WriteAll(size, chunks).text;
    assert text == cut + kept by { KeptText(size, chunks); }
    MarkedShape(text);
    LastBraceOfSum(cut, kept);
    var q := LastBrace(kept);
    if q > 0 {
      KeptStructural(size, chunks);
      StructuralPrefix(kept, q - 1);
      CutThenKept(cut, kept[..q - 1]);
      assert text[..limit + q - 1] == cut + kept[..q - 1];
    } else if LastBrace(cut) > 0 {
      var p := LastBrace(cut);
      CutIsInside(c, pretty, evs, limit, p);
      assert text[..p - 1] == DocumentText(pretty, evs)[..p - 1];
    }
  }

  lemma KeptText(size: nat, chunks: seq<string>)
    requires size >= RESERVE && |Stream(chunks)| > size - RESERVE
    ensures WriteAll(size, chunks).text == Stream(chunks)[..size - RESERVE] + Kept(size, chunks)
  {
    hide Keep, Behind, WriteAll, Stream;
    WriterClosedForm(size, chunks);
  }

  /** Where the marker replaces the brace that ends the stream: it closes the root if and
      only if the brackets kept before that brace close everything else. */
  lemma MarkerAtLastBrace(c: Limits, pretty: bool, evs: seq<Event>, size: nat, chunks: seq<string>)
    requires LegalDocument(c, evs) && evs[0] == Begin(true, None)
    requires size >= RESERVE && Stream(chunks) == DocumentText(pretty, evs)
    requires |DocumentText(pretty, evs)| > size - RESERVE
    requires var behind := Behind(size - RESERVE, chunks); behind != "" && |Keep(behind)| <= RESERVE - MARKER_LEN
    ensures var cut := DocumentText(pretty, evs)[..size - RESERVE];
            var closing := Keep(ButLast(Behind(size - RESERVE, chunks)));
            && Marked(WriteAll(size, chunks).text) == cut + closing + MARKER
            && (MarkerInRoot(Marked(WriteAll(size, chunks).text)) <==>
                ClosesToRoot(Scanned(Outside([]), cut), closing))
  {
    hide DocumentText, LegalDocument, WriteAll, Stream, Keep, Marked, MarkerInRoot, LastBrace, Scanned, ClosesToRoot,
         Behind, Take, ButLast;
    var limit := size - RESERVE;
    var stream, behind := Stream(chunks), Behind(limit, chunks);
    DocumentCloses(c, pretty, evs);
    MarkerReplacesCloser(size, chunks);
    MarkerClosesRoot(c, pretty, evs, size, chunks);
    TakeLength(Keep(behind), RESERVE - MARKER_LEN);
    TakeMoreIsSame(stream, "", limit);
    assert stream + "" == stream;
    BehindIsSuffix(limit, chunks);
    assert behind[|behind| - 1] == stream[|stream| - 1] == '}';
    KeepLast(behind);
    var closing := Keep(ButLast(behind));
    LastBraceOfSum(closing, "}");
    assert LastBrace("}") == 1 by { OneBrace(); }
    assert (closing + "}")[..|closing|] == closing;
  }

  lemma OneBrace()
    ensures LastBrace("}") == 1
  {
  }

  // ----------------------------------------------------- when that is sure to happen

  lemma {:induction false} BracketsConcat(a: string, b: string)
    ensures Brackets(a + b) == Brackets(a) + Brackets(b)
    decreases |a|
  {
    if a == "" {
      assert a + b == b;
    } else {
      BracketsConcat(a[1..], b);
      assert (a + b)[1..] == a[1..] + b && (a + b)[0] == a[0];
      var head := if IsCloser(a[0]) then [a[0]] else "";
      assert head + (Brackets(a[1..]) + Brackets(b)) == (head + Brackets(a[1..])) + Brackets(b);
    }
  }

  /** The writer keeps every closing bracket. */
  lemma {:induction false} BracketsKept(s: string)
    ensures Brackets(Keep(s)) == Brackets(s)
    decreases |s|
  {
    if s != "" {
      var n := |s| - 1;
      BracketsKept(s[..n]);
      assert s == s[..n] + [s[n]];
      BracketsConcat(s[..n], [s[n]]);
      BracketsConcat(Keep(s[..n]), if Structural(s[n]) then [s[n]] else "");
      OneBracketChar(s[n]);
    }
  }

  lemma OneBracketChar(c: char)
    ensures Brackets([c]) == (if IsCloser(c) then [c] else "")
    ensures IsCloser(c) ==> Structural(c)
  {
    assert [c][1..] == "";
  }

  /** No container begins in this text, and no closing bracket stands in a string. */
  predicate OnlyCloses(scan: Scan, s: string)
    decreases |s|
  {
    s != "" ==>
      && (scan.Outside? ==> s[0] != '{' && s[0] != '[')
      && (scan.Inside? ==> !IsCloser(s[0]))
      && OnlyCloses(Step(scan, s[0]), s[1..])
  }

  lemma ClosersTop(stack: seq<bool>)
    requires stack != []
    ensures Closers(stack) == Closer(stack[|stack| - 1]) + Closers(stack[..|stack| - 1])
  {
  }

  lemma OneCloses(scan: Scan, c: char)
    requires (scan.Outside? ==> c != '{' && c != '[') && (scan.Inside? ==> !IsCloser(c))
    requires !scan.Broken? && !Step(scan, c).Broken?
    ensures Closers(scan.stack) == (if IsCloser(c) then [c] else "") + Closers(Step(scan, c).stack)
  {
    hide Closers;
    if IsCloser(c) {
      ClosersTop(scan.stack);
    } else {
      assert "" + Closers(scan.stack) == Closers(scan.stack);
    }
  }

  /** Text in which no container begins closes exactly the containers that its brackets
      name. */
  lemma {:induction false} BracketsClose(scan: Scan, s: string)
    requires !scan.Broken? && OnlyCloses(scan, s) && Scanned(scan, s) == Outside([])
    ensures Brackets(s) == Closers(scan.stack)
    decreases |s|
  {
    hide Step, Closers, IsCloser;
    if s == "" {
      assert Closers([]) == "" by { NoClosers(); }
    } else {
      var next := Step(scan, s[0]);
      if next.Broken? {
        BrokenStays(s[1..]);
      }
      BracketsClose(next, s[1..]);
      OneCloses(scan, s[0]);
    }
  }

  lemma NoClosers()
    ensures Closers([]) == ""
  {
  }

  lemma {:induction false} RootCloserLast(stack: seq<bool>)
    requires stack != []
    ensures Closers(stack) == Closers(stack[1..]) + Closer(stack[0])
    decreases |stack|
  {
    hide Closers, Closer;
    var n := |stack| - 1;
    ClosersTop(stack);
    NoClosers();
    if n > 0 {
      RootCloserLast(stack[..n]);
      ClosersTop(stack[1..]);
      assert stack[1..][..n - 1] == stack[..n][1..];
      Regroup(Closer(stack[n]), Closers(stack[..n][1..]), Closer(stack[0]));
    } else {
      assert stack[..0] == [] && stack[1..] == [];
      Regroup("", "", Closer(stack[0]));
    }
  }

  lemma Regroup(a: string, b: string, c: string)
    ensures a + (b + c) == (a + b) + c
    ensures c + "" == c == "" + c
  {
  }

  lemma SameFront(a: string, b: string, c: string)
    requires a + c == b + c
    ensures a == b
  {
    assert (a + c)[..|a|] == a && (b + c)[..|b|] == b;
  }

  /** What is lost of the chunk that overflowed. */
  ghost function Dropped(limit: nat, chunks: seq<string>): string
    requires |Stream(chunks)| > limit
  {
    BehindIsSuffix(limit, chunks);
    Stream(chunks)[limit..|Stream(chunks)| - |Behind(limit, chunks)|]
  }

  lemma RestOfStream(limit: nat, chunks: seq<string>)
    requires |Stream(chunks)| > limit
    ensures Stream(chunks)[limit..] == Dropped(limit, chunks) + Behind(limit, chunks)
  {
    hide Stream, Behind;
    BehindIsSuffix(limit, chunks);
  }

  /** If the overflow comes outside of strings, no container begins behind the limit, no
      string there holds a closing bracket, and what is lost of the overflowing chunk holds
      none either, then the marker closes the root as soon as there is room for all the
      structural bytes. */
  lemma MarkerClosesPlainRest(c: Limits, pretty: bool, evs: seq<Event>, size: nat, chunks: seq<string>)
    requires LegalDocument(c, evs) && evs[0] == Begin(true, None)
    requires size > RESERVE && Stream(chunks) == DocumentText(pretty, evs)
    requires |DocumentText(pretty, evs)| > size - RESERVE
    requires var limit := size - RESERVE;
             var cut := Scanned(Outside([]), DocumentText(pretty, evs)[..limit]);
             && cut.Outside? && OnlyCloses(cut, DocumentText(pretty, evs)[limit..])
             && Brackets(Dropped(limit, chunks)) == ""
             && |Keep(Behind(limit, chunks))| <= RESERVE - MARKER_LEN
    ensures MarkerInRoot(Marked(WriteAll(size, chunks).text))
  {
    hide DocumentText, LegalDocument, WriteAll, Stream, Keep, Marked, MarkerInRoot, Scanned, Behind, OnlyCloses,
         Brackets, Closers, Dropped, StaysOpen;
    var limit := size - RESERVE;
    var text, behind := DocumentText(pretty, evs), Behind(limit, chunks);
    var cut := Scanned(Outside([]), text[..limit]);
    assert text == text[..limit] + text[limit..];
    ScannedConcat(Outside([]), text[..limit], text[limit..]);
    ClosedAtEndOnly(c, pretty, evs, limit);
    BracketsClose(cut, text[limit..]);
    RestOfStream(limit, chunks);
    BracketsConcat(Dropped(limit, chunks), behind);
    assert "" + Brackets(behind) == Brackets(behind) == Closers(cut.stack);
    DocumentCloses(c, pretty, evs);
    RootCloserLast(cut.stack);
    NoBrackets();
    BehindIsSuffix(limit, chunks);
    assert behind[|behind| - 1] == text[|text| - 1] == '}';
    assert behind == ButLast(behind) + "}";
    BracketsConcat(ButLast(behind), "}");
    OneBracketChar('}');
    SameFront(Brackets(ButLast(behind)), Closers(cut.stack[1..]), "}");
    BracketsKept(ButLast(behind));
    MarkerAtLastBrace(c, pretty, evs, size, chunks);
  }

  lemma NoBrackets()
    ensures Brackets("") == ""
  {
  }
}
