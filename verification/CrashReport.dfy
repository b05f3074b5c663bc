/** From the encoder through the memory-mapped buffer to the next launch. */
module CrashReport {
  import opened JsonText
  import opened JsonEncoder
  import opened JsonDecoder
  import opened JsonRoundTrip
  import opened JsonDocument
  import opened MmapWriter

  // ---------------------------------------------------------- the end of a document

  /** While its root is open, the innermost container list starts with it. */
  lemma {:induction false} RootStays(c: Limits, e: Enc, evs: seq<Event>)
    requires LegalCalls(c, e, evs) && |e.stack| > 0 && |AfterCalls(e, evs).stack| > 0
    ensures AfterCalls(e, evs).stack[0] == e.stack[0]
    decreases |evs|
  {
    hide CallText, LegalValue, LegalName;
    if evs != [] {
      var next := AfterCall(e, evs[0]);
      if |next.stack| > 0 {
        RootStays(c, next, evs[1..]);
      }
    }
  }

  lemma ClosingCallText(e: Enc)
    requires |e.stack| > 0
    ensures var text := CallText(e, End); text != "" && text[|text| - 1] == Closer(InObject(e))[0]
  {
  }

  /** The only call that leaves no container open closes the one that is. */
  lemma ClosesOne(e: Enc)
    requires |e.stack| > 0 && AfterCall(e, End).stack == []
    ensures |e.stack| == 1 && InObject(e) == e.stack[0]
    ensures AfterCall(e, End).out == e.out + CallText(e, End)
  {
    hide CallText;
  }

  lemma RootOpens(c: Limits, begin: Enc, ev: Event)
    requires begin.stack == [] && LegalCall(c, begin, ev)
    ensures ev.Begin? && AfterCall(begin, ev).stack == [ev.isObject]
  {
    hide CallText;
  }

  lemma LastCallCloses(c: Limits, begin: Enc, evs: seq<Event>)
    requires begin.stack == [] && evs != [] && LegalCalls(c, begin, evs)
    requires AfterCalls(begin, evs).stack == [] && evs[|evs| - 1] == End
    ensures evs[0].Begin?
    ensures var text := AfterCalls(begin, evs).out; text != "" && text[|text| - 1] == Closer(evs[0].isObject)[0]
  {
    hide AfterCall, LegalCall;
    var n := |evs| - 1;
    var before := AfterCalls(begin, evs[..n]);
    RootOpens(c, begin, evs[0]);
    assert evs == evs[..n] + [End] && evs[..n] != [] && evs[..n][0] == evs[0];
    CallsAppend(c, begin, evs[..n], [End]);
    assert LegalCall(c, before, End) && AfterCalls(before, [End]) == AfterCall(before, End);
    assert |before.stack| > 0 by { EndNeedsContainer(c, before); }
    ClosesOne(before);
    RootStays(c, AfterCall(begin, evs[0]), evs[..n][1..]);
    ClosingCallText(before);
  }

  lemma EndNeedsContainer(c: Limits, e: Enc)
    requires LegalCall(c, e, End)
    ensures |e.stack| > 0
  {
  }

  /** A document ends in the bracket that closes its root. */
  lemma DocumentCloses(c: Limits, pretty: bool, evs: seq<Event>)
    requires LegalDocument(c, evs)
    ensures evs[0].Begin?
    ensures var text := DocumentText(pretty, evs); text != "" && text[|text| - 1] == Closer(evs[0].isObject)[0]
  {
    hide AfterCall, LegalCall, EndEncode, Calls;
    var begin := BeginEncode(pretty, None);
    PrettyIrrelevant(c, BeginEncode(false, None), begin, evs);
    LegalCallsSucceed(c, begin, evs);
    var open := AfterCalls(begin, evs);
    var ends := Ends(|open.stack|);
    EndEncodeCloses(c, open);
    CallsAppend(c, begin, evs, ends);
    ClosedByEnd(c, begin, evs + ends);
    LastCallCloses(c, begin, evs + ends);
  }

  // ------------------------------------------------------------ reports that fit

  /** A report that fits the buffer survives the crash: however its text was cut into
      chunks, what the next launch recovers from the file decodes to exactly the calls
      the report writer made, and to the closings of endEncode. */
  lemma ReportSurvives(c: Limits, pretty: bool, evs: seq<Event>, size: nat, chunks: seq<string>)
    requires LegalDocument(c, evs)
    requires size >= RESERVE && Stream(chunks) == DocumentText(pretty, evs)
    requires |DocumentText(pretty, evs)| <= size - RESERVE
    ensures var recovered := Trimmed(CrashFile(size, WriteAll(size, chunks).text));
            && Decode(c, recovered).status == Ok
            && Decode(c, recovered).dec.fired == ReportedCalls(evs) + Ends(OpenLevels(evs))
  {
    hide DocumentText, Decode, Trimmed, CrashFile, LegalDocument, SeparatedFrom;
    DocumentCloses(c, pretty, evs);
    StreamRecovered(size, chunks);
    RoundTrip(c, pretty, evs);
  }

  // --------------------------------------------------------- the encoder's chunks

  function Indents(levels: nat): seq<string> {
    if levels == 0 then [] else ["    "] + Indents(levels - 1)
  }

  function EscapedPieces(s: string): seq<string>
    decreases |s|
  {
    if s == "" then []
    else
      var n := if |s| > MAX_CHUNK then MAX_CHUNK else |s|;
      [Escape(s[..n])] + EscapedPieces(s[n..])
  }

  function SeparatorPieces(e: Enc): seq<string> {
    (if e.first then [] else [","]) + (if e.pretty && |e.stack| > 0 then ["\n"] + Indents(|e.stack|) else [])
  }

  function QuotedPieces(s: string): seq<string> {
    ["\""] + EscapedPieces(s) + ["\""]
  }

  function NamePieces(e: Enc, name: Option<string>): seq<string> {
    if InObject(e) && name.Some? then QuotedPieces(name.value) + [Colon(e)] else []
  }

  function TokenPieces(ev: Event): seq<string>
    requires !ev.End?
  {
    match ev
    case Begin(isObject, _) => [Opener(isObject)]
    case Scalar(_, v) => if v.StrV? then QuotedPieces(v.s) else [ValueText(v)]
  }

  /** What a call hands the data handler, piece by piece. */
  function CallPieces(e: Enc, ev: Event): seq<string> {
    if !ev.End? then SeparatorPieces(e) + NamePieces(e, ev.name) + TokenPieces(ev)
    else if |e.stack| == 0 then []
    else (if e.pretty && !e.first then ["\n"] + Indents(|e.stack| - 1) else []) + [Closer(InObject(e))]
  }

  ghost function Pieces(e: Enc, evs: seq<Event>): seq<string>
    decreases |evs|
  {
    if evs == [] then [] else CallPieces(e, evs[0]) + Pieces(AfterCall(e, evs[0]), evs[1..])
  }

  lemma {:induction false} StreamConcat(a: seq<string>, b: seq<string>)
    ensures Stream(a + b) == Stream(a) + Stream(b)
    decreases |b|
  {
    if b == [] {
      assert a + b == a && Stream(a) + "" == Stream(a);
    } else {
      var n := |b| - 1;
      assert (a + b)[..|a| + n] == a + b[..n];
      StreamConcat(a, b[..n]);
    }
  }

  lemma OnePiece(s: string)
    ensures Stream([s]) == s
  {
    assert [s][..0] == [] && "" + s == s;
  }

  lemma {:induction false} IndentsSpell(levels: nat)
    ensures Stream(Indents(levels)) == Indent(levels)
  {
    if levels > 0 {
      OnePiece("    ");
      StreamConcat(["    "], Indents(levels - 1));
      IndentsSpell(levels - 1);
    }
  }

  lemma {:induction false} EscapedPiecesSpell(s: string)
    ensures Stream(EscapedPieces(s)) == Escape(s)
    decreases |s|
  {
    hide Escape, Stream;
    NothingToEscape();
    if s == "" {
      assert Stream([]) == "" by { NoPieces(); }
    } else {
      var n := if |s| > MAX_CHUNK then MAX_CHUNK else |s|;
      OnePiece(Escape(s[..n]));
      StreamConcat([Escape(s[..n])], EscapedPieces(s[n..]));
      EscapedPiecesSpell(s[n..]);
      EscapeConcat(s[..n], s[n..]);
      assert s[..n] + s[n..] == s;
    }
  }

  lemma NoPieces()
    ensures Stream([]) == ""
  {
  }

  lemma SeparatorPiecesSpell(e: Enc)
    ensures Stream(SeparatorPieces(e)) == Separator(e)
  {
    hide Stream, Indents, Indent;
    NoPieces();
    OnePiece(",");
    OnePiece("\n");
    IndentsSpell(|e.stack|);
    StreamConcat(["\n"], Indents(|e.stack|));
    StreamConcat(if e.first then [] else [","], if e.pretty && |e.stack| > 0 then ["\n"] + Indents(|e.stack|) else []);
  }

  lemma QuotedPiecesSpell(s: string)
    ensures Stream(QuotedPieces(s)) == "\"" + Escape(s) + "\""
  {
    hide Stream, Escape, EscapedPieces;
    OnePiece("\"");
    EscapedPiecesSpell(s);
    StreamConcat(["\""], EscapedPieces(s));
    StreamConcat(["\""] + EscapedPieces(s), ["\""]);
  }

  lemma NamePiecesSpell(e: Enc, name: Option<string>)
    ensures Stream(NamePieces(e, name)) == NameText(e, name)
  {
    hide Stream, Escape, QuotedPieces;
    NoPieces();
    if InObject(e) && name.Some? {
      QuotedPiecesSpell(name.value);
      OnePiece(Colon(e));
      StreamConcat(QuotedPieces(name.value), [Colon(e)]);
    }
  }

  /** The pieces of a call are the text it writes. */
  lemma CallPiecesSpell(e: Enc, ev: Event)
    ensures Stream(CallPieces(e, ev)) == CallText(e, ev)
  {
    hide Stream, Separator, SeparatorPieces, NamePieces, NameText, QuotedPieces, Indents, Indent, Escape;
    if ev.End? {
      NoPieces();
      if |e.stack| > 0 {
        EndPiecesSpell(e);
      }
    } else {
      SeparatorPiecesSpell(e);
      NamePiecesSpell(e, ev.name);
      StreamConcat(SeparatorPieces(e), NamePieces(e, ev.name));
      if ev.Scalar? && ev.value.StrV? {
        QuotedPiecesSpell(ev.value.s);
      } else {
        OnePiece(TokenPieces(ev)[0]);
      }
      StreamConcat(SeparatorPieces(e) + NamePieces(e, ev.name), TokenPieces(ev));
    }
  }

  lemma EndPiecesSpell(e: Enc)
    requires |e.stack| > 0
    ensures Stream(CallPieces(e, End)) == CallText(e, End)
  {
    hide Stream, Indents, Indent;
    NoPieces();
    OnePiece("\n");
    OnePiece(Closer(InObject(e)));
    IndentsSpell(|e.stack| - 1);
    StreamConcat(["\n"], Indents(|e.stack| - 1));
    StreamConcat(if e.pretty && !e.first then ["\n"] + Indents(|e.stack| - 1) else [], [Closer(InObject(e))]);
  }

  /** The pieces handed over by a call sequence are the text it writes. */
  lemma {:induction false} PiecesSpell(e: Enc, evs: seq<Event>)
    ensures AfterCalls(e, evs).out == e.out + Stream(Pieces(e, evs))
    decreases |evs|
  {
    hide Stream, CallPieces, CallText;
    if evs == [] {
      NoPieces();
      assert e.out + "" == e.out;
    } else {
      var next := AfterCall(e, evs[0]);
      CallPiecesSpell(e, evs[0]);
      PiecesSpell(next, evs[1..]);
      StreamConcat(CallPieces(e, evs[0]), Pieces(next, evs[1..]));
      assert e.out + CallText(e, evs[0]) + Stream(Pieces(next, evs[1..])) ==
             e.out + (CallText(e, evs[0]) + Stream(Pieces(next, evs[1..])));
    }
  }
}
