/** Reports whose truncation marker misses the root: an array of numbers that runs over the
    end of the buffer, whose indentation uses up the room for the closing brackets, and a
    container that is begun behind the overflow. */
module TruncationWitness {
  import opened JsonText
  import opened JsonEncoder
  import opened JsonDecoder
  import opened JsonRoundTrip
  import opened JsonDocument
  import opened JsonSteps
  import opened MmapWriter
  import opened CrashReport
  import opened JsonBalance
  import opened TruncationMarker

  /** The buffer holds the stream up to the first number. */
  const LIMIT: nat := 34
  const SIZE: nat := LIMIT + RESERVE

  const ONE: Event := Scalar(None, IntV(1))

  const HEAD: seq<Event> := [Begin(true, None), Begin(true, Some("r")), End, Begin(false, Some("a")), ONE]

  function Ones(n: nat): (r: seq<Event>)
    ensures |r| == n && forall i :: 0 <= i < n ==> r[i] == ONE
  {
    if n == 0 then [] else [ONE] + Ones(n - 1)
  }

  /** An empty object and an array of n + 1 numbers. */
  function Report(n: nat): seq<Event> {
    HEAD + Ones(n)
  }

  /** The chunks in which the encoder writes the report and closes it. */
  ghost function Chunks(n: nat): seq<string> {
    Pieces(BeginEncode(true, None), Report(n) + Ends(2))
  }

  // ------------------------------------------------------------- the report's head

  const ROOT_OPEN: Enc := Enc([true], true, true, "{", None)
  const INNER_OPEN: Enc := Enc([true, true], true, true, ROOT_OPEN.out + "\n    \"r\": {", None)
  const INNER_CLOSED: Enc := Enc([true], false, true, INNER_OPEN.out + "}", None)
  const ARRAY_OPEN: Enc := Enc([true, false], true, true, INNER_CLOSED.out + ",\n    \"a\": [", None)
  const NUMBER_WRITTEN: Enc := Enc([true, false], false, true, ARRAY_OPEN.out + "\n        1", None)

  lemma Separators()
    ensures Separator(ROOT_OPEN) == "\n    " && Separator(INNER_CLOSED) == ",\n    "
            && Separator(ARRAY_OPEN) == "\n        "
  {
    assert Indent(1) == "    ";
    assert Indent(2) == "        ";
  }

  lemma MemberSteps(c: Limits)
    requires c.nameLen > 1
    ensures Steps(c, ROOT_OPEN, HEAD[1], INNER_OPEN) && Steps(c, INNER_CLOSED, HEAD[3], ARRAY_OPEN)
  {
    hide Steps, Separator;
    Separators();
    assert [true] + [true] == [true, true] && [true] + [false] == [true, false];
    MemberStep(c, ROOT_OPEN, HEAD[1], "r", "\n    ", INNER_OPEN);
    MemberStep(c, INNER_CLOSED, HEAD[3], "a", ",\n    ", ARRAY_OPEN);
  }

  lemma InnerSteps(c: Limits)
    ensures Steps(c, INNER_OPEN, HEAD[2], INNER_CLOSED) && Steps(c, ARRAY_OPEN, HEAD[4], NUMBER_WRITTEN)
  {
    hide Steps, Separator;
    Separators();
    assert "" + "}" == "}" && [true, true][..1] == [true] && Digits(1) == "1";
    EndStep(c, INNER_OPEN, "", INNER_CLOSED);
    ElementStep(c, ARRAY_OPEN, HEAD[4], "\n        ", NUMBER_WRITTEN);
  }

  lemma HeadWritten(c: Limits)
    requires c.nameLen > 1
    ensures Leads(c, BeginEncode(true, None), HEAD, NUMBER_WRITTEN)
    ensures Leads(c, BeginEncode(true, None), HEAD[..2], INNER_OPEN)
  {
    hide Steps, Leads;
    RootStep(c, true);
    MemberSteps(c);
    InnerSteps(c);
    StepsLead(c, HEAD, [BeginEncode(true, None), ROOT_OPEN, INNER_OPEN, INNER_CLOSED, ARRAY_OPEN, NUMBER_WRITTEN]);
    assert HEAD[..2] == [HEAD[0], HEAD[1]];
    StepsLead(c, HEAD[..2], [BeginEncode(true, None), ROOT_OPEN, INNER_OPEN]);
  }

  // ------------------------------------------------------------------- the numbers

  predicate InArray(e: Enc) {
    e.stack == [true, false] && !e.first && e.pretty && e.limit == None
  }

  lemma {:induction false} KeepAll(s: string)
    requires forall i :: 0 <= i < |s| ==> Structural(s[i])
    ensures Keep(s) == s
    decreases |s|
  {
    if s != "" {
      KeepAll(s[..|s| - 1]);
    }
  }

  lemma NumberText(e: Enc)
    requires InArray(e)
    ensures CallText(e, ONE) == "," + "\n        " + "1" && InArray(AfterCall(e, ONE))
  {
    assert Indent(1) == "    ";
    assert Indent(2) == "        ";
    assert Digits(1) == "1";
  }

  lemma NumberKept()
    ensures Keep("," + "\n        " + "1") == "\n        "
  {
    KeepAll("\n        ");
    KeepConcat("," + "\n        ", "1");
    KeepConcat(",", "\n        ");
    assert Keep(",") == "" && Keep("1") == "";
  }

  /** Nine structural bytes are kept of each further number. */
  lemma {:induction false} OnesKept(c: Limits, e: Enc, n: nat)
    requires InArray(e)
    ensures LegalCalls(c, e, Ones(n)) && InArray(AfterCalls(e, Ones(n)))
    ensures var kept := Keep(Stream(Pieces(e, Ones(n)))); |kept| == 9 * n && '}' !in kept
    decreases n
  {
    hide CallText, CallPieces, AfterCall, Keep, Stream;
    if n == 0 {
      assert Pieces(e, []) == [] && Stream([]) == "" && Keep("") == "" by { NoPieces(); KeepEmpty(); }
    } else {
      var next := AfterCall(e, ONE);
      NumberText(e);
      OneLegal(c, e);
      CallPiecesSpell(e, ONE);
      OnesKept(c, next, n - 1);
      var rest := Pieces(next, Ones(n - 1));
      assert Ones(n)[1..] == Ones(n - 1);
      StreamConcat(CallPieces(e, ONE), rest);
      KeepConcat("," + "\n        " + "1", Stream(rest));
      NumberKept();
    }
  }

  lemma OneLegal(c: Limits, e: Enc)
    requires InArray(e)
    ensures LegalCall(c, e, ONE)
  {
  }

  // ----------------------------------------------------------------- the document

  lemma {:induction false} BehindIs(limit: nat, a: seq<string>, b: seq<string>)
    requires a != [] && |Stream(a)| > limit && |Stream(a[..|a| - 1])| <= limit
    ensures Behind(limit, a + b) == Stream(b)
    decreases |b|
  {
    hide Stream, Behind;
    if b == [] {
      assert a + b == a;
      NoPieces();
      NothingBehindYet(limit, a);
    } else {
      var n := |b| - 1;
      var init := a + b[..n];
      assert (a + b)[..|a| + n] == init;
      BehindIs(limit, a, b[..n]);
      StreamConcat(a, b[..n]);
      NothingBehindYet(limit, a + b);
      StreamConcat(b[..n], [b[n]]);
      OnePiece(b[n]);
      assert b == b[..n] + [b[n]];
    }
  }

  lemma {:induction false} PiecesAppend(e: Enc, a: seq<Event>, b: seq<Event>)
    ensures Pieces(e, a + b) == Pieces(e, a) + Pieces(AfterCalls(e, a), b)
    decreases |a|
  {
    hide CallPieces, AfterCall;
    if a == [] {
      assert a + b == b;
    } else {
      assert (a + b)[0] == a[0] && (a + b)[1..] == a[1..] + b;
      PiecesAppend(AfterCall(e, a[0]), a[1..], b);
    }
  }

  /** The report is a legal document, and the chunks are its text. */
  lemma ReportWritten(c: Limits, n: nat)
    requires c.nameLen > 1
    ensures LegalDocument(c, Report(n)) && Stream(Chunks(n)) == DocumentText(true, Report(n))
  {
    hide LegalCalls, AfterCalls, Pieces, Stream, CallText, LegalCall, EndEncode, Calls;
    var begin := BeginEncode(true, None);
    HeadWritten(c);
    OnesKept(c, NUMBER_WRITTEN, n);
    CallsAppend(c, begin, HEAD, Ones(n));
    PrettyIrrelevant(c, BeginEncode(false, None), begin, Report(n));
    LegalCallsSucceed(c, begin, Report(n));
    var open := AfterCalls(begin, Report(n));
    EndEncodeCloses(c, open);
    CallsAppend(c, begin, Report(n), Ends(2));
    PiecesSpell(begin, Report(n) + Ends(2));
    assert begin.out + Stream(Chunks(n)) == Stream(Chunks(n));
  }

  /** The number that ends the head is one piece. */
  lemma HeadPieces()
    ensures var a := Pieces(BeginEncode(true, None), HEAD);
            a != [] && Stream(a) == NUMBER_WRITTEN.out && |Stream(a[..|a| - 1])| == LIMIT
  {
    hide Pieces, Stream, AfterCalls;
    var begin := BeginEncode(true, None);
    HeadWritten(Limits(2, 2));
    PiecesSpell(begin, HEAD);
    var a := Pieces(begin, HEAD);
    assert begin.out + Stream(a) == Stream(a);
    assert HEAD == HEAD[..4] + [ONE];
    PiecesAppend(begin, HEAD[..4], [ONE]);
    var e := AfterCalls(begin, HEAD[..4]);
    LastPiece(e);
    assert a == a[..|a| - 1] + ["1"];
    StreamConcat(a[..|a| - 1], ["1"]);
    OnePiece("1");
  }

  lemma LastPiece(e: Enc)
    ensures var p := Pieces(e, [ONE]); p != [] && p[|p| - 1] == "1"
  {
    hide SeparatorPieces, NamePieces;
    assert Digits(1) == "1";
    assert Pieces(e, [ONE]) == CallPieces(e, ONE) + [] == CallPieces(e, ONE);
  }

  /** What the writer keeps behind the overflow. */
  lemma KeptBehind(n: nat)
    ensures var kept := Keep(Behind(LIMIT, Chunks(n))); |kept| >= 9 * n && '}' !in kept[..9 * n]
    ensures |Stream(Chunks(n))| > LIMIT && Stream(Chunks(n))[..LIMIT] == NUMBER_WRITTEN.out[..LIMIT]
  {
    hide Pieces, Stream, AfterCalls, Keep, Behind;
    var begin := BeginEncode(true, None);
    var ones, ends := Ones(n), Ends(2);
    HeadWritten(Limits(2, 2));
    HeadPieces();
    OnesKept(Limits(2, 2), NUMBER_WRITTEN, n);
    assert HEAD + ones + ends == HEAD + (ones + ends);
    PiecesAppend(begin, HEAD, ones + ends);
    PiecesAppend(NUMBER_WRITTEN, ones, ends);
    var a, b := Pieces(begin, HEAD), Pieces(NUMBER_WRITTEN, ones + ends);
    BehindIs(LIMIT, a, b);
    StreamConcat(a, b);
    var b1, b2 := Pieces(NUMBER_WRITTEN, ones), Pieces(AfterCalls(NUMBER_WRITTEN, ones), ends);
    StreamConcat(b1, b2);
    KeepConcat(Stream(b1), Stream(b2));
    assert Keep(Stream(b))[..9 * n] == Keep(Stream(b1));
  }

  // --------------------------------------------------------------------- the marker

  /** The marker took the place of the inner object's brace and of what follows it. */
  predicate MarkedInside(text: string) {
    |text| >= LIMIT && Marked(text) == INNER_OPEN.out + MARKER + text[LIMIT..]
  }

  /** Thirteen numbers or more: the marker takes the place of the inner object's brace and
      of what follows it, old bytes stay behind, and what is recovered is no JSON. */
  lemma MarkerMissesRoot(c: Limits, n: nat)
    requires n >= 12 && c.nameLen > 1
    ensures LegalDocument(c, Report(n)) && Stream(Chunks(n)) == DocumentText(true, Report(n))
    ensures var text := WriteAll(SIZE, Chunks(n)).text;
            && MarkedInside(text) && |text| == SIZE - MARKER_LEN
            && !MarkerInRoot(Marked(text))
            && Decode(c, Marked(text)).status == InvalidCharacter
  {
    hide Keep, Behind, Stream, Chunks, WriteAll, DocumentText, LegalDocument, Decode, Marked, MarkerInRoot, LastBrace;
    ReportWritten(c, n);
    KeptBehind(n);
    var text := WriteAll(SIZE, Chunks(n)).text;
    WriterClosedForm(SIZE, Chunks(n));
    var room := RESERVE - MARKER_LEN;
    var kept := Keep(Behind(LIMIT, Chunks(n)));
    assert kept[..room] == kept[..9 * n][..room];
    BraceBeforeNumbers(text, kept[..room]);
    EndsElsewhere(text);
    NotJson(c, Marked(text));
  }

  /** The last brace is that of the inner object. */
  lemma BraceBeforeNumbers(text: string, kept: string)
    requires text == NUMBER_WRITTEN.out[..LIMIT] + kept && '}' !in kept
    ensures MarkedInside(text) && LastBrace(text) == 13
  {
    hide LastBrace;
    var head := NUMBER_WRITTEN.out[..LIMIT];
    HeadBrace();
    assert text[..12] == head[..12];
    assert text[12] == head[12] && forall i :: 13 <= i < |text| ==>
           text[i] == if i < LIMIT then head[i] else kept[i - LIMIT];
    LastBraceIs(text, 13);
    assert |MARKER| == MARKER_LEN;
  }

  lemma HeadBrace()
    ensures var head := NUMBER_WRITTEN.out[..LIMIT];
            head[..12] == INNER_OPEN.out && head[12] == '}' && forall i :: 13 <= i < LIMIT ==> head[i] != '}'
  {
  }

  lemma LastBraceIs(text: string, p: nat)
    requires 0 < p <= |text| && text[p - 1] == '}' && forall i :: p <= i < |text| ==> text[i] != '}'
    ensures LastBrace(text) == p
  {
    hide LastBrace;
  }

  lemma NotJson(c: Limits, s: string)
    requires c.nameLen > 1 && INNER_OPEN.out + MARKER <= s
    ensures Decode(c, s).status == InvalidCharacter
  {
    hide AfterCall, AfterCalls, LegalCalls, ReportedAll, Run, SeparatedFrom, ControlOf;
    var begin := BeginEncode(true, None);
    HeadWritten(c);
    assert INNER_OPEN.out <= s && s[12] == MARKER[0] == ',';
    KeepsStep(c, s, begin, HEAD[..2], []);
    assert ControlOf(begin) == ROOT && ControlOf(INNER_OPEN) == Loop([true, true]) by { Controls(); }
    CommaIsNoMember(c, s, [] + HEAD[..2]);
  }

  lemma Controls()
    ensures ControlOf(BeginEncode(true, None)) == ROOT && ControlOf(INNER_OPEN) == Loop([true, true])
  {
  }

  lemma CommaIsNoMember(c: Limits, s: string, fired: seq<Event>)
    requires |s| > 12 && s[12] == ','
    ensures Run(AlwaysOk, c, Loop([true, true]), Reading(s, 12, fired)).status == InvalidCharacter
  {
    assert SkipSpace(s, 12) == 12;
    assert Next(c, Loop([true, true]), s, 12) == Bad(InvalidCharacter);
    StepFails(AlwaysOk, c, Loop([true, true]), Reading(s, 12, fired), InvalidCharacter);
  }

  // ------------------------------------------- a container begun behind the overflow

  const REOPENED_EVENTS: seq<Event> :=
    [Begin(true, None), Scalar(Some("a"), IntV(1)), Begin(true, Some("b")), End, End]

  /** The buffer holds the first two calls. */
  const REOPENED_LIMIT: nat := 6
  const REOPENED_FIRST: string := "{" + "\"a\":1"
  const REOPENED_LAST: string := "\"b\":{" + "}" + "}"

  /** The comma overflows, and the text of the second container lies behind it. */
  function ReopenedChunks(): seq<string> {
    [REOPENED_FIRST, ",", REOPENED_LAST]
  }

  lemma ReopenedWritten(c: Limits)
    requires c.nameLen > 1
    ensures Leads(c, BeginEncode(false, None), REOPENED_EVENTS,
                  Compact([], false, REOPENED_FIRST + "," + REOPENED_LAST))
  {
    hide Steps, Leads;
    var a := REOPENED_FIRST;
    var b := a + ",\"b\":{";
    RootStep(c, false);
    assert Digits(1) == "1" && [true] + [true] == [true, true];
    CompactMember(c, [true], true, "{", REOPENED_EVENTS[1], "a", "\"a\":1");
    CompactMember(c, [true], false, a, REOPENED_EVENTS[2], "b", ",\"b\":{");
    CompactEnd(c, [true, true], true, b);
    CompactEnd(c, [true], false, b + "}");
    assert [true, true][..1] == [true] && [true][..0] == [];
    StepsLead(c, REOPENED_EVENTS,
              [BeginEncode(false, None), Compact([true], true, "{"), Compact([true], false, a),
               Compact([true, true], true, b), Compact([true], false, b + "}"), Compact([], false, b + "}" + "}")]);
    assert b + "}" + "}" == REOPENED_FIRST + "," + REOPENED_LAST;
  }

  lemma ReopenedDocument(c: Limits)
    requires c.nameLen > 1
    ensures LegalDocument(c, REOPENED_EVENTS)
    ensures DocumentText(false, REOPENED_EVENTS) == Stream(ReopenedChunks()) == REOPENED_FIRST + "," + REOPENED_LAST
  {
    hide LegalCalls, AfterCalls, ReportedAll, Calls;
    ReopenedWritten(c);
    LegalCallsSucceed(c, BeginEncode(false, None), REOPENED_EVENTS);
    ReopenedStream();
  }

  lemma ReopenedStream()
    ensures Stream(ReopenedChunks()) == REOPENED_FIRST + "," + REOPENED_LAST
    ensures Behind(REOPENED_LIMIT, ReopenedChunks()) == REOPENED_LAST
    ensures Keep(REOPENED_LAST) == "}}"
  {
    var a, b, d := [REOPENED_FIRST], [REOPENED_FIRST, ","], ReopenedChunks();
    assert d[..2] == b && b[..1] == a && a[..0] == [];
    OnePiece(REOPENED_FIRST);
    assert Stream(b) == REOPENED_FIRST + ",";
    assert Behind(REOPENED_LIMIT, b) == "";
    assert "" + REOPENED_LAST == REOPENED_LAST;
    NothingKept();
  }

  lemma NothingKept()
    ensures Keep(REOPENED_LAST) == "}}"
  {
    KeepConcat("\"b\":{", "}" + "}");
    KeepAll("}" + "}");
    var s := "\"b\":{";
    assert s == "\"b\"" + ":{";
    KeepConcat("\"b\"", ":{");
    assert Keep("\"b\"") == "" && Keep(":{") == "";
    assert "" + ("}" + "}") == "}}";
  }

  /** The first kept bracket closes the root instead of the container that was begun behind
      the overflow: all structural bytes fit and the last brace is replaced, and still the
      marker stands behind the root, where the decoder does not see it. */
  lemma MarkerOutsideRoot(c: Limits)
    requires c.nameLen > 1
    ensures LegalDocument(c, REOPENED_EVENTS) && Stream(ReopenedChunks()) == DocumentText(false, REOPENED_EVENTS)
    ensures var size := REOPENED_LIMIT + RESERVE;
            var marked := Marked(WriteAll(size, ReopenedChunks()).text);
            && |Keep(Behind(REOPENED_LIMIT, ReopenedChunks()))| <= RESERVE - MARKER_LEN
            && marked == REOPENED_FIRST + "}" + MARKER && !MarkerInRoot(marked)
            && Decode(c, marked).status == Ok
            && Decode(c, marked).dec.fired == [Begin(true, None), Scalar(Some("a"), IntV(1)), End]
  {
    hide Keep, Behind, Stream, WriteAll, DocumentText, LegalDocument, Decode, Marked, MarkerInRoot, Scanned, Closers,
         Brackets;
    var size := REOPENED_LIMIT + RESERVE;
    ReopenedDocument(c);
    ReopenedStream();
    var text := DocumentText(false, REOPENED_EVENTS);
    MarkerAtLastBrace(c, false, REOPENED_EVENTS, size, ReopenedChunks());
    assert text[..REOPENED_LIMIT] == REOPENED_FIRST;
    assert Keep(ButLast(REOPENED_LAST)) == "}" by { KeptBeforeLast(); }
    ReopenedScan();
    ReopenedDecodes(c);
  }

  lemma KeptBeforeLast()
    ensures Keep(ButLast(REOPENED_LAST)) == "}"
  {
    NothingKept();
    KeepLast(REOPENED_LAST);
    SameFront(Keep(ButLast(REOPENED_LAST)), "}", "}");
  }

  lemma FirstScans()
    ensures Scanned(Outside([]), REOPENED_FIRST) == Outside([true])
  {
    hide Scanned, Escape;
    var quoted := "\"" + Escape("a") + "\"";
    assert REOPENED_FIRST == "{" + (quoted + ":1") by { PlainIsItself("a"); }
    BraceOpens();
    QuotedScans([true], "a");
    NeutralText([true], ":1");
    ScannedConcat(Outside([true]), quoted, ":1");
    ScannedConcat(Outside([]), "{", quoted + ":1");
  }

  lemma BraceOpens()
    ensures Scanned(Outside([]), "{") == Outside([true])
  {
    OneBracket([], true);
    assert [] + [true] == [true];
  }

  /** Only the root is open at the cut, and the kept bracket is one too many. */
  lemma ReopenedScan()
    ensures !ClosesToRoot(Scanned(Outside([]), REOPENED_FIRST), "}")
  {
    hide Scanned;
    FirstScans();
    assert [true][1..] == [];
    NoClosers();
    OneBracketChar('}');
  }

  lemma ReopenedDecodes(c: Limits)
    requires c.nameLen > 1
    ensures var text := REOPENED_FIRST + "}" + MARKER;
            && Decode(c, text).status == Ok
            && Decode(c, text).dec.fired == [Begin(true, None), Scalar(Some("a"), IntV(1)), End]
  {
    hide Steps, Leads, Decode;
    var evs := [Begin(true, None), Scalar(Some("a"), IntV(1)), End];
    RootStep(c, false);
    assert Digits(1) == "1" && [true][..0] == [];
    CompactMember(c, [true], true, "{", evs[1], "a", "\"a\":1");
    CompactEnd(c, [true], false, REOPENED_FIRST);
    StepsLead(c, evs, [BeginEncode(false, None), Compact([true], true, "{"), Compact([true], false, REOPENED_FIRST),
                       Compact([], false, REOPENED_FIRST + "}")]);
    PaddedDecodes(c, evs, Compact([], false, REOPENED_FIRST + "}"), REOPENED_FIRST + "}" + MARKER);
  }
}
