/** The streaming JSON encoder as a state machine on values. */
module JsonEncoder {
  import opened JsonText

  const WORK_BUFFER_SIZE: nat := 512
  const MAX_CHUNK: nat := WORK_BUFFER_SIZE / 2

  /** The length of isObject; the code does not compare the level with it. */
  const MAX_LEVELS: nat := 200

  /** The encoder context together with everything its data handler accepted so far.
      `stack` lists isObject[1..containerLevel]; a handler with a `limit` refuses the
      data that would exceed it, one without never fails. */
  datatype Enc = Enc(stack: seq<bool>, first: bool, pretty: bool, out: string, limit: Option<nat>)

  datatype EncResult = EncResult(enc: Enc, status: Status)

  function BeginEncode(pretty: bool, limit: Option<nat>): Enc {
    Enc([], true, pretty, "", limit)
  }

  predicate InObject(e: Enc) {
    |e.stack| > 0 && e.stack[|e.stack| - 1]
  }

  function Emit(e: Enc, data: string): EncResult {
    if e.limit.Some? && |e.out| + |data| > e.limit.value then EncResult(e, DataTooLong)
    else EncResult(e.(out := e.out + data), Ok)
  }

  function EmitIndent(e: Enc, levels: nat): EncResult
    decreases levels
  {
    if levels == 0 then EncResult(e, Ok)
    else
      var r := Emit(e, "    ");
      if r.status != Ok then r else EmitIndent(r.enc, levels - 1)
  }

  function AppendEscaped(e: Enc, chunk: string): EncResult {
    if !AllEscapable(chunk) then EncResult(e, InvalidCharacter) else Emit(e, Escape(chunk))
  }

  function AddEscaped(e: Enc, s: string): EncResult
    decreases |s|
  {
    if s == "" then EncResult(e, Ok)
    else
      var n := if |s| > MAX_CHUNK then MAX_CHUNK else |s|;
      var r := AppendEscaped(e, s[..n]);
      if r.status != Ok then r else AddEscaped(r.enc, s[n..])
  }

  /** The closing quote is written even if the content was not; any failure is
      reported as the integer 1, which is InvalidCharacter. */
  function AddQuoted(e: Enc, s: string): EncResult {
    var open := Emit(e, "\"");
    if open.status != Ok then open
    else
      var body := AddEscaped(open.enc, s);
      var close := Emit(body.enc, "\"");
      EncResult(close.enc, if body.status == Ok && close.status == Ok then Ok else InvalidCharacter)
  }

  /** The comma and, when pretty printing inside a container, the line break. */
  function Separate(e: Enc): EncResult {
    var comma := if e.first then EncResult(e.(first := false), Ok) else Emit(e, ",");
    if comma.status != Ok || !e.pretty || |e.stack| == 0 then comma
    else
      var line := Emit(comma.enc, "\n");
      if line.status != Ok then line else EmitIndent(line.enc, |e.stack|)
  }

  /** The name field, written only inside an object. */
  function AddName(e: Enc, name: Option<string>): EncResult {
    if !InObject(e) then EncResult(e, Ok)
    else if name.None? then EncResult(e, InvalidData)
    else
      var quoted := AddQuoted(e, name.value);
      if quoted.status != Ok then quoted else Emit(quoted.enc, Colon(e))
  }

  function Colon(e: Enc): string {
    if e.pretty then ": " else ":"
  }

  function BeginElement(e: Enc, name: Option<string>): EncResult {
    var lead := Separate(e);
    if lead.status != Ok then lead else AddName(lead.enc, name)
  }

  function AddScalar(e: Enc, name: Option<string>, v: Value): EncResult {
    var b := BeginElement(e, name);
    if b.status != Ok then b
    else if v.StrV? then AddQuoted(b.enc, v.s)
    else Emit(b.enc, ValueText(v))
  }

  function BeginContainer(e: Enc, isObject: bool, name: Option<string>): EncResult {
    var b := BeginElement(e, name);
    if b.status != Ok then b
    else Emit(b.enc.(stack := b.enc.stack + [isObject], first := true), Opener(isObject))
  }

  function Opener(isObject: bool): string {
    if isObject then "{" else "["
  }

  function Closer(isObject: bool): string {
    if isObject then "}" else "]"
  }

  function EndContainer(e: Enc): EncResult {
    if |e.stack| == 0 then EncResult(e, Ok)
    else
      var isObject := InObject(e);
      var popped := e.(stack := e.stack[..|e.stack| - 1]);
      var line := if e.pretty && !e.first then Emit(popped, "\n") else EncResult(popped, Ok);
      if line.status != Ok then line
      else
        var indent := if e.pretty && !e.first then EmitIndent(line.enc, |popped.stack|) else line;
        if indent.status != Ok then indent
        else Emit(indent.enc.(first := false), Closer(isObject))
  }

  function Call(e: Enc, ev: Event): EncResult {
    match ev
    case Begin(isObject, name) => BeginContainer(e, isObject, name)
    case End => EndContainer(e)
    case Scalar(name, v) => AddScalar(e, name, v)
  }

  /** A sequence of calls, abandoned at the first failure. */
  function Calls(e: Enc, evs: seq<Event>): EncResult
    decreases |evs|
  {
    if evs == [] then EncResult(e, Ok)
    else
      var r := Call(e, evs[0]);
      if r.status != Ok then r else Calls(r.enc, evs[1..])
  }

  /** Calls whose results are ignored. */
  function Blindly(e: Enc, evs: seq<Event>): Enc
    decreases |evs|
  {
    if evs == [] then e else Blindly(Call(e, evs[0]).enc, evs[1..])
  }

  function EndEncode(e: Enc): EncResult
    decreases |e.stack|
  {
    if |e.stack| == 0 then EncResult(e, Ok)
    else
      PopsOne(e);
      var r := EndContainer(e);
      if r.status != Ok then r else EndEncode(r.enc)
  }

  // ------------------------------------------- what a successful call has written

  function Indent(levels: nat): string {
    if levels == 0 then "" else "    " + Indent(levels - 1)
  }

  function Separator(e: Enc): string {
    (if e.first then "" else ",") + (if e.pretty && |e.stack| > 0 then "\n" + Indent(|e.stack|) else "")
  }

  function NameText(e: Enc, name: Option<string>): string {
    if InObject(e) && name.Some? then "\"" + Escape(name.value) + "\"" + Colon(e) else ""
  }

  function CallText(e: Enc, ev: Event): string {
    match ev
    case Begin(isObject, name) => Separator(e) + NameText(e, name) + Opener(isObject)
    case End =>
      if |e.stack| == 0 then ""
      else (if e.pretty && !e.first then "\n" + Indent(|e.stack| - 1) else "") + Closer(InObject(e))
    case Scalar(name, v) => Separator(e) + NameText(e, name) + ValueText(v)
  }

  function AfterCall(e: Enc, ev: Event): Enc {
    var next := e.(out := e.out + CallText(e, ev));
    match ev
    case Begin(isObject, _) => next.(stack := e.stack + [isObject], first := true)
    case End => if |e.stack| == 0 then next else next.(stack := e.stack[..|e.stack| - 1], first := false)
    case Scalar(_, _) => next.(first := false)
  }

  /** The strings a call hands over can be spelled, and it is named where it must be. */
  predicate Spellable(e: Enc, ev: Event) {
    && (!ev.End? ==> Nameable(e, ev.name))
    && (ev.Scalar? && ev.value.StrV? ==> AllEscapable(ev.value.s))
  }

  /** The handler takes n more characters. */
  predicate Room(e: Enc, n: nat) {
    e.limit.Some? ==> |e.out| + n <= e.limit.value
  }

  /** What was accepted is within the limit. */
  predicate Within(e: Enc) {
    Room(e, 0)
  }

  lemma {:induction false} EmitIndentText(e: Enc, levels: nat)
    ensures var r := EmitIndent(e, levels);
            r.status == Ok ==> r.enc == e.(out := e.out + Indent(levels)) && (Within(e) ==> Within(r.enc))
    ensures Room(e, |Indent(levels)|) ==> EmitIndent(e, levels).status == Ok
    decreases levels
  {
    if levels == 0 {
      assert e.out + "" == e.out;
    } else {
      var one := Emit(e, "    ").enc;
      EmitIndentText(one, levels - 1);
      assert e.out + "    " + Indent(levels - 1) == e.out + ("    " + Indent(levels - 1));
    }
  }

  /** Chunked escaping is escaping of the whole string, and it fails exactly on an
      unspellable character or a full handler. */
  lemma {:induction false} ChunkedEscaping(e: Enc, s: string)
    ensures var r := AddEscaped(e, s);
            r.status == Ok ==>
              AllEscapable(s) && r.enc == e.(out := e.out + Escape(s)) && (Within(e) ==> Within(r.enc))
    ensures AddEscaped(e, s).status == InvalidCharacter ==> !AllEscapable(s)
    ensures Room(e, |Escape(s)|) && AllEscapable(s) ==> AddEscaped(e, s).status == Ok
    decreases |s|
  {
    hide EscapeChar, Escapable, Escape, AllEscapable;
    NothingToEscape();
    if s == "" {
      assert e.out + "" == e.out;
    } else {
      var n := if |s| > MAX_CHUNK then MAX_CHUNK else |s|;
      var r := AppendEscaped(e, s[..n]);
      EscapableSplit(s, n);
      assert s == s[..n] + s[n..];
      EscapeConcat(s[..n], s[n..]);
      ChunkedEscaping(r.enc, s[n..]);
      assert e.out + Escape(s[..n]) + Escape(s[n..]) == e.out + (Escape(s[..n]) + Escape(s[n..]));
    }
  }

  lemma NothingToEscape()
    ensures Escape("") == "" && AllEscapable("")
  {
  }

  lemma QuotedText(e: Enc, s: string)
    ensures var r := AddQuoted(e, s);
            r.status == Ok ==>
              && AllEscapable(s) && r.enc == e.(out := e.out + ("\"" + Escape(s) + "\""))
              && (Within(e) ==> Within(r.enc))
    ensures Room(e, |Escape(s)| + 2) && AllEscapable(s) ==> AddQuoted(e, s).status == Ok
  {
    hide Escape, AllEscapable, AddEscaped;
    var open := Emit(e, "\"");
    if open.status == Ok {
      ChunkedEscaping(open.enc, s);
      assert e.out + "\"" + Escape(s) + "\"" == e.out + ("\"" + Escape(s) + "\"");
    }
  }

  lemma SeparatorText(e: Enc)
    ensures Separate(e).status == Ok ==>
              && Separate(e).enc == e.(first := false, out := e.out + Separator(e))
              && (Within(e) ==> Within(Separate(e).enc))
    ensures Room(e, |Separator(e)|) ==> Separate(e).status == Ok
  {
    var comma := if e.first then EncResult(e.(first := false), Ok) else Emit(e, ",");
    var a := if e.first then "" else ",";
    assert comma.status == Ok ==> comma.enc == e.(first := false, out := e.out + a);
    if comma.status == Ok && e.pretty && |e.stack| > 0 {
      var line := Emit(comma.enc, "\n");
      EmitIndentText(line.enc, |e.stack|);
      assert e.out + a + "\n" + Indent(|e.stack|) == e.out + (a + ("\n" + Indent(|e.stack|)));
    } else {
      assert a + "" == a;
    }
  }

  predicate Nameable(e: Enc, name: Option<string>) {
    InObject(e) ==> name.Some? && AllEscapable(name.value)
  }

  lemma AddNameText(e: Enc, name: Option<string>)
    ensures AddName(e, name).status == Ok ==>
              && Nameable(e, name) && AddName(e, name).enc == e.(out := e.out + NameText(e, name))
              && (Within(e) ==> Within(AddName(e, name).enc))
    ensures Room(e, |NameText(e, name)|) && Nameable(e, name) ==> AddName(e, name).status == Ok
  {
    if InObject(e) && name.Some? {
      QuotedText(e, name.value);
      var q := "\"" + Escape(name.value) + "\"";
      assert e.out + q + Colon(e) == e.out + (q + Colon(e));
    } else {
      assert e.out + "" == e.out;
    }
  }

  lemma SameName(e: Enc, f: Enc, name: Option<string>)
    requires e.stack == f.stack && e.pretty == f.pretty
    ensures NameText(e, name) == NameText(f, name) && Nameable(e, name) == Nameable(f, name)
  {
    hide Escape, AllEscapable;
  }

  lemma BeginElementText(e: Enc, name: Option<string>)
    ensures BeginElement(e, name).status == Ok ==>
              && Nameable(e, name)
              && BeginElement(e, name).enc == e.(first := false, out := e.out + (Separator(e) + NameText(e, name)))
              && (Within(e) ==> Within(BeginElement(e, name).enc))
    ensures Room(e, |Separator(e)| + |NameText(e, name)|) && Nameable(e, name) ==> BeginElement(e, name).status == Ok
  {
    hide Separate, Separator, AddName, NameText, Nameable;
    SeparatorText(e);
    var lead := Separate(e);
    if lead.status == Ok {
      AddNameText(lead.enc, name);
      SameName(e, lead.enc, name);
      assert e.out + Separator(e) + NameText(e, name) == e.out + (Separator(e) + NameText(e, name));
    }
  }

  lemma PopsOne(e: Enc)
    requires |e.stack| > 0
    ensures EndContainer(e).enc.stack == e.stack[..|e.stack| - 1] && EndContainer(e).enc.limit == e.limit
  {
    var popped := e.(stack := e.stack[..|e.stack| - 1]);
    var line := if e.pretty && !e.first then Emit(popped, "\n") else EncResult(popped, Ok);
    IndentKeepsStack(line.enc, |popped.stack|);
  }

  lemma {:induction false} IndentKeepsStack(e: Enc, levels: nat)
    ensures EmitIndent(e, levels).enc.stack == e.stack && EmitIndent(e, levels).enc.limit == e.limit
    decreases levels
  {
    if levels > 0 {
      IndentKeepsStack(Emit(e, "    ").enc, levels - 1);
    }
  }

  lemma EndContainerText(e: Enc)
    requires |e.stack| > 0
    ensures EndContainer(e).status == Ok ==>
              EndContainer(e).enc == AfterCall(e, End) && (Within(e) ==> Within(EndContainer(e).enc))
    ensures Room(e, |CallText(e, End)|) ==> EndContainer(e).status == Ok
  {
    var popped := e.(stack := e.stack[..|e.stack| - 1]);
    if e.pretty && !e.first {
      var line := Emit(popped, "\n");
      EmitIndentText(line.enc, |popped.stack|);
      var w := "\n" + Indent(|popped.stack|);
      assert e.out + "\n" + Indent(|popped.stack|) + Closer(InObject(e)) == e.out + (w + Closer(InObject(e)));
    } else {
      assert "" + Closer(InObject(e)) == Closer(InObject(e));
    }
  }

  lemma ContainerText(e: Enc, isObject: bool, name: Option<string>)
    ensures var ev := Begin(isObject, name);
            && (Call(e, ev).status == Ok ==>
                  Nameable(e, name) && Call(e, ev).enc == AfterCall(e, ev) && (Within(e) ==> Within(Call(e, ev).enc)))
            && (Room(e, |CallText(e, ev)|) && Nameable(e, name) ==> Call(e, ev).status == Ok)
  {
    hide BeginElement, Separator, NameText, Nameable;
    BeginElementText(e, name);
    var lead := Separator(e) + NameText(e, name);
    assert e.out + lead + Opener(isObject) == e.out + (lead + Opener(isObject));
  }

  lemma ScalarText(e: Enc, name: Option<string>, v: Value)
    ensures var ev := Scalar(name, v);
            && (Call(e, ev).status == Ok ==>
                  Spellable(e, ev) && Call(e, ev).enc == AfterCall(e, ev) && (Within(e) ==> Within(Call(e, ev).enc)))
            && (Room(e, |CallText(e, ev)|) && Spellable(e, ev) ==> Call(e, ev).status == Ok)
  {
    hide BeginElement, Separator, NameText, Nameable, AddQuoted, Escape, AllEscapable, Digits, IntText;
    BeginElementText(e, name);
    var b := BeginElement(e, name);
    var lead := Separator(e) + NameText(e, name);
    assert e.out + lead + ValueText(v) == e.out + (lead + ValueText(v));
    if v.StrV? {
      QuotedText(b.enc, v.s);
    }
  }

  /** A call that succeeds has appended exactly its text and moved the context as
      AfterCall says; it succeeds exactly when its arguments can be spelled and the
      handler has room for the text. */
  lemma CallEffect(e: Enc, ev: Event)
    ensures Call(e, ev).status == Ok ==>
              Spellable(e, ev) && Call(e, ev).enc == AfterCall(e, ev) && (Within(e) ==> Within(Call(e, ev).enc))
    ensures Room(e, |CallText(e, ev)|) && Spellable(e, ev) ==> Call(e, ev).status == Ok
  {
    match ev
    case Begin(isObject, name) => ContainerText(e, isObject, name);
    case Scalar(name, v) => ScalarText(e, name, v);
    case End =>
      if |e.stack| > 0 {
        EndContainerText(e);
      } else {
        assert e.out + "" == e.out;
      }
  }

  lemma {:induction false} CallsSplit(e: Enc, a: seq<Event>, b: seq<Event>)
    ensures Calls(e, a + b) == if Calls(e, a).status == Ok then Calls(Calls(e, a).enc, b) else Calls(e, a)
    decreases |a|
  {
    if a == [] {
      assert a + b == b;
    } else {
      assert (a + b)[0] == a[0] && (a + b)[1..] == a[1..] + b;
      CallsSplit(Call(e, a[0]).enc, a[1..], b);
    }
  }
}
