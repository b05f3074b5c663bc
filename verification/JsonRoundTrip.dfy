/** The decoder undoes the encoder, call by call. */
module JsonRoundTrip {
  import opened JsonText
  import opened JsonEncoder
  import opened JsonDecoder

  // ------------------------------------------------------------------- spaces

  lemma {:induction false} SkipExactly(s: string, p: nat, q: nat)
    requires p <= q <= |s|
    requires forall i :: p <= i < q ==> IsSpace(s[i])
    requires q < |s| ==> !IsSpace(s[q])
    ensures SkipSpace(s, p) == q
    decreases q - p
  {
    if p < q {
      SkipExactly(s, p + 1, q);
    }
  }

  lemma {:induction false} IndentIsSpace(levels: nat)
    ensures forall i :: 0 <= i < |Indent(levels)| ==> IsSpace(Indent(levels)[i])
  {
    if levels > 0 {
      IndentIsSpace(levels - 1);
    }
  }

  // ------------------------------------------------------------------ strings

  lemma AtHead(s: string, p: nat, e: string)
    requires At(s, p, e) && |e| > 0
    ensures p < |s| && s[p] == e[0]
  {
    assert s[p] == s[p..p + |e|][0];
  }

  /** One spelled character read back. */
  lemma EscapeCharAt(s: string, p: nat, c: char)
    requires At(s, p, EscapeChar(c))
    ensures |EscapeChar(c)| == 1 ==> s[p] == c && c != '\\' && c != '\"'
    ensures |EscapeChar(c)| == 2 ==> s[p] == '\\' && SimpleEscape(s[p + 1]) && SimpleEscapeValue(s[p + 1]) == c
  {
    var e := EscapeChar(c);
    assert s[p] == s[p..p + |e|][0] == e[0];
    if |e| == 2 {
      assert s[p + 1] == s[p..p + |e|][1] == e[1];
    }
  }

  lemma {:induction false} ScanEscaped(s: string, p: nat, text: string)
    requires At(s, p, Escape(text)) && p + |Escape(text)| < |s| && s[p + |Escape(text)|] == '\"'
    ensures ScanQuote(s, p) == p + |Escape(text)|
    decreases |text|
  {
    if text != "" {
      var head := EscapeChar(text[0]);
      AtConcat(s, p, head, Escape(text[1..]));
      EscapeCharAt(s, p, text[0]);
      ScanEscaped(s, p + |head|, text[1..]);
    }
  }

  lemma UnescapeOne(s: string, i: nat, q: nat, c: char)
    requires At(s, i, EscapeChar(c)) && i + |EscapeChar(c)| <= q < |s|
    ensures Unescape(s, i, q) == Prepend([c], Unescape(s, i + |EscapeChar(c)|, q))
  {
    hide EscapeChar, SimpleEscape, SimpleEscapeValue, UnicodeEscape, At;
    EscapeCharAt(s, i, c);
  }

  lemma EscapeFirst(text: string)
    requires text != ""
    ensures Escape(text) == EscapeChar(text[0]) + Escape(text[1..])
  {
  }

  lemma UnescapeStep(s: string, i: nat, text: string)
    requires text != "" && At(s, i, Escape(text)) && i + |Escape(text)| < |s|
    ensures var head := EscapeChar(text[0]);
            && At(s, i + |head|, Escape(text[1..])) && |Escape(text)| == |head| + |Escape(text[1..])|
            && Unescape(s, i, i + |Escape(text)|) ==
               Prepend([text[0]], Unescape(s, i + |head|, i + |Escape(text)|))
  {
    hide Escape, EscapeChar, Unescape, At;
    var head := EscapeChar(text[0]);
    EscapeFirst(text);
    AtConcat(s, i, head, Escape(text[1..]));
    UnescapeOne(s, i, i + |Escape(text)|, text[0]);
  }

  /** Unescaping undoes escaping of any string the encoder accepts. */
  lemma {:induction false} UnescapeEscaped(s: string, i: nat, text: string)
    requires At(s, i, Escape(text)) && i + |Escape(text)| < |s|
    ensures Unescape(s, i, i + |Escape(text)|) == Text(text)
    decreases |text|
  {
    hide Escape, Unescape, EscapeChar, At;
    if text == "" {
      NothingEscaped(s, i);
    } else {
      UnescapeStep(s, i, text);
      UnescapeEscaped(s, i + |EscapeChar(text[0])|, text[1..]);
      assert [text[0]] + text[1..] == text;
    }
  }

  lemma NothingEscaped(s: string, i: nat)
    requires i < |s|
    ensures Escape("") == "" && Unescape(s, i, i) == Text("")
  {
  }

  function Quoted(s: string): string {
    "\"" + Escape(s) + "\""
  }

  lemma DecodeQuoted(s: string, p: nat, text: string, dstLen: int)
    requires |Escape(text)| < dstLen
    requires At(s, p, Quoted(text))
    ensures DecodeString(s, p, dstLen) == StringOk(text, p + |Quoted(text)|)
  {
    hide Escape, ScanQuote, Unescape;
    assert Quoted(text) == "\"" + (Escape(text) + "\"");
    AtConcat(s, p, "\"", Escape(text) + "\"");
    AtConcat(s, p + 1, Escape(text), "\"");
    AtHead(s, p, "\"");
    AtHead(s, p + 1 + |Escape(text)|, "\"");
    ScanEscaped(s, p + 1, text);
    UnescapeEscaped(s, p + 1, text);
  }

  // ------------------------------------------------------------------ numbers

  predicate DigitRun(s: string, p: nat, q: nat) {
    && p <= q <= |s|
    && (forall i :: p <= i < q ==> IsDigit(s[i]))
    && (q < |s| ==> !IsDigit(s[q]))
  }

  function RunValue(s: string, p: nat, q: nat): nat
    requires p <= q <= |s| && forall i :: p <= i < q ==> IsDigit(s[i])
  {
    DecimalValue(s[p..q])
  }

  lemma RunValueStep(s: string, p: nat, q: nat)
    requires p < q <= |s| && forall i :: p <= i < q ==> IsDigit(s[i])
    ensures RunValue(s, p, q) == 10 * RunValue(s, p, q - 1) + (s[q - 1] as int - '0' as int)
  {
    assert s[p..q][..q - p - 1] == s[p..q - 1];
  }

  lemma {:induction false} RunValueGrows(s: string, p: nat, m: nat, q: nat)
    requires p <= m <= q <= |s| && forall i :: p <= i < q ==> IsDigit(s[i])
    ensures RunValue(s, p, m) <= RunValue(s, p, q)
    decreases q - m
  {
    if m < q {
      RunValueStep(s, p, q);
      RunValueGrows(s, p, m, q - 1);
    }
  }

  /** The digit loop reports overflow exactly when the number written exceeds
      2^64 - 1, and otherwise computes that number. */
  lemma {:induction false} DigitLoopExact(s: string, start: nat, p: nat, q: nat)
    requires start <= p && DigitRun(s, start, q) && p <= q
    requires RunValue(s, start, p) <= UINT64_MAX
    ensures var r := DigitLoop(s, p, RunValue(s, start, p));
            && (r.overflow <==> RunValue(s, start, q) > UINT64_MAX)
            && (r.overflow ==> r.end < q)
            && (!r.overflow ==> r.end == q && r.accum == RunValue(s, start, q))
    decreases q - p
  {
    if p < q {
      RunValueStep(s, start, p + 1);
      RunValueGrows(s, start, p + 1, q);
      if RunValue(s, start, p + 1) <= UINT64_MAX {
        DigitLoopExact(s, start, p + 1, q);
      }
    }
  }

  lemma DigitLoopFromStart(s: string, p: nat, q: nat)
    requires DigitRun(s, p, q)
    ensures var r := DigitLoop(s, p, 0);
            && (r.overflow <==> RunValue(s, p, q) > UINT64_MAX)
            && (r.overflow ==> r.end < q)
            && (!r.overflow ==> r.end == q && r.accum == RunValue(s, p, q))
  {
    assert s[p..p] == "";
    DigitLoopExact(s, p, p, q);
  }

  predicate Delimited(s: string, p: nat) {
    p < |s| && !IsFPChar(s[p])
  }

  lemma IntegerDecodes(c: Limits, name: Option<string>, s: string, p: nat, n: nat, negative: bool)
    requires At(s, p, Digits(n)) && Delimited(s, p + |Digits(n)|)
    requires if negative then n <= INT64_MAX + 1 else n <= UINT64_MAX
    ensures IsDigit(s[p])
    ensures Number(c, name, s, p, negative) ==
            Got(Scalar(name, if negative then IntV(0 - n) else CanonicalValue(UIntV(n))), p + |Digits(n)|)
  {
    hide DigitLoop, DecimalValue, Digits, ScanFP;
    var q := p + |Digits(n)|;
    assert forall i :: p <= i < q ==> s[i] == s[p..q][i - p];
    DigitsValue(n);
    DigitLoopFromStart(s, p, q);
  }

  lemma FloatDecodes(c: Limits, name: Option<string>, s: string, p: nat, t: string, negative: bool)
    requires FloatSpelling(t) && |t| < c.stringLen
    requires At(s, p, t) && Delimited(s, p + |t|)
    ensures IsDigit(s[p])
    ensures Number(c, name, s, p, negative) == Got(Scalar(name, FloatV(negative, t)), p + |t|)
  {
    var q := p + |t|;
    assert forall i :: p <= i < q ==> s[i] == s[p..q][i - p] == t[i - p];
    var stop := FirstNonDigit(s, p, q);
    DigitLoopFromStart(s, p, stop);
    var acc := DigitLoop(s, p, 0);
    assert acc.end <= stop < q;
    assert IsFPChar(s[acc.end]);
    ScanFPExactly(s, acc.end, q);
  }

  lemma {:induction false} ScanFPExactly(s: string, p: nat, q: nat)
    requires p <= q < |s| && !IsFPChar(s[q])
    requires forall i :: p <= i < q ==> IsFPChar(s[i])
    ensures ScanFP(s, p) == q
    decreases q - p
  {
    if p < q {
      ScanFPExactly(s, p + 1, q);
    }
  }

  lemma {:induction false} FirstNonDigit(s: string, p: nat, q: nat) returns (stop: nat)
    requires p <= q <= |s| && exists i :: p <= i < q && !IsDigit(s[i])
    ensures p <= stop < q && DigitRun(s, p, stop)
    decreases q - p
  {
    if !IsDigit(s[p]) {
      stop := p;
    } else {
      stop := FirstNonDigit(s, p + 1, q);
    }
  }

  // ------------------------------------------------------------------- tokens

  /** The name and the value fit the decoder's buffers. */
  predicate Fits(c: Limits, v: Value) {
    match v
    case StrV(s) => |Escape(s)| < c.stringLen
    case FloatV(_, digits) => |digits| < c.stringLen
    case _ => true
  }

  predicate IsNumber(v: Value) {
    v.IntV? || v.UIntV? || v.FloatV?
  }

  predicate StartsElement(s: string, p: nat) {
    p < |s| && !IsSpace(s[p]) && s[p] != '}' && s[p] != ']' && s[p] != ','
  }

  lemma StringDecodes(c: Limits, name: Option<string>, s: string, p: nat, str: string)
    requires NUL !in str && |Escape(str)| < c.stringLen && At(s, p, Quoted(str))
    ensures AtElement(c, name, s, p) == Got(Scalar(name, StrV(str)), p + |Quoted(str)|)
    ensures StartsElement(s, p)
  {
    AtHead(s, p, Quoted(str));
    SkipExactly(s, p, p);
    DecodeQuoted(s, p, str, c.stringLen);
  }

  lemma WordDecodes(c: Limits, name: Option<string>, s: string, p: nat, v: Value)
    requires v.BoolV? || v.NullV?
    requires At(s, p, ValueText(v))
    ensures AtElement(c, name, s, p) == Got(Scalar(name, v), p + |ValueText(v)|)
    ensures StartsElement(s, p)
  {
    AtHead(s, p, ValueText(v));
    SkipExactly(s, p, p);
  }

  /** A number with or without a minus sign is handed to Number. */
  lemma SignedDecodes(c: Limits, name: Option<string>, s: string, p: nat, negative: bool)
    requires negative ==> p < |s| && s[p] == '-'
    requires var q := p + if negative then 1 else 0; q < |s| && IsDigit(s[q])
    ensures AtElement(c, name, s, p) == Number(c, name, s, p + if negative then 1 else 0, negative)
    ensures StartsElement(s, p)
  {
    SkipExactly(s, p, p);
  }

  /** The text of a number is its sign and then its digits. */
  lemma SignThenDigits(s: string, p: nat, negative: bool, digits: string)
    requires At(s, p, (if negative then "-" else "") + digits)
    ensures At(s, p + if negative then 1 else 0, digits)
    ensures negative ==> p < |s| && s[p] == '-'
  {
    AtConcat(s, p, if negative then "-" else "", digits);
    if negative {
      AtHead(s, p, "-");
    }
  }

  lemma WholeNumberDecodes(c: Limits, name: Option<string>, s: string, p: nat, v: Value)
    requires (v.IntV? || v.UIntV?) && Encodable(v)
    requires At(s, p, ValueText(v)) && Delimited(s, p + |ValueText(v)|)
    ensures AtElement(c, name, s, p) == Got(Scalar(name, CanonicalValue(v)), p + |ValueText(v)|)
    ensures StartsElement(s, p)
  {
    hide AtElement, Number, Digits, At, Delimited, StartsElement;
    var negative := v.IntV? && v.i < 0;
    var magnitude := if v.UIntV? then v.u else if v.i < 0 then 0 - v.i else v.i;
    assert ValueText(v) == (if negative then "-" else "") + Digits(magnitude);
    SignThenDigits(s, p, negative, Digits(magnitude));
    IntegerDecodes(c, name, s, p + if negative then 1 else 0, magnitude, negative);
    SignedDecodes(c, name, s, p, negative);
  }

  lemma NumberDecodes(c: Limits, name: Option<string>, s: string, p: nat, v: Value)
    requires IsNumber(v) && Encodable(v) && Fits(c, v)
    requires At(s, p, ValueText(v)) && Delimited(s, p + |ValueText(v)|)
    ensures AtElement(c, name, s, p) == Got(Scalar(name, CanonicalValue(v)), p + |ValueText(v)|)
    ensures StartsElement(s, p)
  {
    if v.FloatV? {
      hide AtElement, Number, FloatSpelling, At, Delimited, StartsElement;
      SignThenDigits(s, p, v.negative, v.digits);
      FloatDecodes(c, name, s, p + if v.negative then 1 else 0, v.digits, v.negative);
      SignedDecodes(c, name, s, p, v.negative);
    } else {
      hide AtElement, At, Delimited, StartsElement;
      WholeNumberDecodes(c, name, s, p, v);
    }
  }

  lemma ScalarDecodes(c: Limits, name: Option<string>, s: string, p: nat, v: Value)
    requires Encodable(v) && Fits(c, v)
    requires At(s, p, ValueText(v))
    requires IsNumber(v) ==> Delimited(s, p + |ValueText(v)|)
    ensures AtElement(c, name, s, p) == Got(Scalar(name, CanonicalValue(v)), p + |ValueText(v)|)
    ensures StartsElement(s, p)
  {
    if IsNumber(v) {
      NumberDecodes(c, name, s, p, v);
    } else if v.StrV? {
      assert ValueText(v) == Quoted(v.s);
      StringDecodes(c, name, s, p, v.s);
    } else {
      WordDecodes(c, name, s, p, v);
    }
  }

  /** The part of a call's text behind separator and name. */
  function Token(ev: Event): string
    requires !ev.End?
  {
    match ev
    case Begin(isObject, _) => Opener(isObject)
    case Scalar(_, v) => ValueText(v)
  }

  predicate LegalValue(c: Limits, ev: Event) {
    ev.Scalar? ==> Encodable(ev.value) && Fits(c, ev.value)
  }

  predicate NeedsDelimiter(ev: Event) {
    ev.Scalar? && IsNumber(ev.value)
  }

  /** The event the decoder reports: names only inside objects, values canonical. */
  function Reported(inObject: bool, ev: Event): Event {
    match ev
    case End => End
    case Begin(isObject, name) => Begin(isObject, if inObject then name else None)
    case Scalar(name, v) => Scalar(if inObject then name else None, CanonicalValue(v))
  }

  function Renamed(ev: Event, name: Option<string>): Event
    requires !ev.End?
  {
    match ev
    case Begin(isObject, _) => Begin(isObject, name)
    case Scalar(_, v) => Scalar(name, CanonicalValue(v))
  }

  lemma TokenDecodes(c: Limits, name: Option<string>, s: string, p: nat, ev: Event)
    requires !ev.End? && LegalValue(c, ev)
    requires At(s, p, Token(ev))
    requires NeedsDelimiter(ev) ==> Delimited(s, p + |Token(ev)|)
    ensures AtElement(c, name, s, p) == Got(Renamed(ev, name), p + |Token(ev)|)
    ensures StartsElement(s, p)
  {
    match ev
    case Begin(isObject, _) =>
      AtHead(s, p, Opener(isObject));
      SkipExactly(s, p, p);
    case Scalar(_, v) =>
      ScalarDecodes(c, name, s, p, v);
  }

  predicate LegalName(c: Limits, name: Option<string>) {
    name.Some? && AllEscapable(name.value) && NUL !in name.value && |Escape(name.value)| < c.nameLen
  }

  lemma AfterName(c: Limits, s: string, p: nat, name: string, behind: nat)
    requires p < |s| && s[p] == '\"' && DecodeString(s, p, c.nameLen) == StringOk(name, behind)
    requires behind < |s| && s[behind] == ':' && NUL !in name
    ensures AtLoop(c, true, s, p) == AtElement(c, Some(name), s, SkipSpace(s, behind + 1))
  {
    hide AtElement, DecodeString;
    SkipExactly(s, p, p);
    SkipExactly(s, behind, behind);
  }

  /** Inside an object: a name and a colon lead to the element behind them. */
  lemma MemberReads(c: Limits, s: string, p: nat, name: string, colon: string)
    requires LegalName(c, Some(name)) && (colon == ":" || colon == ": ")
    requires At(s, p, Quoted(name) + colon) && StartsElement(s, p + |Quoted(name)| + |colon|)
    ensures AtLoop(c, true, s, p) == AtElement(c, Some(name), s, p + |Quoted(name)| + |colon|)
    ensures p < |s| && s[p] == '\"'
  {
    hide AtElement, AtLoop, DecodeString, Escape;
    var behind := p + |Quoted(name)|;
    var value := behind + |colon|;
    AtConcat(s, p, Quoted(name), colon);
    AtHead(s, p, Quoted(name));
    AtHead(s, behind, colon);
    if |colon| == 2 {
      assert s[behind + 1] == s[behind..value][1];
    }
    DecodeQuoted(s, p, name, c.nameLen);
    SkipExactly(s, behind + 1, value);
    AfterName(c, s, p, name, behind);
  }

  lemma AtLoopSkips(c: Limits, inObject: bool, s: string, p: nat, q: nat)
    requires p <= q < |s| && !IsSpace(s[q]) && forall i :: p <= i < q ==> IsSpace(s[i])
    ensures AtLoop(c, inObject, s, p) == AtLoop(c, inObject, s, q)
    ensures SkipSpace(s, p) == q
  {
    SkipExactly(s, p, q);
    SkipExactly(s, q, q);
  }

  lemma ElementInArray(c: Limits, s: string, p: nat)
    requires StartsElement(s, p)
    ensures AtLoop(c, false, s, p) == AtElement(c, None, s, p)
  {
    SkipExactly(s, p, p);
  }

  /** The name under which an element of a container is reported. */
  function NameIn(e: Enc, name: Option<string>): Option<string> {
    if InObject(e) then name else None
  }

  /** Inside a container, at the first character that is not white space. */
  lemma ItemReads(c: Limits, s: string, p: nat, e: Enc, name: Option<string>)
    requires |e.stack| > 0 && (InObject(e) ==> LegalName(c, name))
    requires At(s, p, NameText(e, name)) && StartsElement(s, p + |NameText(e, name)|)
    ensures AtLoop(c, InObject(e), s, p) == AtElement(c, NameIn(e, name), s, p + |NameText(e, name)|)
    ensures StartsElement(s, p)
  {
    hide AtElement, AtLoop, Escape, At;
    if InObject(e) {
      assert NameText(e, name) == Quoted(name.value) + Colon(e);
      MemberReads(c, s, p, name.value, Colon(e));
    } else {
      ElementInArray(c, s, p);
    }
  }

  // -------------------------------------------------------- one call, one step

  /** The control point that reads what is written next in context e. */
  function ControlOf(e: Enc): Control {
    if |e.stack| == 0 then if e.first then ROOT else After([])
    else if e.first then Loop(e.stack)
    else After(e.stack)
  }

  /** The calls that a root container and its content are made of; a container more
      would be stored behind the end of isObject. */
  predicate LegalCall(c: Limits, e: Enc, ev: Event) {
    && LegalValue(c, ev)
    && (|e.stack| == 0 ==> e.first && ev.Begin?)
    && (ev.Begin? ==> |e.stack| + 1 < MAX_LEVELS)
    && (InObject(e) && !ev.End? ==> LegalName(c, ev.name))
  }

  /** Commas separate siblings and neither lead nor trail: behind a finished item
      comes the closing bracket, or one comma and then an item. */
  predicate ProperlySeparated(k: Control, s: string, p: nat)
    requires p <= |s|
  {
    k.After? && |k.stack| > 0 ==>
      var q := SkipSpace(s, p);
      && q < |s|
      && (s[q] == (if Top(k) then '}' else ']') || (s[q] == ',' && StartsElement(s, SkipSpace(s, q + 1))))
  }

  lemma CloserEnds(c: Limits, e: Enc, s: string, p: nat, q: nat)
    requires |e.stack| > 0 && p <= q < |s| && s[q] == Closer(InObject(e))[0] && forall i :: p <= i < q ==> IsSpace(s[i])
    requires p == |e.out|
    ensures Next(c, ControlOf(e), s, p) == Got(End, q + 1)
    ensures ProperlySeparated(ControlOf(e), s, p)
  {
    hide AtElement, AtMember, SkipSpace;
    AtLoopSkips(c, InObject(e), s, p, q);
    SkipExactly(s, q, q);
  }

  /** The line break and indentation before a closing bracket. */
  function EndWhite(e: Enc): string
    requires |e.stack| > 0
  {
    if e.pretty && !e.first then "\n" + Indent(|e.stack| - 1) else ""
  }

  lemma EndWhiteIsSpace(e: Enc)
    requires |e.stack| > 0
    ensures forall i :: 0 <= i < |EndWhite(e)| ==> IsSpace(EndWhite(e)[i])
  {
    IndentIsSpace(|e.stack| - 1);
  }

  lemma EndDecodes(c: Limits, s: string, e: Enc)
    requires |e.stack| > 0 && At(s, |e.out|, CallText(e, End))
    ensures Next(c, ControlOf(e), s, |e.out|) == Got(End, |e.out| + |CallText(e, End)|)
    ensures ProperlySeparated(ControlOf(e), s, |e.out|)
  {
    hide At, Next, ProperlySeparated, Indent, IsSpace;
    var white, closer := EndWhite(e), Closer(InObject(e));
    assert CallText(e, End) == white + closer;
    hide EndWhite, CallText;
    var p := |e.out|;
    EndWhiteIsSpace(e);
    AtConcat(s, p, white, closer);
    AtEach(s, p, white);
    AtHead(s, p + |white|, closer);
    CloserEnds(c, e, s, p, p + |white|);
  }

  function Comma(e: Enc): string {
    if e.first then "" else ","
  }

  function White(e: Enc): string {
    if e.pretty then "\n" + Indent(|e.stack|) else ""
  }

  lemma WhiteIsSpace(e: Enc)
    ensures forall i :: 0 <= i < |White(e)| ==> IsSpace(White(e)[i])
  {
    IndentIsSpace(|e.stack|);
  }

  lemma ItemText(e: Enc, ev: Event)
    requires |e.stack| > 0 && !ev.End?
    ensures CallText(e, ev) == Comma(e) + (White(e) + (NameText(e, ev.name) + Token(ev)))
    ensures forall i :: 0 <= i < |White(e)| ==> IsSpace(White(e)[i])
  {
    hide NameText, ValueText, IsSpace;
    assert forall i :: 0 <= i < |White(e)| ==> IsSpace(White(e)[i]) by { WhiteIsSpace(e); }
    assert Separator(e) == Comma(e) + White(e);
    assert CallText(e, ev) == (Comma(e) + White(e)) + NameText(e, ev.name) + Token(ev);
  }

  /** The pieces of an item's text, one behind the other. */
  lemma ItemPieces(s: string, e: Enc, ev: Event)
    requires |e.stack| > 0 && !ev.End? && At(s, |e.out|, CallText(e, ev))
    ensures var p := |e.out| + |Comma(e)|;
            var q := p + |White(e)|;
            var t := q + |NameText(e, ev.name)|;
            && At(s, |e.out|, Comma(e)) && At(s, p, White(e)) && At(s, q, NameText(e, ev.name)) && At(s, t, Token(ev))
            && t + |Token(ev)| == |e.out| + |CallText(e, ev)|
  {
    hide Comma, White, NameText, Token, CallText, At;
    ItemText(e, ev);
    var p := |e.out| + |Comma(e)|;
    AtConcat(s, |e.out|, Comma(e), White(e) + (NameText(e, ev.name) + Token(ev)));
    AtConcat(s, p, White(e), NameText(e, ev.name) + Token(ev));
    AtConcat(s, p + |White(e)|, NameText(e, ev.name), Token(ev));
  }

  /** Where the token of an item starts. */
  function TokenAt(e: Enc, name: Option<string>): nat {
    |e.out| + |Comma(e)| + |White(e)| + |NameText(e, name)|
  }

  /** Behind the comma, if there is one, the loop of the container goes on. */
  lemma CommaLeadsToLoop(c: Limits, s: string, e: Enc, p: nat)
    requires |e.stack| > 0 && At(s, |e.out|, Comma(e)) && p == |e.out| + |Comma(e)|
    requires StartsElement(s, SkipSpace(s, p))
    ensures Next(c, ControlOf(e), s, |e.out|) == AtLoop(c, InObject(e), s, p)
    ensures ProperlySeparated(ControlOf(e), s, |e.out|)
  {
    hide AtLoop, SkipSpace, StartsElement;
    if !e.first {
      AtHead(s, |e.out|, Comma(e));
      SkipExactly(s, |e.out|, |e.out|);
    }
  }

  lemma WhiteLeadsToItem(c: Limits, s: string, e: Enc, p: nat, q: nat)
    requires At(s, p, White(e)) && q == p + |White(e)| && StartsElement(s, q)
    ensures AtLoop(c, InObject(e), s, p) == AtLoop(c, InObject(e), s, q)
    ensures SkipSpace(s, p) == q
  {
    hide AtLoop, White, IsSpace, SkipSpace;
    WhiteIsSpace(e);
    AtEach(s, p, White(e));
    AtLoopSkips(c, InObject(e), s, p, q);
  }

  /** Behind what was written before, comma, white space and name lead to the token. */
  lemma ItemReached(c: Limits, s: string, e: Enc, ev: Event)
    requires |e.stack| > 0 && !ev.End? && LegalCall(c, e, ev) && At(s, |e.out|, CallText(e, ev))
    requires StartsElement(s, TokenAt(e, ev.name))
    ensures Next(c, ControlOf(e), s, |e.out|) == AtElement(c, NameIn(e, ev.name), s, TokenAt(e, ev.name))
    ensures ProperlySeparated(ControlOf(e), s, |e.out|)
  {
    hide AtElement, AtLoop, White, Comma, NameText, CallText, LegalName, LegalValue, Next, ProperlySeparated,
         ControlOf, StartsElement, At, SkipSpace;
    ItemPieces(s, e, ev);
    var p := |e.out| + |Comma(e)|;
    var q := p + |White(e)|;
    ItemReads(c, s, q, e, ev.name);
    assert q <= |s| by { StartsInside(s, q); }
    WhiteLeadsToItem(c, s, e, p, q);
    CommaLeadsToLoop(c, s, e, p);
  }

  lemma StartsInside(s: string, p: nat)
    requires StartsElement(s, p)
    ensures p < |s|
  {
  }

  lemma ItemStep(c: Limits, s: string, e: Enc, ev: Event)
    requires |e.stack| > 0 && !ev.End? && LegalCall(c, e, ev)
    requires At(s, |e.out|, CallText(e, ev))
    requires NeedsDelimiter(ev) ==> Delimited(s, |e.out| + |CallText(e, ev)|)
    ensures Next(c, ControlOf(e), s, |e.out|) == Got(Reported(InObject(e), ev), |e.out| + |CallText(e, ev)|)
    ensures ProperlySeparated(ControlOf(e), s, |e.out|)
  {
    hide AtElement, Next, White, Comma, NameText, Token, CallText, At, StartsElement, ProperlySeparated;
    ItemPieces(s, e, ev);
    TokenDecodes(c, NameIn(e, ev.name), s, TokenAt(e, ev.name), ev);
    ItemReached(c, s, e, ev);
  }

  /** A legal call is read back as one decoder step, between matching contexts. */
  lemma CallDecodes(c: Limits, s: string, e: Enc, ev: Event)
    requires LegalCall(c, e, ev)
    requires At(s, |e.out|, CallText(e, ev))
    requires NeedsDelimiter(ev) ==> Delimited(s, |e.out| + |CallText(e, ev)|)
    ensures Running(ControlOf(e)) && ControlOf(e).stack == e.stack
    ensures Next(c, ControlOf(e), s, |e.out|) == Got(Reported(InObject(e), ev), |AfterCall(e, ev).out|)
    ensures Advance(ControlOf(e), Reported(InObject(e), ev)) == ControlOf(AfterCall(e, ev))
    ensures ProperlySeparated(ControlOf(e), s, |e.out|)
  {
    hide CallText, At, Next, ProperlySeparated, LegalValue, LegalName, NeedsDelimiter;
    if ev.End? {
      EndDecodes(c, s, e);
      assert e.stack[..|e.stack| - 1] == AfterCall(e, ev).stack;
    } else if |e.stack| > 0 {
      ItemStep(c, s, e, ev);
    } else {
      RootDecodes(c, s, e, ev);
    }
  }

  lemma RootDecodes(c: Limits, s: string, e: Enc, ev: Event)
    requires LegalCall(c, e, ev) && |e.stack| == 0 && At(s, |e.out|, CallText(e, ev))
    ensures Next(c, ControlOf(e), s, |e.out|) == Got(Reported(false, ev), |AfterCall(e, ev).out|)
    ensures ProperlySeparated(ControlOf(e), s, |e.out|)
  {
    hide AtElement, At;
    assert CallText(e, ev) == Token(ev);
    TokenDecodes(c, None, s, |e.out|, ev);
  }

  // ------------------------------------------------------------ whole encodings

  ghost predicate LegalCalls(c: Limits, e: Enc, evs: seq<Event>)
    decreases |evs|
  {
    evs != [] ==> LegalCall(c, e, evs[0]) && LegalCalls(c, AfterCall(e, evs[0]), evs[1..])
  }

  ghost function AfterCalls(e: Enc, evs: seq<Event>): (r: Enc)
    ensures e.out <= r.out && r.limit == e.limit && r.pretty == e.pretty
    decreases |evs|
  {
    if evs == [] then e else AfterCalls(AfterCall(e, evs[0]), evs[1..])
  }

  ghost function ReportedAll(e: Enc, evs: seq<Event>): (r: seq<Event>)
    ensures |r| == |evs|
    decreases |evs|
  {
    if evs == [] then []
    else [Reported(InObject(e), evs[0])] + ReportedAll(AfterCall(e, evs[0]), evs[1..])
  }

  /** An encoding in progress whose last call is not a number. */
  predicate Settled(evs: seq<Event>) {
    |evs| > 0 ==> !NeedsDelimiter(evs[|evs| - 1])
  }

  function Reading(s: string, p: nat, fired: seq<Event>): Dec {
    Dec(s, p, "", true, fired)
  }

  /** Every step of the run from control point k reads well-placed commas. */
  ghost predicate SeparatedFrom(c: Limits, k: Control, d: Dec)
    requires Valid(d)
    decreases Size(d)
  {
    Running(k) ==>
      match Next(c, k, d.buf, d.ptr)
      case Bad(_) => false
      case Got(ev, end) =>
        && ProperlySeparated(k, d.buf, d.ptr)
        && SeparatedFrom(c, Advance(k, ev), Fire(d.(ptr := end), ev))
  }

  lemma StepFromMemory(c: Limits, k: Control, s: string, p: nat, fired: seq<Event>, ev: Event, end: nat)
    requires p <= |s| && Running(k) && Next(c, k, s, p) == Got(ev, end)
    ensures p < end <= |s|
    ensures Run(AlwaysOk, c, k, Reading(s, p, fired)) ==
            Run(AlwaysOk, c, Advance(k, ev), Reading(s, end, fired + [ev]))
    ensures ProperlySeparated(k, s, p) ==>
              SeparatedFrom(c, k, Reading(s, p, fired)) ==
              SeparatedFrom(c, Advance(k, ev), Reading(s, end, fired + [ev]))
  {
    hide Next, Advance, ProperlySeparated;
  }

  lemma TextFollows(s: string, e: Enc, ev: Event)
    requires AfterCall(e, ev).out <= s
    ensures At(s, |e.out|, CallText(e, ev)) && |AfterCall(e, ev).out| == |e.out| + |CallText(e, ev)|
  {
    hide CallText;
    var out := AfterCall(e, ev).out;
    assert out == e.out + CallText(e, ev);
    assert s[|e.out|..|out|] == out[|e.out|..];
  }

  /** Whatever is called after a scalar starts with a character that ends a number. */
  lemma CallDelimits(s: string, e: Enc, ev: Event)
    requires |e.stack| > 0 && !e.first && AfterCall(e, ev).out <= s
    ensures Delimited(s, |e.out|)
  {
    TextFollows(s, e, ev);
    AtHead(s, |e.out|, CallText(e, ev));
  }

  /** One call and the decoder step that reads it. */
  lemma StepTogether(c: Limits, s: string, e: Enc, ev: Event, fired: seq<Event>)
    requires LegalCall(c, e, ev) && AfterCall(e, ev).out <= s
    requires NeedsDelimiter(ev) ==> Delimited(s, |AfterCall(e, ev).out|)
    ensures e.out <= AfterCall(e, ev).out
    ensures var next := AfterCall(e, ev);
            var d := Reading(s, |e.out|, fired);
            var d' := Reading(s, |next.out|, fired + [Reported(InObject(e), ev)]);
            && Run(AlwaysOk, c, ControlOf(e), d) == Run(AlwaysOk, c, ControlOf(next), d')
            && SeparatedFrom(c, ControlOf(e), d) == SeparatedFrom(c, ControlOf(next), d')
  {
    hide LegalCall, NeedsDelimiter, Delimited, ControlOf, Reported, Next, ProperlySeparated, CallText;
    TextFollows(s, e, ev);
    CallDecodes(c, s, e, ev);
    StepFromMemory(c, ControlOf(e), s, |e.out|, fired, Reported(InObject(e), ev), |AfterCall(e, ev).out|);
  }

  lemma InnerCallsDelimit(c: Limits, s: string, e: Enc, evs: seq<Event>)
    requires |evs| > 1 && LegalCalls(c, e, evs) && AfterCalls(e, evs).out <= s
    ensures NeedsDelimiter(evs[0]) ==> Delimited(s, |AfterCall(e, evs[0]).out|)
  {
    var next := AfterCall(e, evs[0]);
    assert evs[1..][0] == evs[1];
    assert AfterCall(next, evs[1]).out <= AfterCalls(next, evs[1..]).out;
    if NeedsDelimiter(evs[0]) {
      assert |e.stack| > 0 && !next.first && next.stack == e.stack;
      CallDelimits(s, next, evs[1]);
    }
  }

  /** The decoder reading s keeps step with the encoder that is writing it. */
  lemma {:induction false} KeepsStep(c: Limits, s: string, e: Enc, evs: seq<Event>, fired: seq<Event>)
    requires LegalCalls(c, e, evs) && AfterCalls(e, evs).out <= s
    requires Settled(evs) || Delimited(s, |AfterCalls(e, evs).out|)
    ensures var last := AfterCalls(e, evs);
            var d := Reading(s, |e.out|, fired);
            var d' := Reading(s, |last.out|, fired + ReportedAll(e, evs));
            && Run(AlwaysOk, c, ControlOf(e), d) == Run(AlwaysOk, c, ControlOf(last), d')
            && SeparatedFrom(c, ControlOf(e), d) == SeparatedFrom(c, ControlOf(last), d')
    decreases |evs|
  {
    hide AfterCall, LegalCall, NeedsDelimiter, Delimited, ControlOf, Reported, Run, SeparatedFrom;
    if evs == [] {
      assert fired + [] == fired;
    } else {
      var ev, next := evs[0], AfterCall(e, evs[0]);
      var read := Reported(InObject(e), ev);
      if |evs| > 1 {
        InnerCallsDelimit(c, s, e, evs);
      } else {
        assert AfterCalls(e, evs) == next;
      }
      StepTogether(c, s, e, ev, fired);
      KeepsStep(c, s, next, evs[1..], fired + [read]);
      assert fired + ([read] + ReportedAll(next, evs[1..])) == fired + [read] + ReportedAll(next, evs[1..]);
    }
  }

  // ----------------------------------------------- a number at the end of the text

  /** A number that the end of the buffer cuts off is incomplete, however long. */
  lemma NumberRunsDry(c: Limits, name: Option<string>, s: string, p: nat, negative: bool)
    requires p < |s| && IsDigit(s[p]) && forall i :: p <= i < |s| ==> IsFPChar(s[i])
    ensures Number(c, name, s, p, negative) == Bad(Incomplete)
  {
    hide IsFPChar, IsDigit, DigitLoop, ScanFP;
    var acc := DigitLoop(s, p, 0);
    if acc.end < |s| {
      assert IsFPChar(s[acc.end]);
      assert ScanFP(s, acc.end) == |s|;
    }
  }

  lemma NumberTokenRunsDry(c: Limits, name: Option<string>, s: string, p: nat, ev: Event)
    requires NeedsDelimiter(ev) && Encodable(ev.value) && At(s, p, Token(ev)) && p + |Token(ev)| == |s|
    ensures AtElement(c, name, s, p) == Bad(Incomplete)
    ensures StartsElement(s, p)
  {
    hide AtElement, Number, Digits, At, StartsElement, IsDigit, IsFPChar;
    var v := ev.value;
    var negative := (v.IntV? && v.i < 0) || (v.FloatV? && v.negative);
    var digits := if v.FloatV? then v.digits else Digits(if v.UIntV? then v.u else if v.i < 0 then 0 - v.i else v.i);
    assert Token(ev) == (if negative then "-" else "") + digits;
    var q := p + if negative then 1 else 0;
    SignThenDigits(s, p, negative, digits);
    DigitsAreFP(v, digits);
    AtEach(s, q, digits);
    NumberRunsDry(c, name, s, q, negative);
    SignedDecodes(c, name, s, p, negative);
  }

  lemma DigitsAreFP(v: Value, digits: string)
    requires Encodable(v) && (if v.FloatV? then digits == v.digits else exists n: nat :: digits == Digits(n))
    ensures digits != "" && IsDigit(digits[0]) && forall i :: 0 <= i < |digits| ==> IsFPChar(digits[i])
  {
  }

  lemma AtEach(s: string, p: nat, e: string)
    requires At(s, p, e)
    ensures forall i :: p <= i < p + |e| ==> s[i] == e[i - p]
  {
    assert forall i :: p <= i < p + |e| ==> s[i] == s[p..p + |e|][i - p];
  }

  /** A number as the last thing written: the decoder reaches it and asks for more. */
  lemma LastNumberIncomplete(c: Limits, s: string, e: Enc, ev: Event)
    requires LegalCall(c, e, ev) && NeedsDelimiter(ev) && s == AfterCall(e, ev).out
    ensures Running(ControlOf(e)) && Next(c, ControlOf(e), s, |e.out|) == Bad(Incomplete)
  {
    hide AtElement, Next, White, Comma, NameText, Token, CallText, At, StartsElement, ProperlySeparated, Encodable;
    TextFollows(s, e, ev);
    ItemPieces(s, e, ev);
    NumberTokenRunsDry(c, NameIn(e, ev.name), s, TokenAt(e, ev.name), ev);
    ItemReached(c, s, e, ev);
  }
}
