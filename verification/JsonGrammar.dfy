/** The texts the decoder accepts, given by a grammar (section 2 of RFC 8259) that does not
    mention the decoder: every step between callbacks reads exactly one item of it. */
module JsonGrammar {
  import opened JsonText
  import opened JsonEncoder
  import opened JsonDecoder
  import opened JsonRoundTrip
  import JsonEvents
  import opened JsonSpelling

  // ------------------------------------------------------------------ the grammar

  /** White space: space, tab, line feed and carriage return, and for this decoder also
      vertical tab and form feed. */
  predicate BlankChar(c: char) {
    c as int == 0x20 || 0x9 <= c as int <= 0xD
  }

  predicate Blank(s: string) {
    forall i :: 0 <= i < |s| ==> BlankChar(s[i])
  }

  datatype Lexeme =
    | Opens(isObject: bool)
    | Closes(isObject: bool)
    | True
    | False
    | Null
    | Str(ps: seq<Piece>)
    | Num(negative: bool, digits: string)

  /** A member's name, and the white space before and behind its colon. */
  datatype Name = Name(ps: seq<Piece>, before: string, behind: string)

  /** What stands between one callback and the next; `comma` is the white space behind the
      comma, if there is one. */
  datatype Item = Item(gap: string, comma: Option<string>, name: Option<Name>, lexeme: Lexeme)

  function LexemeText(t: Lexeme): string {
    match t
    case Opens(isObject) => if isObject then "{" else "["
    case Closes(isObject) => if isObject then "}" else "]"
    case True => "true"
    case False => "false"
    case Null => "null"
    case Str(ps) => InQuotes(ps)
    case Num(negative, digits) => (if negative then "-" else "") + digits
  }

  function NamePart(n: Option<Name>): string {
    if n.None? then "" else InQuotes(n.value.ps) + (n.value.before + (":" + n.value.behind))
  }

  function CommaPart(comma: Option<string>): string {
    if comma.None? then "" else "," + comma.value
  }

  function Body(i: Item): string {
    NamePart(i.name) + LexemeText(i.lexeme)
  }

  function TextOfItem(i: Item): string {
    i.gap + (CommaPart(i.comma) + Body(i))
  }

  predicate AllDigits(s: string) {
    forall i :: 0 <= i < |s| ==> IsDigit(s[i])
  }

  /** An integer that 64 bits hold, signed if possible; any other number is a double, kept
      as its spelling. */
  function NumberRead(negative: bool, digits: string): Value {
    if !AllDigits(digits) then FloatV(negative, digits)
    else
      var n := DecimalValue(digits);
      if negative then if n <= INT64_MAX + 1 then IntV(0 - n) else FloatV(true, digits)
      else if n <= INT64_MAX then IntV(n)
      else if n <= UINT64_MAX then UIntV(n)
      else FloatV(false, digits)
  }

  predicate NumberSpelling(digits: string) {
    digits != "" && IsDigit(digits[0]) && forall i :: 0 <= i < |digits| ==> IsFPChar(digits[i])
  }

  /** A lexeme that is spelled right and fits the decoder's buffer. */
  predicate LegalLexeme(c: Limits, t: Lexeme) {
    match t
    case Str(ps) => LegalPieces(ps) && |SpelledAll(ps)| < c.stringLen
    case Num(negative, digits) =>
      NumberSpelling(digits) && (NumberRead(negative, digits).FloatV? ==> |digits| < c.stringLen)
    case _ => true
  }

  predicate LegalNamePart(c: Limits, n: Name) {
    LegalPieces(n.ps) && |SpelledAll(n.ps)| < c.nameLen && Blank(n.before) && Blank(n.behind)
  }

  predicate Takes(k: Control, named: bool, t: Lexeme) {
    match k
    case Element(_, _) => !named && !t.Closes?
    case _ => |k.stack| > 0 && (if t.Closes? then !named && t.isObject == Top(k) else named == Top(k))
  }

  /** An item at a control point: members of objects have names, elements of arrays and the
      root have none, and a bracket closes the innermost container.  The decoder does not
      insist on the comma behind a finished item, nor on an item behind a comma. */
  predicate LegalItem(c: Limits, k: Control, i: Item) {
    && Takes(k, i.name.Some?, i.lexeme)
    && Blank(i.gap) && (i.comma.Some? ==> k.After? && Blank(i.comma.value))
    && (i.name.Some? ==> LegalNamePart(c, i.name.value))
    && LegalLexeme(c, i.lexeme)
  }

  function LexemeEvent(name: Option<string>, t: Lexeme): Event
    requires t.Str? ==> LegalPieces(t.ps)
  {
    match t
    case Opens(isObject) => Begin(isObject, name)
    case Closes(_) => End
    case True => Scalar(name, BoolV(true))
    case False => Scalar(name, BoolV(false))
    case Null => Scalar(name, NullV)
    case Str(ps) => Scalar(name, StrV(CStr(ReadAll(ps))))
    case Num(negative, digits) => Scalar(name, NumberRead(negative, digits))
  }

  function NameRead(k: Control, n: Option<Name>): Option<string>
    requires n.Some? ==> LegalPieces(n.value.ps)
  {
    if k.Element? then k.name else if n.Some? then Some(CStr(ReadAll(n.value.ps))) else None
  }

  function ItemEvent(c: Limits, k: Control, i: Item): Event
    requires LegalItem(c, k, i)
  {
    LexemeEvent(NameRead(k, i.name), i.lexeme)
  }

  // ------------------------------------------------------------------- white space

  lemma BlankIsSpace(c: char)
    ensures BlankChar(c) <==> IsSpace(c)
  {
  }

  /** White space before something else is skipped, and no more. */
  lemma SkipGap(s: string, p: nat, gap: string)
    requires Blank(gap) && At(s, p, gap) && p + |gap| <= |s|
    requires p + |gap| < |s| ==> !IsSpace(s[p + |gap|])
    ensures SkipSpace(s, p) == p + |gap|
  {
    hide BlankChar, IsSpace, At;
    AtEach(s, p, gap);
    forall i | p <= i < p + |gap|
      ensures IsSpace(s[i])
    {
      BlankIsSpace(gap[i - p]);
    }
    SkipExactly(s, p, p + |gap|);
  }

  lemma SkippedIsBlank(s: string, p: nat)
    requires p <= |s|
    ensures Blank(s[p..SkipSpace(s, p)]) && At(s, p, s[p..SkipSpace(s, p)])
  {
    hide BlankChar, IsSpace;
    var gap := s[p..SkipSpace(s, p)];
    forall i | 0 <= i < |gap|
      ensures BlankChar(gap[i])
    {
      BlankIsSpace(s[p + i]);
    }
  }

  lemma SkipNothing(s: string, p: nat)
    requires p < |s| && !IsSpace(s[p])
    ensures SkipSpace(s, p) == p
  {
  }

  // ----------------------------------------------------------------------- numbers

  lemma DigitIsFP(c: char)
    ensures IsDigit(c) ==> IsFPChar(c)
  {
  }

  /** A number up to the first character that cannot be part of one. */
  lemma NumberIsRead(c: Limits, name: Option<string>, s: string, p: nat, digits: string, negative: bool)
    requires NumberSpelling(digits) && At(s, p, digits) && Delimited(s, p + |digits|)
    ensures IsDigit(s[p])
    ensures var v := NumberRead(negative, digits);
            Number(c, name, s, p, negative) ==
            if v.FloatV? && |digits| >= c.stringLen then Bad(DataTooLong) else Got(Scalar(name, v), p + |digits|)
  {
    hide DigitLoop, DecimalValue, ScanFP, IsFPChar, At, IsDigit;
    var q := p + |digits|;
    assert s[p..q] == digits by { AtIsSlice(s, p, digits); }
    AtEach(s, p, digits);
    if AllDigits(digits) {
      DigitIsFP(s[q]);
      DigitLoopFromStart(s, p, q);
      var acc := DigitLoop(s, p, 0);
      DigitsOnward(s, acc.end, q);
    } else {
      var i :| 0 <= i < |digits| && !IsDigit(digits[i]);
      assert !IsDigit(s[p + i]);
      var stop := FirstNonDigit(s, p, q);
      DigitLoopFromStart(s, p, stop);
      DigitsOnward(s, DigitLoop(s, p, 0).end, q);
    }
  }

  lemma AtIsSlice(s: string, p: nat, e: string)
    requires At(s, p, e)
    ensures p + |e| <= |s| && s[p..p + |e|] == e
  {
  }

  lemma DigitsOnward(s: string, p: nat, q: nat)
    requires p <= q < |s| && !IsFPChar(s[q]) && forall i :: p <= i < q ==> IsFPChar(s[i])
    ensures ScanFP(s, p) == q && (p < q ==> IsFPChar(s[p]))
  {
    ScanFPExactly(s, p, q);
  }

  lemma NumberIsWritten(c: Limits, name: Option<string>, s: string, p: nat, negative: bool) returns (digits: string)
    requires p < |s| && IsDigit(s[p]) && Number(c, name, s, p, negative).Got?
    ensures LegalLexeme(c, Num(negative, digits)) && At(s, p, digits) && Delimited(s, p + |digits|)
    ensures Number(c, name, s, p, negative) == Got(Scalar(name, NumberRead(negative, digits)), p + |digits|)
  {
    hide Number, NumberRead, IsDigit, IsFPChar;
    var q := ScanFP(s, p);
    if q == |s| {
      NumberRunsDry(c, name, s, p, negative);
    } else {
      digits := s[p..q];
      DigitIsFP(s[p]);
      assert forall i :: 0 <= i < |digits| ==> digits[i] == s[p + i];
      NumberIsRead(c, name, s, p, digits, negative);
    }
  }

  // ---------------------------------------------------------------------- elements

  predicate StartsWith(s: string, p: nat, t: Lexeme)
    requires p < |s|
  {
    && !IsSpace(s[p]) && s[p] != ',' && s[p] != ':'
    && (s[p] == '}' <==> t == Closes(true)) && (s[p] == ']' <==> t == Closes(false))
    && (s[p] == '\"' <==> t.Str?)
  }

  lemma LexemeStarts(c: Limits, s: string, p: nat, t: Lexeme)
    requires LegalLexeme(c, t) && At(s, p, LexemeText(t))
    ensures p < |s| && StartsWith(s, p, t)
  {
    hide LegalPieces, SpelledAll, NumberRead;
    AtHead(s, p, LexemeText(t));
    if t.Num? {
      assert LexemeText(t)[0] == if t.negative then '-' else t.digits[0];
    }
  }

  /** A lexeme other than a closing bracket is read as an element. */
  lemma LexemeIsRead(c: Limits, name: Option<string>, s: string, p: nat, t: Lexeme)
    requires LegalLexeme(c, t) && !t.Closes? && At(s, p, LexemeText(t))
    requires t.Num? ==> Delimited(s, p + |LexemeText(t)|)
    ensures p < |s| && StartsWith(s, p, t)
    ensures AtElement(c, name, s, p) == Got(LexemeEvent(name, t), p + |LexemeText(t)|)
  {
    hide LegalPieces, SpelledAll, DecodeString, ReadAll, Number, NumberRead, AtElement, At, Delimited, NumberSpelling;
    LexemeStarts(c, s, p, t);
    SkipNothing(s, p);
    match t
    case Str(ps) => StringElement(c, name, s, p, ps);
    case Num(negative, digits) =>
      SignThenDigits(s, p, negative, digits);
      NumberIsRead(c, name, s, p + if negative then 1 else 0, digits, negative);
      SignedDecodes(c, name, s, p, negative);
    case _ => WordElement(c, name, s, p, t);
  }

  lemma StringElement(c: Limits, name: Option<string>, s: string, p: nat, ps: seq<Piece>)
    requires LegalPieces(ps) && |SpelledAll(ps)| < c.stringLen && At(s, p, InQuotes(ps))
    ensures AtElement(c, name, s, p) == Got(Scalar(name, StrV(CStr(ReadAll(ps)))), p + |InQuotes(ps)|)
  {
    hide LegalPieces, SpelledAll, DecodeString, ReadAll;
    AtHead(s, p, InQuotes(ps));
    SkipNothing(s, p);
    QuotedDecodes(s, p, c.stringLen, ps);
  }

  lemma WordElement(c: Limits, name: Option<string>, s: string, p: nat, t: Lexeme)
    requires (t.Opens? || t.True? || t.False? || t.Null?) && At(s, p, LexemeText(t))
    ensures AtElement(c, name, s, p) == Got(LexemeEvent(name, t), p + |LexemeText(t)|)
  {
    AtHead(s, p, LexemeText(t));
    SkipNothing(s, p);
  }

  /** What an element is read from, behind the white space. */
  lemma ElementIsWritten(c: Limits, name: Option<string>, s: string, p: nat) returns (t: Lexeme)
    requires p <= |s| && AtElement(c, name, s, p).Got?
    ensures var q := SkipSpace(s, p);
            && LegalLexeme(c, t) && !t.Closes? && At(s, q, LexemeText(t))
            && (t.Num? ==> Delimited(s, q + |LexemeText(t)|))
            && AtElement(c, name, s, p) == Got(LexemeEvent(name, t), q + |LexemeText(t)|)
  {
    hide LegalPieces, SpelledAll, DecodeString, ReadAll, Number, NumberRead, NumberSpelling, Delimited, At, InQuotes,
         CStr, IsSpace, IsDigit;
    var q := SkipSpace(s, p);
    if s[q] == '[' || s[q] == '{' {
      t := Opens(s[q] == '{');
      OneAt(s, q);
    } else if s[q] == '\"' {
      var ps := DecodedIsQuoted(s, q, c.stringLen);
      t := Str(ps);
    } else if s[q] == 'f' {
      t := False;
    } else if s[q] == 't' {
      t := True;
    } else if s[q] == 'n' {
      t := Null;
    } else {
      t := NumeralIsWritten(c, name, s, q, s[q] == '-');
    }
  }

  lemma NumeralIsWritten(c: Limits, name: Option<string>, s: string, q: nat, negative: bool) returns (t: Lexeme)
    requires q < |s| && (s[q] == '-' <==> negative)
    requires var d := q + if negative then 1 else 0;
             d < |s| && IsDigit(s[d]) && Number(c, name, s, d, negative).Got?
    ensures t.Num? && LegalLexeme(c, t) && At(s, q, LexemeText(t)) && Delimited(s, q + |LexemeText(t)|)
    ensures Number(c, name, s, q + if negative then 1 else 0, negative) ==
            Got(LexemeEvent(name, t), q + |LexemeText(t)|)
  {
    hide Number, NumberRead, NumberSpelling, Delimited, At;
    var digits := NumberIsWritten(c, name, s, q + if negative then 1 else 0, negative);
    t := Num(negative, digits);
    if negative {
      OneAt(s, q);
      AtConcat(s, q, "-", digits);
    } else {
      assert "" + digits == digits;
    }
  }

  lemma OneAt(s: string, p: nat)
    requires p < |s|
    ensures At(s, p, [s[p]])
  {
  }

  // ------------------------------------------------------------------------- items

  lemma NameStarts(s: string, p: nat, n: Name)
    requires At(s, p, NamePart(Some(n)))
    ensures var colon := p + |InQuotes(n.ps)| + |n.before|;
            && At(s, p, InQuotes(n.ps)) && At(s, p + |InQuotes(n.ps)|, n.before)
            && colon < |s| && s[colon] == ':' && At(s, colon + 1, n.behind)
            && colon + 1 + |n.behind| == p + |NamePart(Some(n))|
    ensures p < |s| && s[p] == '\"'
  {
    hide At, InQuotes;
    var colon := p + |InQuotes(n.ps)| + |n.before|;
    AtConcat(s, p, InQuotes(n.ps), n.before + (":" + n.behind));
    AtConcat(s, p + |InQuotes(n.ps)|, n.before, ":" + n.behind);
    AtConcat(s, colon, ":", n.behind);
    AtHead(s, colon, ":");
    QuotedParts(s, p, n.ps);
  }

  lemma NameJoined(s: string, p: nat, n: Name)
    requires var colon := p + |InQuotes(n.ps)| + |n.before|;
             && At(s, p, InQuotes(n.ps)) && At(s, p + |InQuotes(n.ps)|, n.before)
             && colon < |s| && s[colon] == ':' && At(s, colon + 1, n.behind)
    ensures At(s, p, NamePart(Some(n)))
  {
    hide At, InQuotes;
    var colon := p + |InQuotes(n.ps)| + |n.before|;
    OneAt(s, colon);
    AtConcat(s, colon, ":", n.behind);
    AtConcat(s, p + |InQuotes(n.ps)|, n.before, ":" + n.behind);
    AtConcat(s, p, InQuotes(n.ps), n.before + (":" + n.behind));
  }

  /** A name and its colon lead to the element behind them. */
  lemma NameIsRead(c: Limits, s: string, p: nat, n: Name)
    requires LegalNamePart(c, n) && At(s, p, NamePart(Some(n)))
    requires var q := p + |NamePart(Some(n))|; q < |s| && !IsSpace(s[q])
    ensures p < |s| && s[p] == '\"'
    ensures AtMember(c, s, p) == AtElement(c, Some(CStr(ReadAll(n.ps))), s, p + |NamePart(Some(n))|)
  {
    hide At, DecodeString, AtElement, SpelledAll, LegalPieces, ReadAll, Blank, SkipSpace;
    NameStarts(s, p, n);
    QuotedDecodes(s, p, c.nameLen, n.ps);
    var end := p + |InQuotes(n.ps)|;
    SkipGap(s, end, n.before);
    SkipGap(s, end + |n.before| + 1, n.behind);
  }

  lemma SkipTwice(s: string, p: nat)
    requires p <= |s|
    ensures SkipSpace(s, SkipSpace(s, p)) == SkipSpace(s, p)
  {
    var q := SkipSpace(s, p);
    if q < |s| {
      SkipNothing(s, q);
    }
  }

  lemma MemberIsWritten(c: Limits, s: string, p: nat) returns (n: Name, t: Lexeme)
    requires p < |s| && AtMember(c, s, p).Got?
    ensures LegalNamePart(c, n) && At(s, p, NamePart(Some(n)))
    ensures var q := p + |NamePart(Some(n))|;
            && LegalLexeme(c, t) && !t.Closes? && At(s, q, LexemeText(t))
            && (t.Num? ==> Delimited(s, q + |LexemeText(t)|))
            && AtMember(c, s, p) == Got(LexemeEvent(Some(CStr(ReadAll(n.ps))), t), q + |LexemeText(t)|)
  {
    hide At, DecodeString, AtElement, SpelledAll, LegalPieces, ReadAll, Blank, SkipSpace, LegalLexeme, Delimited,
         NamePart, InQuotes, LexemeText, LexemeEvent;
    n := NameIsWritten(c, s, p);
    var q := p + |NamePart(Some(n))|;
    t := ElementIsWritten(c, Some(CStr(ReadAll(n.ps))), s, q);
  }

  lemma NameIsWritten(c: Limits, s: string, p: nat) returns (n: Name)
    requires p < |s| && AtMember(c, s, p).Got?
    ensures LegalNamePart(c, n) && At(s, p, NamePart(Some(n))) && p + |NamePart(Some(n))| <= |s|
    ensures var q := p + |NamePart(Some(n))|;
            AtMember(c, s, p) == AtElement(c, Some(CStr(ReadAll(n.ps))), s, q) && SkipSpace(s, q) == q
  {
    hide At, DecodeString, AtElement, SpelledAll, LegalPieces, ReadAll, Blank, SkipSpace, InQuotes, NamePart, CStr,
         IsSpace;
    var ps := DecodedIsQuoted(s, p, c.nameLen);
    var end := p + |InQuotes(ps)|;
    var colon := SkipSpace(s, end);
    SkippedIsBlank(s, end);
    SkippedIsBlank(s, colon + 1);
    var q := SkipSpace(s, colon + 1);
    n := Name(ps, s[end..colon], s[colon + 1..q]);
    NameJoined(s, p, n);
    NameLength(n);
    SkipTwice(s, colon + 1);
  }

  lemma NameLength(n: Name)
    ensures |NamePart(Some(n))| == |InQuotes(n.ps)| + |n.before| + 1 + |n.behind|
  {
    hide InQuotes;
  }

  /** At the loop of a container, from the first character that is not white space. */
  lemma BodyIsRead(c: Limits, k: Control, s: string, p: nat, i: Item)
    requires LegalItem(c, k, i) && !k.Element? && At(s, p, Body(i))
    requires i.lexeme.Num? ==> Delimited(s, p + |Body(i)|)
    ensures p < |s| && !IsSpace(s[p]) && s[p] != ','
    ensures AtLoop(c, Top(k), s, p) == Got(ItemEvent(c, k, i), p + |Body(i)|)
  {
    hide At, AtElement, LegalLexeme, LegalPieces, ReadAll, AtMember, InQuotes, CStr, Delimited, LexemeText;
    var q := p + |NamePart(i.name)|;
    AtConcat(s, p, NamePart(i.name), LexemeText(i.lexeme));
    LexemeStarts(c, s, q, i.lexeme);
    if i.name.Some? {
      NameIsRead(c, s, p, i.name.value);
      LexemeIsRead(c, NameRead(k, i.name), s, q, i.lexeme);
    } else if !i.lexeme.Closes? {
      LexemeIsRead(c, None, s, q, i.lexeme);
    } else {
      assert |LexemeText(i.lexeme)| == 1 by { OneCharacter(i.lexeme); }
    }
    SkipNothing(s, p);
  }

  lemma OneCharacter(t: Lexeme)
    requires t.Closes?
    ensures |LexemeText(t)| == 1
  {
  }

  lemma BodyIsWritten(c: Limits, k: Control, s: string, p: nat) returns (i: Item)
    requires !k.Element? && |k.stack| > 0 && p <= |s| && AtLoop(c, Top(k), s, p).Got? && SkipSpace(s, p) == p
    ensures LegalItem(c, k, i) && i.gap == "" && i.comma.None? && At(s, p, Body(i))
    ensures i.lexeme.Num? ==> Delimited(s, p + |Body(i)|)
    ensures AtLoop(c, Top(k), s, p) == Got(ItemEvent(c, k, i), p + |Body(i)|)
  {
    hide At, AtElement, LegalLexeme, LegalNamePart, ReadAll, AtMember, InQuotes, CStr, Delimited, LexemeText, Top;
    if s[p] == (if Top(k) then '}' else ']') {
      i := Item("", None, None, Closes(Top(k)));
      OneAt(s, p);
      ClosesAt(s, p, Top(k));
      assert LegalLexeme(c, i.lexeme) by { NeedsNothing(c, i.lexeme); }
    } else if Top(k) {
      var n, t := MemberIsWritten(c, s, p);
      i := Item("", None, Some(n), t);
      AtConcat(s, p, NamePart(Some(n)), LexemeText(t));
    } else {
      var t := ElementIsWritten(c, None, s, p);
      i := Item("", None, None, t);
      assert "" + LexemeText(t) == LexemeText(t);
    }
  }

  lemma ClosesAt(s: string, p: nat, isObject: bool)
    requires p < |s| && s[p] == if isObject then '}' else ']'
    ensures At(s, p, "" + LexemeText(Closes(isObject))) && |LexemeText(Closes(isObject))| == 1
  {
  }

  lemma NeedsNothing(c: Limits, t: Lexeme)
    requires t.Closes?
    ensures LegalLexeme(c, t)
  {
  }

  /** The pieces of an item's text, one behind the other. */
  lemma ItemParts(s: string, p: nat, i: Item)
    ensures At(s, p, TextOfItem(i)) <==>
            && At(s, p, i.gap) && At(s, p + |i.gap|, CommaPart(i.comma))
            && At(s, p + |i.gap| + |CommaPart(i.comma)|, Body(i))
  {
    hide At;
    AtConcat(s, p, i.gap, CommaPart(i.comma) + Body(i));
    AtConcat(s, p + |i.gap|, CommaPart(i.comma), Body(i));
  }

  lemma LoopBehindGap(c: Limits, inObject: bool, s: string, p: nat, gap: string)
    requires Blank(gap) && At(s, p, gap) && p + |gap| < |s| && !IsSpace(s[p + |gap|])
    ensures AtLoop(c, inObject, s, p) == AtLoop(c, inObject, s, p + |gap|)
    ensures SkipSpace(s, p) == p + |gap|
  {
    hide At, AtElement, AtMember, Blank, SkipSpace, IsSpace;
    SkipGap(s, p, gap);
    SkipNothing(s, p + |gap|);
  }

  lemma CommaParts(s: string, p: nat, gap: string)
    ensures At(s, p, CommaPart(Some(gap))) <==> p < |s| && s[p] == ',' && At(s, p + 1, gap)
  {
    AtConcat(s, p, ",", gap);
    if p < |s| && s[p] == ',' {
      OneAt(s, p);
    }
    if At(s, p, ",") {
      AtHead(s, p, ",");
    }
  }

  /** Behind a finished item: white space, perhaps a comma and more white space, and the
      body of the next. */
  lemma AfterIsRead(c: Limits, k: Control, s: string, p: nat, i: Item)
    requires k.After? && LegalItem(c, k, i) && At(s, p, TextOfItem(i)) && p <= |s|
    requires i.lexeme.Num? ==> Delimited(s, p + |TextOfItem(i)|)
    ensures Next(c, k, s, p) == Got(ItemEvent(c, k, i), p + |TextOfItem(i)|)
  {
    hide At, AtLoop, Blank, LegalLexeme, LegalNamePart, Body, ItemEvent, CommaPart, SkipSpace, IsSpace, Delimited;
    var q := p + |i.gap|;
    var b := q + |CommaPart(i.comma)|;
    ItemParts(s, p, i);
    BodyIsRead(c, k, s, b, i);
    if i.comma.Some? {
      CommaParts(s, q, i.comma.value);
      CommaLength(i.comma.value);
      assert !IsSpace(s[q]) by { CommaIsNoSpace(s, q); }
      LoopBehindGap(c, Top(k), s, q + 1, i.comma.value);
    } else {
      assert CommaPart(i.comma) == "" by { NoCommaPart(); }
    }
    SkipGap(s, p, i.gap);
  }

  lemma CommaLength(gap: string)
    ensures |CommaPart(Some(gap))| == 1 + |gap|
  {
  }

  lemma NoCommaPart()
    ensures CommaPart(None) == ""
  {
  }

  lemma CommaIsNoSpace(s: string, p: nat)
    requires p < |s| && s[p] == ','
    ensures !IsSpace(s[p])
  {
  }

  lemma ItemIsRead(c: Limits, k: Control, s: string, p: nat, i: Item)
    requires p <= |s| && LegalItem(c, k, i) && At(s, p, TextOfItem(i))
    requires i.lexeme.Num? ==> Delimited(s, p + |TextOfItem(i)|)
    ensures Running(k) && Next(c, k, s, p) == Got(ItemEvent(c, k, i), p + |TextOfItem(i)|)
  {
    hide At, AtLoop, AtElement, Blank, LegalLexeme, LegalNamePart, Delimited, SkipSpace, IsSpace, LexemeText,
         LexemeEvent;
    ItemParts(s, p, i);
    NoCommaPart();
    var q := p + |i.gap|;
    match k
    case After(_) => AfterIsRead(c, k, s, p, i);
    case Loop(_) =>
      BodyIsRead(c, k, s, q, i);
      LoopBehindGap(c, Top(k), s, p, i.gap);
    case Element(name, _) =>
      assert Body(i) == LexemeText(i.lexeme);
      LexemeIsRead(c, name, s, q, i.lexeme);
      ElementBehindGap(c, name, s, p, i.gap);
  }

  lemma ElementBehindGap(c: Limits, name: Option<string>, s: string, p: nat, gap: string)
    requires Blank(gap) && At(s, p, gap) && p + |gap| < |s| && !IsSpace(s[p + |gap|])
    ensures AtElement(c, name, s, p) == AtElement(c, name, s, p + |gap|)
  {
    hide At, Blank, SkipSpace, IsSpace, DecodeString, JsonDecoder.Literal, Number;
    SkipGap(s, p, gap);
    SkipNothing(s, p + |gap|);
  }

  lemma LoopSkips(c: Limits, inObject: bool, s: string, p: nat)
    requires p <= |s|
    ensures AtLoop(c, inObject, s, p) == AtLoop(c, inObject, s, SkipSpace(s, p))
  {
    hide AtElement, AtMember, SkipSpace;
    SkipTwice(s, p);
  }

  lemma AfterIsWritten(c: Limits, k: Control, s: string, p: nat) returns (i: Item)
    requires k.After? && |k.stack| > 0 && p <= |s| && Next(c, k, s, p).Got?
    ensures LegalItem(c, k, i) && At(s, p, TextOfItem(i)) && (i.lexeme.Num? ==> Delimited(s, p + |TextOfItem(i)|))
    ensures Next(c, k, s, p) == Got(ItemEvent(c, k, i), p + |TextOfItem(i)|)
  {
    hide At, AtLoop, AtElement, Blank, LegalLexeme, LegalNamePart, Delimited, SkipSpace, IsSpace, LexemeText,
         LexemeEvent, CommaPart, Body;
    var q := SkipSpace(s, p);
    SkippedIsBlank(s, p);
    SkipTwice(s, p);
    var b := if s[q] == ',' then q + 1 else q;
    var e := SkipSpace(s, b);
    LoopSkips(c, Top(k), s, b);
    SkipTwice(s, b);
    var body := BodyIsWritten(c, k, s, e);
    SkippedIsBlank(s, b);
    if s[q] == ',' {
      i := body.(gap := s[p..q], comma := Some(s[b..e]));
      CommaParts(s, q, s[b..e]);
      CommaLength(s[b..e]);
    } else {
      i := body.(gap := s[p..q]);
      NoCommaPart();
      NothingAt(s, q);
    }
    SameBody(body, i);
    ItemParts(s, p, i);
  }

  lemma SameBody(i: Item, j: Item)
    requires i.name == j.name && i.lexeme == j.lexeme
    ensures Body(i) == Body(j)
  {
  }

  lemma ItemIsWritten(c: Limits, k: Control, s: string, p: nat) returns (i: Item)
    requires Running(k) && p <= |s| && Next(c, k, s, p).Got?
    ensures LegalItem(c, k, i) && At(s, p, TextOfItem(i)) && (i.lexeme.Num? ==> Delimited(s, p + |TextOfItem(i)|))
    ensures Next(c, k, s, p) == Got(ItemEvent(c, k, i), p + |TextOfItem(i)|)
  {
    hide At, AtLoop, AtElement, Blank, LegalLexeme, LegalNamePart, Delimited, SkipSpace, IsSpace, LexemeText,
         LexemeEvent, CommaPart;
    var q := SkipSpace(s, p);
    SkippedIsBlank(s, p);
    NoCommaPart();
    match k
    case Element(name, _) =>
      var t := ElementIsWritten(c, name, s, p);
      i := Item(s[p..q], None, None, t);
      assert Body(i) == LexemeText(t);
      assert At(s, q, "") by { NothingAt(s, q); }
      ItemParts(s, p, i);
    case Loop(_) =>
      LoopSkips(c, Top(k), s, p);
      SkipTwice(s, p);
      var body := BodyIsWritten(c, k, s, q);
      i := body.(gap := s[p..q]);
      assert At(s, q, "") by { NothingAt(s, q); }
      ItemParts(s, p, i);
    case After(_) => i := AfterIsWritten(c, k, s, p);
  }

  lemma NothingAt(s: string, p: nat)
    requires p <= |s|
    ensures At(s, p, "")
  {
  }

  /** One step of the decoder reads exactly one item: it makes a callback and stops at a
      position if and only if a legal item stands there that means this callback and ends
      at that position, a number before a character that cannot be part of it. */
  lemma NextExactly(c: Limits, k: Control, s: string, p: nat, ev: Event, end: nat)
    requires Running(k) && p <= |s|
    ensures Next(c, k, s, p) == Got(ev, end) <==>
            exists i :: LegalItem(c, k, i) && At(s, p, TextOfItem(i)) && end == p + |TextOfItem(i)|
                        && ev == ItemEvent(c, k, i) && (i.lexeme.Num? ==> Delimited(s, end))
  {
    hide Next, At, TextOfItem, ItemEvent, LegalItem, Delimited;
    if Next(c, k, s, p) == Got(ev, end) {
      var i := ItemIsWritten(c, k, s, p);
    }
    forall i | LegalItem(c, k, i) && At(s, p, TextOfItem(i)) && (i.lexeme.Num? ==> Delimited(s, p + |TextOfItem(i)|))
      ensures Next(c, k, s, p) == Got(ItemEvent(c, k, i), p + |TextOfItem(i)|)
    {
      ItemIsRead(c, k, s, p, i);
    }
  }

  // -------------------------------------------------------------------- whole texts

  /** Items one behind the other, each legal where the ones before it lead. */
  ghost predicate LegalText(c: Limits, k: Control, items: seq<Item>)
    decreases |items|
  {
    items != [] ==> LegalItem(c, k, items[0]) && LegalText(c, Advance(k, ItemEvent(c, k, items[0])), items[1..])
  }

  function TextOf(items: seq<Item>): string {
    if items == [] then "" else TextOfItem(items[0]) + TextOf(items[1..])
  }

  ghost function EventsOf(c: Limits, k: Control, items: seq<Item>): (evs: seq<Event>)
    requires LegalText(c, k, items)
    ensures |evs| == |items|
    decreases |items|
  {
    if items == [] then []
    else
      var ev := ItemEvent(c, k, items[0]);
      [ev] + EventsOf(c, Advance(k, ev), items[1..])
  }

  ghost function Reached(c: Limits, k: Control, items: seq<Item>): Control
    requires LegalText(c, k, items)
    decreases |items|
  {
    if items == [] then k else Reached(c, Advance(k, ItemEvent(c, k, items[0])), items[1..])
  }

  /** Behind every number comes a character that cannot be part of it. */
  predicate NumbersEnd(s: string, p: nat, items: seq<Item>)
    decreases |items|
  {
    items != [] ==>
      var q := p + |TextOfItem(items[0])|;
      (items[0].lexeme.Num? ==> Delimited(s, q)) && NumbersEnd(s, q, items[1..])
  }

  ghost predicate Spelling(c: Limits, k: Control, s: string, p: nat, items: seq<Item>) {
    && LegalText(c, k, items) && !Running(Reached(c, k, items))
    && At(s, p, TextOf(items)) && NumbersEnd(s, p, items)
  }

  lemma FirstItem(c: Limits, k: Control, s: string, p: nat, items: seq<Item>)
    requires items != [] && LegalItem(c, k, items[0])
    ensures var k1 := Advance(k, ItemEvent(c, k, items[0]));
            var q := p + |TextOfItem(items[0])|;
            && (Spelling(c, k, s, p, items) <==>
                  && At(s, p, TextOfItem(items[0])) && (items[0].lexeme.Num? ==> Delimited(s, q))
                  && Spelling(c, k1, s, q, items[1..]))
            && (LegalText(c, k, items) ==>
                  EventsOf(c, k, items) == [ItemEvent(c, k, items[0])] + EventsOf(c, k1, items[1..]))
  {
    hide LegalItem, TextOfItem, ItemEvent, At, Delimited, Advance;
    AtConcat(s, p, TextOfItem(items[0]), TextOf(items[1..]));
  }

  lemma NotRunning(c: Limits, k: Control, s: string, p: nat, items: seq<Item>)
    requires p <= |s|
    ensures !Running(k) ==> (Spelling(c, k, s, p, items) <==> items == [])
    ensures Running(k) && Spelling(c, k, s, p, items) ==> items != []
  {
    hide TextOfItem, ItemEvent, Advance;
    if items != [] && !Running(k) {
      assert !LegalItem(c, k, items[0]);
    }
  }

  /** A run in memory over items makes their callbacks and ends behind them. */
  lemma {:induction false} ItemsAreRead(c: Limits, k: Control, s: string, p: nat, fired: seq<Event>, items: seq<Item>)
    requires p <= |s| && Spelling(c, k, s, p, items)
    ensures var r := Run(AlwaysOk, c, k, Reading(s, p, fired));
            r.status == Ok && r.dec.fired == fired + EventsOf(c, k, items)
    decreases |items|
  {
    hide Next, At, TextOfItem, ItemEvent, LegalItem, Delimited, Advance, Run;
    NotRunning(c, k, s, p, items);
    JsonEvents.NothingReported(AlwaysOk, c, k, Reading(s, p, fired));
    if items == [] {
      assert fired + [] == fired;
    } else {
      FirstItem(c, k, s, p, items);
      ItemIsRead(c, k, s, p, items[0]);
      var ev, q := ItemEvent(c, k, items[0]), p + |TextOfItem(items[0])|;
      StepFromMemory(c, k, s, p, fired, ev, q);
      ItemsAreRead(c, Advance(k, ev), s, q, fired + [ev], items[1..]);
      var more := EventsOf(c, Advance(k, ev), items[1..]);
      assert fired + [ev] + more == fired + ([ev] + more);
    }
  }

  /** A run that succeeds has read items. */
  lemma {:induction false} ReadIsItems(c: Limits, k: Control, s: string, p: nat, fired: seq<Event>)
      returns (items: seq<Item>)
    requires p <= |s| && Run(AlwaysOk, c, k, Reading(s, p, fired)).status == Ok
    ensures Spelling(c, k, s, p, items)
    ensures Run(AlwaysOk, c, k, Reading(s, p, fired)).dec.fired == fired + EventsOf(c, k, items)
    decreases |s| - p
  {
    hide Next, At, TextOfItem, ItemEvent, LegalItem, Delimited, Advance, Run;
    items := [];
    JsonEvents.NothingReported(AlwaysOk, c, k, Reading(s, p, fired));
    if !Running(k) {
      NotRunning(c, k, s, p, items);
      assert fired + [] == fired;
    } else {
      match Next(c, k, s, p)
      case Bad(status) => StepFails(AlwaysOk, c, k, Reading(s, p, fired), status);
      case Got(ev, q) =>
        var i := ItemIsWritten(c, k, s, p);
        StepFromMemory(c, k, s, p, fired, ev, q);
        var rest := ReadIsItems(c, Advance(k, ev), s, q, fired + [ev]);
        items := [i] + rest;
        assert items[1..] == rest;
        FirstItem(c, k, s, p, items);
        var more := EventsOf(c, Advance(k, ev), rest);
        assert fired + [ev] + more == fired + ([ev] + more);
    }
  }

  /** A text is decoded with certain callbacks if and only if it starts with items of the
      grammar that make up one root element and mean these callbacks; what follows the root
      is not looked at. */
  lemma DecodedTexts(c: Limits, s: string, evs: seq<Event>)
    ensures Decode(c, s).status == Ok && Decode(c, s).dec.fired == evs <==>
            exists items :: Spelling(c, ROOT, s, 0, items) && EventsOf(c, ROOT, items) == evs
  {
    hide Spelling, Run;
    assert InMemory(s) == Reading(s, 0, []);
    if Decode(c, s).status == Ok {
      var items := ReadIsItems(c, ROOT, s, 0, []);
      SpellingIsLegal(c, s, items);
      assert [] + EventsOf(c, ROOT, items) == EventsOf(c, ROOT, items);
    }
    forall items | Spelling(c, ROOT, s, 0, items)
      ensures LegalText(c, ROOT, items) && Decode(c, s).status == Ok
      ensures Decode(c, s).dec.fired == EventsOf(c, ROOT, items)
    {
      SpellingIsLegal(c, s, items);
      ItemsAreRead(c, ROOT, s, 0, [], items);
      assert [] + EventsOf(c, ROOT, items) == EventsOf(c, ROOT, items);
    }
  }

  lemma SpellingIsLegal(c: Limits, s: string, items: seq<Item>)
    requires Spelling(c, ROOT, s, 0, items)
    ensures LegalText(c, ROOT, items)
  {
  }

  // ----------------------------------------------------------------- proper documents

  /** Commas as the grammar has them: between siblings and nowhere else. */
  ghost predicate ProperCommas(c: Limits, k: Control, items: seq<Item>)
    requires LegalText(c, k, items)
    decreases |items|
  {
    items != [] ==>
      && (items[0].comma.Some? <==> k.After? && !items[0].lexeme.Closes?)
      && ProperCommas(c, Advance(k, ItemEvent(c, k, items[0])), items[1..])
  }

  lemma ItemDelimits(c: Limits, k: Control, s: string, p: nat, i: Item)
    requires k.After? && LegalItem(c, k, i) && At(s, p, TextOfItem(i))
    requires i.comma.Some? <==> !i.lexeme.Closes?
    ensures Delimited(s, p)
  {
    hide LegalNamePart, LegalLexeme, Takes;
    ItemParts(s, p, i);
    if i.gap != "" {
      AtHead(s, p, i.gap);
      assert BlankChar(i.gap[0]);
    } else if i.comma.Some? {
      AtHead(s, p, CommaPart(i.comma));
    } else {
      ClosesNameless(c, k, i);
      assert Body(i) == LexemeText(i.lexeme);
      AtHead(s, p, LexemeText(i.lexeme));
    }
  }

  lemma ClosesNameless(c: Limits, k: Control, i: Item)
    requires LegalItem(c, k, i) && i.lexeme.Closes?
    ensures i.name.None?
  {
  }

  lemma NumberLeadsToAfter(c: Limits, k: Control, i: Item)
    requires LegalItem(c, k, i) && i.lexeme.Num?
    ensures Advance(k, ItemEvent(c, k, i)) == After(k.stack)
  {
  }

  lemma {:induction false} ProperNumbersEnd(c: Limits, k: Control, s: string, p: nat, items: seq<Item>)
    requires LegalText(c, k, items) && ProperCommas(c, k, items) && !Running(Reached(c, k, items))
    requires At(s, p, TextOf(items)) && (k.stack == [] && items != [] ==> items[0].lexeme.Opens?)
    ensures NumbersEnd(s, p, items)
    decreases |items|
  {
    hide At, TextOfItem, ItemEvent, LegalItem, Delimited, Advance;
    if items != [] {
      var i, rest := items[0], items[1..];
      var k1, q := Advance(k, ItemEvent(c, k, i)), p + |TextOfItem(i)|;
      AtConcat(s, p, TextOfItem(i), TextOf(rest));
      if i.lexeme.Num? {
        NumberLeadsToAfter(c, k, i);
        RunningInside(k);
        assert rest != [];
        AtConcat(s, q, TextOfItem(rest[0]), TextOf(rest[1..]));
        ItemDelimits(c, k1, s, q, rest[0]);
      }
      if rest != [] && k1.stack == [] {
        NothingBehindRoot(c, k, i, rest[0]);
      }
      ProperNumbersEnd(c, k1, s, q, rest);
    }
  }

  lemma RunningInside(k: Control)
    ensures k.stack != [] ==> Running(After(k.stack))
  {
  }

  lemma NothingBehindRoot(c: Limits, k: Control, i: Item, next: Item)
    requires LegalItem(c, k, i) && (k.stack == [] ==> i.lexeme.Opens?)
    ensures var k1 := Advance(k, ItemEvent(c, k, i)); k1.stack == [] ==> !LegalItem(c, k1, next)
  {
    hide LegalNamePart, LegalLexeme;
  }

  /** Every document with a container as its root is decoded, with any white space between
      its tokens, any spelling of its strings and numbers, and whatever follows it. */
  lemma ProperDocumentDecodes(c: Limits, items: seq<Item>, rest: string)
    requires LegalText(c, ROOT, items) && ProperCommas(c, ROOT, items) && !Running(Reached(c, ROOT, items))
    requires items != [] && items[0].lexeme.Opens?
    ensures Decode(c, TextOf(items) + rest).status == Ok
    ensures Decode(c, TextOf(items) + rest).dec.fired == EventsOf(c, ROOT, items)
  {
    hide LegalText, ProperCommas, Reached, TextOf, Run, NumbersEnd, EventsOf;
    var s := TextOf(items) + rest;
    assert s[..|TextOf(items)|] == TextOf(items);
    ProperNumbersEnd(c, ROOT, s, 0, items);
    ItemsAreRead(c, ROOT, s, 0, [], items);
    assert InMemory(s) == Reading(s, 0, []);
    assert [] + EventsOf(c, ROOT, items) == EventsOf(c, ROOT, items);
  }
}
