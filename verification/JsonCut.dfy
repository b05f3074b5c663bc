/** Documents that break off: the decoder reports what comes before the break and asks for
    more, wherever that is, except just behind the minus sign of a number. */
module JsonCut {
  import opened JsonText
  import opened JsonEncoder
  import opened JsonDecoder
  import opened JsonRoundTrip
  import JsonEvents
  import opened JsonSpelling
  import opened JsonGrammar

  lemma {:induction false} SkipCut(s: string, p: nat, n: nat)
    requires p <= n <= |s|
    ensures SkipSpace(s[..n], p) == if SkipSpace(s, p) <= n then SkipSpace(s, p) else n
    decreases n - p
  {
    if p < n && IsSpace(s[p]) {
      SkipCut(s, p + 1, n);
    }
  }

  lemma {:induction false} ScanCut(s: string, p: nat, n: nat)
    requires p <= n + 1 && n <= |s| && ScanQuote(s, p) >= n
    ensures ScanQuote(s[..n], p) >= n
    decreases n + 1 - p
  {
    if p < n && s[p] != '\"' {
      ScanCut(s, if s[p] == '\\' then p + 2 else p + 1, n);
    }
  }

  /** A string that breaks off. */
  lemma StringCut(s: string, p: nat, n: nat, ps: seq<Piece>, len: int)
    requires LegalPieces(ps) && At(s, p, InQuotes(ps)) && |SpelledAll(ps)| < len
    requires p < n < p + |InQuotes(ps)|
    ensures DecodeString(s[..n], p, len) == StringBad(Incomplete)
  {
    hide LegalPieces, SpelledAll, ReadAll, At, ScanQuote;
    QuotedParts(s, p, ps);
    PiecesAreRead(s, p + 1, ps);
    ScanCut(s, p + 1, n);
  }

  lemma AtCut(s: string, p: nat, e: string, n: nat)
    requires At(s, p, e) && p + |e| <= n <= |s|
    ensures At(s[..n], p, e)
  {
    assert s[..n][p..p + |e|] == s[p..p + |e|];
  }

  /** A lexeme that breaks off, or a number that nothing follows. */
  predicate Breaks(t: Lexeme, n: nat) {
    n < |LexemeText(t)| || (t.Num? && n == |LexemeText(t)|)
  }

  /** Where the break does not look like one: the code tests the byte behind a minus sign,
      which is then the terminating NUL. */
  function BreakStatus(t: Lexeme, n: nat): Failure {
    if t.Num? && t.negative && n == 1 then InvalidCharacter else Incomplete
  }

  lemma NumberCut(c: Limits, name: Option<string>, s: string, p: nat, n: nat, negative: bool, digits: string)
    requires NumberSpelling(digits) && At(s, p, digits) && p < n <= p + |digits|
    ensures IsDigit(s[p]) && Number(c, name, s[..n], p, negative) == Bad(Incomplete)
  {
    hide Number, IsFPChar, IsDigit;
    AtEach(s, p, digits);
    NumberRunsDry(c, name, s[..n], p, negative);
  }

  lemma NumeralCut(c: Limits, name: Option<string>, s: string, p: nat, t: Lexeme, n: nat)
    requires t.Num? && LegalLexeme(c, t) && At(s, p, LexemeText(t)) && 0 < n <= |LexemeText(t)|
    ensures AtElement(c, name, s[..p + n], p) == Bad(BreakStatus(t, n))
  {
    hide Number, IsFPChar, At, NumberRead;
    LexemeStarts(c, s, p, t);
    AtIsSlice(s, p, LexemeText(t));
    SkipNothing(s[..p + n], p);
    SignThenDigits(s, p, t.negative, t.digits);
    AtHead(s, p + if t.negative then 1 else 0, t.digits);
    if n > 1 || !t.negative {
      NumberCut(c, name, s, p + if t.negative then 1 else 0, p + n, t.negative, t.digits);
    }
  }

  lemma WordCut(c: Limits, name: Option<string>, s: string, p: nat, t: Lexeme, n: nat)
    requires (t.Opens? || t.True? || t.False? || t.Null?) && At(s, p, LexemeText(t)) && 0 < n < |LexemeText(t)|
    ensures AtElement(c, name, s[..p + n], p) == Bad(Incomplete)
  {
    AtHead(s, p, LexemeText(t));
    SkipNothing(s[..p + n], p);
  }

  lemma QuotedCut(c: Limits, name: Option<string>, s: string, p: nat, ps: seq<Piece>, n: nat)
    requires LegalPieces(ps) && |SpelledAll(ps)| < c.stringLen && At(s, p, InQuotes(ps)) && 0 < n < |InQuotes(ps)|
    ensures AtElement(c, name, s[..p + n], p) == Bad(Incomplete)
  {
    hide LegalPieces, SpelledAll, DecodeString, At;
    AtHead(s, p, InQuotes(ps));
    AtIsSlice(s, p, InQuotes(ps));
    SkipNothing(s[..p + n], p);
    StringCut(s, p, p + n, ps, c.stringLen);
  }

  lemma LexemeCut(c: Limits, name: Option<string>, s: string, p: nat, t: Lexeme, n: nat)
    requires LegalLexeme(c, t) && !t.Closes? && At(s, p, LexemeText(t)) && Breaks(t, n)
    ensures p + n <= |s| && AtElement(c, name, s[..p + n], p) == Bad(BreakStatus(t, n))
  {
    hide LegalPieces, SpelledAll, NumberRead, NumberSpelling, InQuotes, AtElement;
    if n == 0 {
      ElementAtEnd(c, name, s[..p]);
    } else if t.Num? {
      NumeralCut(c, name, s, p, t, n);
    } else if t.Str? {
      QuotedCut(c, name, s, p, t.ps, n);
    } else {
      WordCut(c, name, s, p, t, n);
    }
  }

  lemma ElementAtEnd(c: Limits, name: Option<string>, s: string)
    ensures AtElement(c, name, s, |s|) == Bad(Incomplete)
  {
  }

  // ------------------------------------------------------------------------- items

  /** A name or colon that breaks off, or the white space behind. */
  lemma NameCut(c: Limits, s: string, p: nat, n: Name, m: nat)
    requires LegalNamePart(c, n) && At(s, p, NamePart(Some(n))) && 0 < m <= |NamePart(Some(n))|
    ensures p + m <= |s| && AtMember(c, s[..p + m], p) == Bad(Incomplete)
  {
    hide At, DecodeString, AtElement, SpelledAll, LegalPieces, Blank, SkipSpace, InQuotes, NamePart, ReadAll;
    NameStarts(s, p, n);
    AtIsSlice(s, p, NamePart(Some(n)));
    var t := s[..p + m];
    var end := p + |InQuotes(n.ps)|;
    var colon := end + |n.before|;
    assert p < |t|;
    if p + m < end {
      StringCut(s, p, p + m, n.ps, c.nameLen);
    } else {
      AtCut(s, p, InQuotes(n.ps), p + m);
      QuotedDecodes(t, p, c.nameLen, n.ps);
      ColonIsNoSpace(s, colon);
      SkipGap(s, end, n.before);
      SkipCut(s, end, p + m);
      if p + m > colon {
        BehindColonCut(s, colon + 1, n.behind, p + m);
        ElementAtEnd(c, Some(CStr(ReadAll(n.ps))), t);
      }
    }
  }

  lemma ColonIsNoSpace(s: string, p: nat)
    ensures p < |s| && s[p] == ':' ==> !IsSpace(s[p])
  {
  }

  lemma BehindColonCut(s: string, p: nat, gap: string, n: nat)
    requires Blank(gap) && At(s, p, gap) && p <= n <= p + |gap|
    ensures n <= |s| && SkipSpace(s[..n], p) == n
  {
    hide BlankChar, IsSpace, At;
    AtEach(s, p, gap);
    assert p + |gap| <= |s| by { AtIsSlice(s, p, gap); }
    forall i | p <= i < n
      ensures IsSpace(s[..n][i])
    {
      BlankIsSpace(gap[i - p]);
    }
    SkipExactly(s[..n], p, n);
  }

  lemma LoopAtEnd(c: Limits, inObject: bool, s: string, p: nat)
    requires p <= |s| && SkipSpace(s, p) == |s|
    ensures AtLoop(c, inObject, s, p) == Bad(Incomplete)
  {
  }

  /** The body of an item that breaks off. */
  lemma BodyCut(c: Limits, k: Control, s: string, p: nat, i: Item, m: nat)
    requires LegalItem(c, k, i) && !k.Element? && At(s, p, Body(i))
    requires m < |NamePart(i.name)| || Breaks(i.lexeme, m - |NamePart(i.name)|)
    ensures p + m <= |s| && AtLoop(c, Top(k), s[..p + m], p) == Bad(BodyStatus(i, m))
  {
    hide At, AtElement, LegalLexeme, LegalPieces, ReadAll, AtMember, InQuotes, CStr, LexemeText, Breaks, BreakStatus;
    var q := p + |NamePart(i.name)|;
    AtConcat(s, p, NamePart(i.name), LexemeText(i.lexeme));
    LexemeStarts(c, s, q, i.lexeme);
    assert p + m <= |s| by {
      AtIsSlice(s, p, Body(i));
      BreaksInside(i.lexeme, m - |NamePart(i.name)|);
    }
    if m == 0 {
      NothingSkipped(s[..p]);
      LoopAtEnd(c, Top(k), s[..p], p);
      BreaksAtOnce(i.lexeme);
    } else if i.name.Some? {
      NameStarts(s, p, i.name.value);
      assert s[..p + m][p] == '\"';
      QuoteIsNoSpace(s[..p + m], p);
      MemberCut(c, s, p, i.name.value, i.lexeme, m);
    } else if i.lexeme.Closes? {
      ClosesWhole(i.lexeme, m);
      assert false;
    } else {
      SkipNothing(s[..p + m], p);
      LexemeCut(c, None, s, p, i.lexeme, m);
    }
  }

  lemma BreaksInside(t: Lexeme, m: int)
    ensures m >= 0 && Breaks(t, m) ==> m <= |LexemeText(t)|
  {
  }

  lemma ClosesWhole(t: Lexeme, m: nat)
    requires t.Closes? && m > 0
    ensures !Breaks(t, m)
  {
  }

  lemma BreaksAtOnce(t: Lexeme)
    ensures BreakStatus(t, 0) == Incomplete
  {
  }

  function BodyStatus(i: Item, m: nat): Failure {
    if m < |NamePart(i.name)| then Incomplete else BreakStatus(i.lexeme, m - |NamePart(i.name)|)
  }

  lemma NothingSkipped(s: string)
    ensures SkipSpace(s, |s|) == |s|
  {
  }

  lemma QuoteIsNoSpace(s: string, p: nat)
    requires p < |s| && s[p] == '\"'
    ensures SkipSpace(s, p) == p
  {
  }

  /** A member that breaks off in its name or in its element. */
  lemma MemberCut(c: Limits, s: string, p: nat, n: Name, t: Lexeme, m: nat)
    requires LegalNamePart(c, n) && LegalLexeme(c, t) && !t.Closes?
    requires At(s, p, NamePart(Some(n))) && At(s, p + |NamePart(Some(n))|, LexemeText(t))
    requires m > 0 && (m < |NamePart(Some(n))| || Breaks(t, m - |NamePart(Some(n))|))
    ensures p + m <= |s| && p < |s[..p + m]|
    ensures AtMember(c, s[..p + m], p) ==
            Bad(if m < |NamePart(Some(n))| then Incomplete else BreakStatus(t, m - |NamePart(Some(n))|))
  {
    hide At, AtElement, LegalLexeme, LegalPieces, ReadAll, AtMember, InQuotes, CStr, LexemeText, NamePart, Breaks,
         BreakStatus, SpelledAll, Blank;
    var q := p + |NamePart(Some(n))|;
    if m <= |NamePart(Some(n))| {
      NameCut(c, s, p, n, m);
      BreaksAtOnce(t);
    } else {
      LexemeStarts(c, s, q, t);
      LexemeCut(c, Some(CStr(ReadAll(n.ps))), s, q, t, m - |NamePart(Some(n))|);
      AtCut(s, p, NamePart(Some(n)), p + m);
      assert s[..p + m][q] == s[q];
      NameIsRead(c, s[..p + m], p, n);
    }
  }

  /** The item breaks off after m characters, or it is a number that nothing follows. */
  predicate ItemBreaks(i: Item, m: nat) {
    m < |TextOfItem(i)| || (i.lexeme.Num? && m == |TextOfItem(i)|)
  }

  /** InvalidCharacter exactly behind the minus sign of a number. */
  function ItemStatus(i: Item, m: nat): Failure {
    var before := |TextOfItem(i)| - |LexemeText(i.lexeme)|;
    if i.lexeme.Num? && i.lexeme.negative && m == before + 1 then InvalidCharacter else Incomplete
  }

  lemma Lengths(i: Item)
    ensures |TextOfItem(i)| == |i.gap| + |CommaPart(i.comma)| + |NamePart(i.name)| + |LexemeText(i.lexeme)|
    ensures |Body(i)| == |NamePart(i.name)| + |LexemeText(i.lexeme)|
  {
    hide CommaPart, NamePart, LexemeText;
  }

  /** Breaks in the white space before a body, its comma included, or in the body. */
  lemma ItemCut(c: Limits, k: Control, s: string, p: nat, i: Item, m: nat)
    requires p <= |s| && LegalItem(c, k, i) && At(s, p, TextOfItem(i)) && ItemBreaks(i, m)
    ensures Running(k) && p + m <= |s| && Next(c, k, s[..p + m], p) == Bad(ItemStatus(i, m))
  {
    hide At, AtLoop, AtElement, Blank, LegalLexeme, LegalNamePart, SkipSpace, IsSpace, LexemeText, NamePart,
         CommaPart, TextOfItem, Body;
    ItemParts(s, p, i);
    Lengths(i);
    NoCommaPart();
    assert p + |TextOfItem(i)| <= |s| by { AtIsSlice(s, p, TextOfItem(i)); }
    var t := s[..p + m];
    if m <= |i.gap| {
      BehindColonCut(s, p, i.gap, p + m);
      LexemeSome(c, i.lexeme);
      GapCut(c, k, t, p);
    } else {
      AtCut(s, p, i.gap, p + m);
      match k
      case Element(name, _) => RootCut(c, k, s, p, i, m);
      case Loop(_) =>
        var b := p + |i.gap|;
        BodyCut(c, k, s, b, i, m - |i.gap|);
        BodyBegins(c, k, s, b, i);
        assert t[b] == s[b];
        LoopBehindGap(c, Top(k), t, p, i.gap);
      case After(_) => AfterCut(c, k, s, p, i, m);
    }
  }

  lemma LexemeSome(c: Limits, t: Lexeme)
    requires LegalLexeme(c, t)
    ensures |LexemeText(t)| >= 1
  {
  }

  lemma GapCut(c: Limits, k: Control, t: string, p: nat)
    requires Running(k) && p <= |t| && SkipSpace(t, p) == |t|
    ensures Next(c, k, t, p) == Bad(Incomplete)
  {
  }

  lemma BodyBegins(c: Limits, k: Control, s: string, p: nat, i: Item)
    requires LegalItem(c, k, i) && At(s, p, Body(i))
    ensures p < |s| && !IsSpace(s[p]) && s[p] != ','
  {
    hide LegalLexeme, LegalNamePart, At, InQuotes, LexemeText;
    AtConcat(s, p, NamePart(i.name), LexemeText(i.lexeme));
    LexemeStarts(c, s, p + |NamePart(i.name)|, i.lexeme);
    if i.name.Some? {
      NameStarts(s, p, i.name.value);
    }
  }

  lemma RootCut(c: Limits, k: Control, s: string, p: nat, i: Item, m: nat)
    requires k.Element? && LegalItem(c, k, i) && At(s, p, TextOfItem(i)) && ItemBreaks(i, m) && m > |i.gap|
    ensures p + m <= |s| && Next(c, k, s[..p + m], p) == Bad(ItemStatus(i, m))
  {
    hide At, AtElement, Blank, LegalLexeme, LegalNamePart, LexemeText, CommaPart;
    ItemParts(s, p, i);
    Lengths(i);
    NoCommaPart();
    var b := p + |i.gap|;
    assert Body(i) == LexemeText(i.lexeme);
    LexemeCut(c, k.name, s, b, i.lexeme, m - |i.gap|);
    LexemeStarts(c, s, b, i.lexeme);
    AtCut(s, p, i.gap, p + m);
    assert s[..p + m][b] == s[b];
    ElementBehindGap(c, k.name, s[..p + m], p, i.gap);
  }

  lemma AfterCut(c: Limits, k: Control, s: string, p: nat, i: Item, m: nat)
    requires k.After? && LegalItem(c, k, i) && At(s, p, TextOfItem(i)) && ItemBreaks(i, m) && m > |i.gap|
    ensures p + m <= |s| && Next(c, k, s[..p + m], p) == Bad(ItemStatus(i, m))
  {
    hide At, AtLoop, Blank, LegalLexeme, LegalNamePart, LexemeText, NamePart, CommaPart, SkipSpace, IsSpace,
         TextOfItem, Body, Breaks;
    ItemParts(s, p, i);
    Lengths(i);
    assert p + |TextOfItem(i)| <= |s| by { AtIsSlice(s, p, TextOfItem(i)); }
    LexemeSome(c, i.lexeme);
    var t := s[..p + m];
    var q := p + |i.gap|;
    assert s[q] == ',' <==> i.comma.Some? by { CommaOrBody(c, k, s, q, i); }
    AtCut(s, p, i.gap, p + m);
    assert t[q] == s[q] && !IsSpace(t[q]) by { CommaOrBody(c, k, s, q, i); }
    SkipGap(t, p, i.gap);
    if i.comma.None? {
      NoCommaPart();
      BodyCutStatus(c, k, s, q, i, m - |i.gap|);
    } else {
      CommaCut(c, k, s, q, i, m - |i.gap|);
    }
  }

  /** What stands behind the white space: the comma or the body. */
  lemma CommaOrBody(c: Limits, k: Control, s: string, q: nat, i: Item)
    requires LegalItem(c, k, i) && At(s, q, CommaPart(i.comma)) && At(s, q + |CommaPart(i.comma)|, Body(i))
    ensures q < |s| && !IsSpace(s[q]) && (s[q] == ',' <==> i.comma.Some?)
  {
    hide At, LegalLexeme, LegalNamePart, Body, CommaPart;
    BodyBegins(c, k, s, q + |CommaPart(i.comma)|, i);
    if i.comma.Some? {
      CommaParts(s, q, i.comma.value);
    } else {
      NoCommaPart();
    }
  }

  /** Breaks behind a comma. */
  lemma CommaCut(c: Limits, k: Control, s: string, q: nat, i: Item, m: nat)
    requires LegalItem(c, k, i) && k.After? && i.comma.Some? && m > 0
    requires At(s, q, CommaPart(i.comma)) && At(s, q + |CommaPart(i.comma)|, Body(i))
    requires var n := m - |CommaPart(i.comma)|; n < |Body(i)| || (i.lexeme.Num? && n == |Body(i)|)
    ensures q + m <= |s| && q < |s[..q + m]|
    ensures AtLoop(c, Top(k), s[..q + m], q + 1) ==
            Bad(if i.lexeme.Num? && i.lexeme.negative && m == |CommaPart(i.comma)| + |NamePart(i.name)| + 1
                then InvalidCharacter else Incomplete)
  {
    hide At, AtLoop, Blank, LegalLexeme, LegalNamePart, LexemeText, NamePart, CommaPart, SkipSpace, IsSpace, Body;
    var gap := i.comma.value;
    var b := q + |CommaPart(i.comma)|;
    CommaParts(s, q, gap);
    CommaLength(gap);
    BodyBegins(c, k, s, b, i);
    assert b + |Body(i)| <= |s| by { AtIsSlice(s, b, Body(i)); }
    var t := s[..q + m];
    if q + m <= b {
      BehindColonCut(s, q + 1, gap, q + m);
      LoopAtEnd(c, Top(k), t, q + 1);
    } else {
      BodyCutStatus(c, k, s, b, i, q + m - b);
      AtCut(s, q + 1, gap, q + m);
      assert t[b] == s[b];
      LoopBehindGap(c, Top(k), t, q + 1, gap);
    }
  }

  lemma BodyCutStatus(c: Limits, k: Control, s: string, p: nat, i: Item, m: nat)
    requires LegalItem(c, k, i) && !k.Element? && At(s, p, Body(i))
    requires m < |Body(i)| || (i.lexeme.Num? && m == |Body(i)|)
    ensures p + m <= |s|
    ensures AtLoop(c, Top(k), s[..p + m], p) ==
            Bad(if i.lexeme.Num? && i.lexeme.negative && m == |NamePart(i.name)| + 1 then InvalidCharacter
                else Incomplete)
  {
    hide At, AtLoop, LegalLexeme, LegalNamePart, LexemeText, NamePart;
    BodyCut(c, k, s, p, i, m);
  }

  // --------------------------------------------------------------------- documents

  lemma RestIsLonger(items: seq<Item>, n: nat)
    requires n < |TextOf(items)|
    ensures items != [] && (!ItemBreaks(items[0], n) ==> 0 <= n - |TextOfItem(items[0])| < |TextOf(items[1..])|)
  {
    hide TextOfItem;
  }

  /** The item in which a text of n characters breaks off, and after how many of its
      characters; a number that ends there counts, since it might go on. */
  function CutAt(items: seq<Item>, n: nat): (r: (nat, nat))
    requires n < |TextOf(items)|
    ensures r.0 < |items|
    decreases |items|
  {
    RestIsLonger(items, n);
    if ItemBreaks(items[0], n) then (0, n)
    else
      var r := CutAt(items[1..], n - |TextOfItem(items[0])|);
      (r.0 + 1, r.1)
  }

  lemma {:induction false} TextCut(c: Limits, k: Control, s: string, p: nat, fired: seq<Event>, items: seq<Item>,
                                   n: nat)
    requires p <= |s| && Spelling(c, k, s, p, items) && n < |TextOf(items)|
    ensures p + n <= |s|
    ensures var (m, offset) := CutAt(items, n);
            var r := Run(AlwaysOk, c, k, Reading(s[..p + n], p, fired));
            && r.status == ItemStatus(items[m], offset)
            && r.dec.fired == fired + EventsOf(c, k, items)[..m]
    decreases |items|
  {
    hide Next, At, TextOfItem, ItemEvent, LegalItem, Delimited, Advance, Run, ItemStatus, ItemBreaks;
    var i := items[0];
    assert LegalItem(c, k, i);
    FirstItem(c, k, s, p, items);
    assert p + |TextOf(items)| <= |s| by { AtIsSlice(s, p, TextOf(items)); }
    var t := s[..p + n];
    if ItemBreaks(i, n) {
      ItemCut(c, k, s, p, i, n);
      StepFails(AlwaysOk, c, k, Reading(t, p, fired), ItemStatus(i, n));
      assert fired + EventsOf(c, k, items)[..0] == fired;
    } else {
      var q := p + |TextOfItem(i)|;
      var ev := ItemEvent(c, k, i);
      assert |TextOfItem(i)| <= n && (i.lexeme.Num? ==> |TextOfItem(i)| < n) by { ItemWhole(i, n); }
      AtCut(s, p, TextOfItem(i), p + n);
      if i.lexeme.Num? {
        DelimitedCut(s, q, p + n);
      }
      ItemIsRead(c, k, t, p, i);
      StepFromMemory(c, k, t, p, fired, ev, q);
      TextCut(c, Advance(k, ev), s, q, fired + [ev], items[1..], n - |TextOfItem(i)|);
      var more := EventsOf(c, Advance(k, ev), items[1..]);
      var m := CutAt(items, n).0;
      assert fired + [ev] + more[..m - 1] == fired + ([ev] + more)[..m];
    }
  }

  lemma ItemWhole(i: Item, n: nat)
    requires !ItemBreaks(i, n)
    ensures |TextOfItem(i)| <= n && (i.lexeme.Num? ==> |TextOfItem(i)| < n)
  {
  }

  lemma DelimitedCut(s: string, q: nat, n: nat)
    requires Delimited(s, q) && q < n <= |s|
    ensures Delimited(s[..n], q)
  {
  }

  /** A document that breaks off anywhere is reported as far as it goes: the callbacks are
      those of the items before the break, and the result asks for more, except just behind
      a minus sign, where it reports an invalid character. */
  lemma CutDocument(c: Limits, s: string, items: seq<Item>, n: nat)
    requires Spelling(c, ROOT, s, 0, items) && n < |TextOf(items)|
    ensures n <= |s|
    ensures var (m, offset) := CutAt(items, n);
            && Decode(c, s[..n]).status == ItemStatus(items[m], offset)
            && Decode(c, s[..n]).dec.fired == EventsOf(c, ROOT, items)[..m]
  {
    hide Spelling, Run, TextOf, ItemStatus;
    SpellingIsLegal(c, s, items);
    TextCut(c, ROOT, s, 0, [], items, n);
    assert InMemory(s[..n]) == Reading(s[..n], 0, []);
    var m := CutAt(items, n).0;
    assert [] + EventsOf(c, ROOT, items)[..m] == EventsOf(c, ROOT, items)[..m];
  }
}
