/** What may stand between the quotes of a JSON string (section 7 of RFC 8259), and what
    the decoder makes of it: exactly these spellings are read, and all but surrogate pairs
    are read right. */
module JsonSpelling {
  import opened JsonText
  import opened JsonDecoder
  import opened JsonRoundTrip
  import opened JsonUnicode
  import opened StringConversion

  /** A byte as it is, a backslash and a letter, a \u escape, or a pair of them. */
  datatype Piece =
    | Raw(c: char)
    | Short(letter: char, c: char)
    | Coded(unit: CodeUnit, digits: string)
    | Paired(lead: CodeUnit, leadDigits: string, trail: CodeUnit, trailDigits: string)

  /** The eight escapes of a backslash and a letter. */
  predicate ShortFor(letter: char, c: char) {
    || (letter == '\"' && c == '\"')
    || (letter == '\\' && c == '\\')
    || (letter == '/' && c == '/')
    || (letter == 'b' && c == 0x8 as char)
    || (letter == 'f' && c == 0xC as char)
    || (letter == 'n' && c == 0xA as char)
    || (letter == 'r' && c == 0xD as char)
    || (letter == 't' && c == 0x9 as char)
  }

  /** A raw byte may be anything but a quote or a backslash: the decoder passes control
      characters on. */
  predicate LegalPiece(p: Piece) {
    match p
    case Raw(c) => c != '\"' && c != '\\'
    case Short(letter, c) => ShortFor(letter, c)
    case Coded(unit, digits) => HexSpells(digits, unit) && !(0xD800 <= unit <= 0xDFFF)
    case Paired(lead, leadDigits, trail, trailDigits) =>
      && HexSpells(leadDigits, lead) && 0xD800 <= lead <= 0xDBFF
      && HexSpells(trailDigits, trail) && 0xDC00 <= trail <= 0xDFFF
  }

  predicate LegalPieces(ps: seq<Piece>) {
    forall i :: 0 <= i < |ps| ==> LegalPiece(ps[i])
  }

  function Spelled(p: Piece): string {
    match p
    case Raw(c) => [c]
    case Short(letter, _) => ['\\', letter]
    case Coded(_, digits) => "\\u" + digits
    case Paired(_, leadDigits, _, trailDigits) => "\\u" + leadDigits + ("\\u" + trailDigits)
  }

  /** What the decoder reads: for a pair, 0x10000 too little. */
  function ReadAs(p: Piece): string
    requires LegalPiece(p)
  {
    match p
    case Raw(c) => [c]
    case Short(_, c) => [c]
    case Coded(unit, _) => Utf8(unit)
    case Paired(lead, _, trail, _) => Utf8((lead - 0xD800) * 0x400 + (trail - 0xDC00))
  }

  function SpelledAll(ps: seq<Piece>): string {
    if ps == [] then "" else Spelled(ps[0]) + SpelledAll(ps[1..])
  }

  function ReadAll(ps: seq<Piece>): string
    requires LegalPieces(ps)
  {
    if ps == [] then "" else ReadAs(ps[0]) + ReadAll(ps[1..])
  }

  // ------------------------------------------------------- every legal spelling is read

  lemma TwoAt(buf: string, i: nat, e: string)
    requires |e| >= 2 && At(buf, i, e)
    ensures buf[i] == e[0] && buf[i + 1] == e[1]
  {
    assert buf[i] == buf[i..i + |e|][0] && buf[i + 1] == buf[i..i + |e|][1];
  }

  lemma HexIsPlain(digits: string, u: CodeUnit)
    requires HexSpells(digits, u)
    ensures forall k :: 0 <= k < 4 ==> digits[k] != '\"' && digits[k] != '\\'
  {
  }

  /** The search for the closing quote passes over these bytes one by one. */
  lemma {:induction false} ScanPlain(buf: string, i: nat, n: nat)
    requires i + n <= |buf| && forall k :: i <= k < i + n ==> buf[k] != '\"' && buf[k] != '\\'
    ensures ScanQuote(buf, i) == ScanQuote(buf, i + n)
    decreases n
  {
    if n > 0 {
      ScanPlain(buf, i + 1, n - 1);
    }
  }

  lemma ScanEscape(buf: string, i: nat, digits: string, u: CodeUnit)
    requires HexSpells(digits, u) && At(buf, i, "\\u" + digits)
    ensures ScanQuote(buf, i) == ScanQuote(buf, i + 6)
  {
    hide HexSpells;
    assert |digits| == 4 by { FourDigits(digits, u); }
    EscapeAt(buf, i, digits);
    HexIsPlain(digits, u);
    assert forall k :: i + 2 <= k < i + 6 ==> buf[k] == buf[i + 2..i + 6][k - i - 2];
    ScanPlain(buf, i + 2, 4);
  }

  lemma FourDigits(digits: string, u: CodeUnit)
    requires HexSpells(digits, u)
    ensures |digits| == 4
  {
  }

  lemma ScanPiece(buf: string, i: nat, p: Piece)
    requires LegalPiece(p) && At(buf, i, Spelled(p))
    ensures ScanQuote(buf, i) == ScanQuote(buf, i + |Spelled(p)|)
  {
    hide HexSpells, At;
    match p
    case Raw(c) => AtHead(buf, i, [c]);
    case Short(letter, _) => TwoAt(buf, i, ['\\', letter]);
    case Coded(unit, digits) =>
      FourDigits(digits, unit);
      ScanEscape(buf, i, digits, unit);
    case Paired(lead, leadDigits, trail, trailDigits) =>
      FourDigits(leadDigits, lead);
      FourDigits(trailDigits, trail);
      AtConcat(buf, i, "\\u" + leadDigits, "\\u" + trailDigits);
      ScanEscape(buf, i, leadDigits, lead);
      ScanEscape(buf, i + 6, trailDigits, trail);
  }

  lemma ShortIsSimple(letter: char, c: char)
    ensures ShortFor(letter, c) <==> SimpleEscape(letter) && SimpleEscapeValue(letter) == c
  {
  }

  lemma EscapeUnescapes(buf: string, i: nat, q: nat, u: Unit)
    requires i + 2 <= q < |buf| && buf[i] == '\\' && buf[i + 1] == 'u' && UnicodeEscape(buf, i, q) == u && u.Unit?
    ensures Unescape(buf, i, q) == Prepend(u.text, Unescape(buf, i + u.length, q))
  {
    hide UnicodeEscape;
  }

  lemma UnescapePiece(buf: string, i: nat, q: nat, p: Piece)
    requires LegalPiece(p) && At(buf, i, Spelled(p)) && i + |Spelled(p)| <= q < |buf|
    ensures Unescape(buf, i, q) == Prepend(ReadAs(p), Unescape(buf, i + |Spelled(p)|, q))
  {
    hide HexSpells, At, Utf8, UnicodeEscape, Hex4, FromUtf8;
    match p
    case Raw(c) => AtHead(buf, i, [c]);
    case Short(letter, c) =>
      TwoAt(buf, i, ['\\', letter]);
      ShortIsSimple(letter, c);
    case Coded(unit, digits) =>
      FourDigits(digits, unit);
      EscapeAt(buf, i, digits);
      PlaneEscapeDecodes(buf, i, q, unit, digits);
      EscapeUnescapes(buf, i, q, Unit(Utf8(unit), 6));
    case Paired(lead, leadDigits, trail, trailDigits) =>
      FourDigits(leadDigits, lead);
      FourDigits(trailDigits, trail);
      AtConcat(buf, i, "\\u" + leadDigits, "\\u" + trailDigits);
      EscapeAt(buf, i, leadDigits);
      PairDecodes(buf, i, q, lead, leadDigits, trail, trailDigits);
      EscapeUnescapes(buf, i, q, UnicodeEscape(buf, i, q));
  }

  lemma {:induction false} PiecesAreRead(buf: string, i: nat, ps: seq<Piece>)
    requires LegalPieces(ps) && At(buf, i, SpelledAll(ps))
    requires var q := i + |SpelledAll(ps)|; q < |buf| && buf[q] == '\"'
    ensures var q := i + |SpelledAll(ps)|;
            ScanQuote(buf, i) == q && Unescape(buf, i, q) == Text(ReadAll(ps))
    decreases |ps|
  {
    hide At, LegalPiece, Spelled, ReadAs;
    if ps != [] {
      var q := i + |SpelledAll(ps)|;
      var head := Spelled(ps[0]);
      AtConcat(buf, i, head, SpelledAll(ps[1..]));
      ScanPiece(buf, i, ps[0]);
      UnescapePiece(buf, i, q, ps[0]);
      PiecesAreRead(buf, i + |head|, ps[1..]);
    }
  }

  // --------------------------------------------------- and nothing but legal spellings

  /** The first piece of content that the decoder accepts. */
  lemma FirstPiece(buf: string, i: nat, q: nat) returns (p: Piece)
    requires i < q < |buf| && ScanQuote(buf, i) == q && Unescape(buf, i, q).Text?
    ensures LegalPiece(p) && At(buf, i, Spelled(p)) && i + |Spelled(p)| <= q
  {
    hide Utf8, Hex4, HexSpells, FromUtf8;
    var c := buf[i];
    if c != '\\' {
      p := Raw(c);
    } else {
      ScanReaches(buf, i + 2);
      var letter := buf[i + 1];
      if SimpleEscape(letter) {
        p := Short(letter, SimpleEscapeValue(letter));
        ShortIsSimple(letter, SimpleEscapeValue(letter));
      } else {
        p := FirstEscape(buf, i, q);
      }
    }
  }

  lemma ScanReaches(buf: string, i: nat)
    requires i <= |buf| + 1
    ensures i <= ScanQuote(buf, i)
  {
  }

  lemma FirstEscape(buf: string, i: nat, q: nat) returns (p: Piece)
    requires i + 2 <= q < |buf| && buf[i] == '\\' && buf[i + 1] == 'u' && UnicodeEscape(buf, i, q).Unit?
    ensures LegalPiece(p) && At(buf, i, Spelled(p)) && i + |Spelled(p)| <= q
  {
    hide Utf8, Hex4, HexSpells, FromUtf8;
    var lead := Hex4(buf, i + 2);
    HexValue(buf, i + 2, lead);
    assert buf[i..i + 6] == "\\u" + buf[i + 2..i + 6];
    if 0xD800 <= lead <= 0xDBFF {
      var trail := Hex4(buf, i + 8);
      HexValue(buf, i + 8, trail);
      assert buf[i + 6..i + 12] == "\\u" + buf[i + 8..i + 12];
      assert buf[i..i + 12] == buf[i..i + 6] + buf[i + 6..i + 12];
      p := Paired(lead, buf[i + 2..i + 6], trail, buf[i + 8..i + 12]);
    } else {
      p := Coded(lead, buf[i + 2..i + 6]);
    }
  }

  lemma PrependIsText(head: string, tail: Unescaped)
    ensures Prepend(head, tail).Text? <==> tail.Text?
  {
  }

  lemma {:induction false} ContentIsPieces(buf: string, i: nat, q: nat) returns (ps: seq<Piece>)
    requires i <= q < |buf| && ScanQuote(buf, i) == q && Unescape(buf, i, q).Text?
    ensures LegalPieces(ps) && At(buf, i, SpelledAll(ps)) && q == i + |SpelledAll(ps)|
    decreases q - i
  {
    hide LegalPiece, Spelled, ReadAs, Unescape, ScanQuote;
    ps := [];
    if i < q {
      var p := FirstPiece(buf, i, q);
      var n := |Spelled(p)|;
      ScanPiece(buf, i, p);
      UnescapePiece(buf, i, q, p);
      PrependIsText(ReadAs(p), Unescape(buf, i + n, q));
      SpelledSome(p);
      var more := ContentIsPieces(buf, i + n, q);
      ps := [p] + more;
      assert ps[1..] == more;
      AtConcat(buf, i, Spelled(p), SpelledAll(more));
    }
  }

  lemma SpelledSome(p: Piece)
    ensures |Spelled(p)| >= 1
  {
  }

  function InQuotes(ps: seq<Piece>): string {
    "\"" + SpelledAll(ps) + "\""
  }

  /** A string is decoded if and only if it is quoted, consists of legal spellings and fits
      the destination; the value is what these are read as, and the cursor ends behind the
      closing quote. */
  lemma DecodesExactly(buf: string, p: nat, dstLen: int, value: string, end: nat)
    requires p < |buf|
    ensures DecodeString(buf, p, dstLen) == StringOk(value, end) <==>
            exists ps :: LegalPieces(ps) && At(buf, p, InQuotes(ps)) && |SpelledAll(ps)| < dstLen
                         && value == ReadAll(ps) && end == p + |InQuotes(ps)|
  {
    if DecodeString(buf, p, dstLen) == StringOk(value, end) {
      var ps := DecodedIsQuoted(buf, p, dstLen);
    }
    forall ps | LegalPieces(ps) && At(buf, p, InQuotes(ps)) && |SpelledAll(ps)| < dstLen
      ensures DecodeString(buf, p, dstLen) == StringOk(ReadAll(ps), p + |InQuotes(ps)|)
    {
      QuotedDecodes(buf, p, dstLen, ps);
    }
  }

  lemma QuotedParts(buf: string, p: nat, ps: seq<Piece>)
    ensures At(buf, p, InQuotes(ps)) <==>
            && p < |buf| && buf[p] == '\"' && At(buf, p + 1, SpelledAll(ps))
            && p + 1 + |SpelledAll(ps)| < |buf| && buf[p + 1 + |SpelledAll(ps)|] == '\"'
  {
    hide At, SpelledAll;
    var content := SpelledAll(ps);
    assert InQuotes(ps) == "\"" + (content + "\"");
    AtConcat(buf, p, "\"", content + "\"");
    AtConcat(buf, p + 1, content, "\"");
    QuoteAt(buf, p);
    QuoteAt(buf, p + 1 + |content|);
  }

  lemma QuoteAt(buf: string, p: nat)
    ensures At(buf, p, "\"") <==> p < |buf| && buf[p] == '\"'
  {
  }

  lemma QuotedDecodes(buf: string, p: nat, dstLen: int, ps: seq<Piece>)
    requires LegalPieces(ps) && At(buf, p, InQuotes(ps)) && |SpelledAll(ps)| < dstLen
    ensures p < |buf| && DecodeString(buf, p, dstLen) == StringOk(ReadAll(ps), p + |InQuotes(ps)|)
  {
    hide At, LegalPieces, SpelledAll, ReadAll, ScanQuote, Unescape;
    QuotedParts(buf, p, ps);
    PiecesAreRead(buf, p + 1, ps);
  }

  lemma DecodedIsQuoted(buf: string, p: nat, dstLen: int) returns (ps: seq<Piece>)
    requires p < |buf| && DecodeString(buf, p, dstLen).StringOk?
    ensures LegalPieces(ps) && At(buf, p, InQuotes(ps)) && |SpelledAll(ps)| < dstLen
    ensures DecodeString(buf, p, dstLen) == StringOk(ReadAll(ps), p + |InQuotes(ps)|)
  {
    hide At, LegalPieces, SpelledAll, ReadAll, ScanQuote, Unescape;
    var q := ScanQuote(buf, p + 1);
    ps := ContentIsPieces(buf, p + 1, q);
    QuotedParts(buf, p, ps);
    QuotedDecodes(buf, p, dstLen, ps);
  }

  // ------------------------------------------------ the characters of a legal string

  /** A character as section 7 of RFC 8259 lets it be spelled: unescaped, with one of the
      eight short escapes, or with one or two \u escapes. */
  predicate Spells(ps: seq<Piece>, c: Scalar) {
    || (c >= 0x20 && c != 0x22 && c != 0x5C && ps == RawPieces(Utf8(c)))
    || (c < 0x80 && |ps| == 1 && ps[0].Short? && ps[0].c == c as char && ShortFor(ps[0].letter, c as char))
    || (c <= 0xFFFF && |ps| == 1 && ps[0].Coded? && ps[0].unit == c && HexSpells(ps[0].digits, c))
    || IsPair(ps, c)
  }

  predicate IsPair(ps: seq<Piece>, c: Scalar) {
    && c >= 0x10000 && |ps| == 1 && ps[0].Paired?
    && ps[0].lead == Utf16(c)[0] && HexSpells(ps[0].leadDigits, Utf16(c)[0])
    && ps[0].trail == Utf16(c)[1] && HexSpells(ps[0].trailDigits, Utf16(c)[1])
  }

  function RawPieces(s: string): seq<Piece> {
    seq(|s|, i requires 0 <= i < |s| => Raw(s[i]))
  }

  /** A character and the pieces that spell it. */
  datatype Letter = Letter(c: Scalar, ps: seq<Piece>)

  predicate LegalLetters(ls: seq<Letter>) {
    forall i :: 0 <= i < |ls| ==> Spells(ls[i].ps, ls[i].c)
  }

  function PiecesOf(ls: seq<Letter>): seq<Piece> {
    if ls == [] then [] else ls[0].ps + PiecesOf(ls[1..])
  }

  /** The text meant, in UTF-8. */
  function Meant(ls: seq<Letter>): string {
    if ls == [] then "" else Utf8(ls[0].c) + Meant(ls[1..])
  }

  /** The text read. */
  function Taken(ls: seq<Letter>): string {
    if ls == [] then ""
    else Utf8(if IsPair(ls[0].ps, ls[0].c) then ls[0].c - 0x10000 else ls[0].c) + Taken(ls[1..])
  }

  lemma {:induction false} ReadConcat(a: seq<Piece>, b: seq<Piece>)
    requires LegalPieces(a) && LegalPieces(b)
    ensures LegalPieces(a + b) && ReadAll(a + b) == ReadAll(a) + ReadAll(b)
    decreases |a|
  {
    hide LegalPiece, ReadAs;
    if a == [] {
      assert a + b == b;
    } else {
      assert (a + b)[0] == a[0] && (a + b)[1..] == a[1..] + b;
      ReadConcat(a[1..], b);
    }
  }

  lemma {:induction false} RawIsItself(s: string)
    requires '\"' !in s && '\\' !in s
    ensures LegalPieces(RawPieces(s)) && ReadAll(RawPieces(s)) == s
    decreases |s|
  {
    if s != "" {
      assert RawPieces(s)[1..] == RawPieces(s[1..]);
      RawIsItself(s[1..]);
    }
  }

  lemma Utf8Plain(c: nat)
    requires 0x20 <= c <= 0x10FFFF && c != 0x22 && c != 0x5C
    ensures '\"' !in Utf8(c) && '\\' !in Utf8(c)
  {
  }

  lemma LetterRead(l: Letter)
    requires Spells(l.ps, l.c)
    ensures LegalPieces(l.ps)
    ensures ReadAll(l.ps) == Utf8(if IsPair(l.ps, l.c) then l.c - 0x10000 else l.c)
  {
    hide HexSpells, ShortFor;
    var ps, c := l.ps, l.c;
    if ps == RawPieces(Utf8(c)) && c >= 0x20 && c != 0x22 && c != 0x5C {
      Utf8Plain(c);
      RawIsItself(Utf8(c));
      assert ps[0] == Raw(Utf8(c)[0]);
    } else {
      assert ps[1..] == [];
      assert ReadAll(ps) == ReadAs(ps[0]) + "" == ReadAs(ps[0]);
      if IsPair(ps, c) {
        Utf16Inverts(c);
      }
    }
  }

  lemma {:induction false} LettersRead(ls: seq<Letter>)
    requires LegalLetters(ls)
    ensures LegalPieces(PiecesOf(ls)) && ReadAll(PiecesOf(ls)) == Taken(ls)
    decreases |ls|
  {
    hide Spells, IsPair, Utf8, ReadAs, LegalPiece;
    if ls != [] {
      LetterRead(ls[0]);
      LettersRead(ls[1..]);
      ReadConcat(ls[0].ps, PiecesOf(ls[1..]));
    }
  }

  /** UTF-8 is read in one way: what starts alike stands for the same character. */
  lemma Utf8Prefix(a: nat, b: nat, s: string, t: string)
    requires a <= 0x10FFFF && b <= 0x10FFFF && Utf8(a) + s == Utf8(b) + t
    ensures a == b && s == t
  {
    Utf8Inverts(a);
    Utf8Inverts(b);
    var u, v := Utf8(a), Utf8(b);
    assert (u + s)[0] == u[0] && (v + t)[0] == v[0];
    LeadLength(a);
    LeadLength(b);
    assert |u| == |v|;
    assert u == (u + s)[..|u|] == (v + t)[..|v|] == v;
    assert s == (u + s)[|u|..] == (v + t)[|v|..] == t;
  }

  /** The first byte tells the length. */
  lemma LeadLength(c: nat)
    requires c <= 0x10FFFF
    ensures var lead := Byte(Utf8(c), 0);
            |Utf8(c)| == if lead < 0x80 then 1 else if lead < 0xE0 then 2 else if lead < 0xF0 then 3 else 4
  {
  }

  lemma {:induction false} RightWithoutPairs(ls: seq<Letter>)
    ensures Taken(ls) == Meant(ls) <==> forall i :: 0 <= i < |ls| ==> !IsPair(ls[i].ps, ls[i].c)
    decreases |ls|
  {
    hide IsPair, Utf8;
    if ls != [] {
      var l, rest := ls[0], ls[1..];
      RightWithoutPairs(rest);
      var taken := if IsPair(l.ps, l.c) then l.c - 0x10000 else l.c;
      PairIsHigh(l);
      if Taken(ls) == Meant(ls) {
        Utf8Prefix(taken, l.c, Taken(rest), Meant(rest));
      }
      assert forall i :: 0 < i < |ls| ==> ls[i] == rest[i - 1];
    }
  }

  lemma PairIsHigh(l: Letter)
    ensures IsPair(l.ps, l.c) ==> l.c >= 0x10000
  {
  }

  /** Every string of RFC 8259 that fits the destination is decoded, whichever spelling
      each character has, and the decoder stops behind it; the value is the text meant if
      and only if no character is spelled as a surrogate pair. */
  lemma LegalStringDecodes(buf: string, p: nat, dstLen: int, ls: seq<Letter>)
    requires LegalLetters(ls) && At(buf, p, InQuotes(PiecesOf(ls))) && |SpelledAll(PiecesOf(ls))| < dstLen
    ensures p < |buf| && DecodeString(buf, p, dstLen) == StringOk(Taken(ls), p + |InQuotes(PiecesOf(ls))|)
    ensures Taken(ls) == Meant(ls) <==> forall i :: 0 <= i < |ls| ==> !IsPair(ls[i].ps, ls[i].c)
  {
    hide LegalLetters, IsPair, At, ReadAll, LegalPieces, DecodeString;
    LettersRead(ls);
    QuotedDecodes(buf, p, dstLen, PiecesOf(ls));
    RightWithoutPairs(ls);
  }
}
