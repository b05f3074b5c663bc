/** What the decoder makes of \u escapes: right inside the Basic Multilingual Plane, and
    0x10000 short for surrogate pairs. */
module JsonUnicode {
  import opened JsonText
  import JsonDecoder
  import StringConversion

  type Scalar = StringConversion.Scalar

  // ---------------------------------------------------------------- references

  function Byte(u: string, i: nat): int
    requires i < |u|
  {
    u[i] as int
  }

  /** The code point a UTF-8 sequence stands for (section 3 of RFC 3629). */
  function FromUtf8(u: string): int
    requires 1 <= |u| <= 4
  {
    if |u| == 1 then Byte(u, 0)
    else if |u| == 2 then (Byte(u, 0) - 0xC0) * 0x40 + (Byte(u, 1) - 0x80)
    else if |u| == 3 then ((Byte(u, 0) - 0xE0) * 0x40 + (Byte(u, 1) - 0x80)) * 0x40 + (Byte(u, 2) - 0x80)
    else (((Byte(u, 0) - 0xF0) * 0x40 + (Byte(u, 1) - 0x80)) * 0x40 + (Byte(u, 2) - 0x80)) * 0x40 + (Byte(u, 3) - 0x80)
  }

  /** The shortest form, each byte but the first a continuation byte: the length is that of the code point's range. */
  function Utf8Length(c: nat): nat {
    if c < 0x80 then 1 else if c < 0x800 then 2 else if c < 0x10000 then 3 else 4
  }

  lemma Utf8Inverts(c: nat)
    requires c <= 0x10FFFF
    ensures FromUtf8(JsonDecoder.Utf8(c)) == c && |JsonDecoder.Utf8(c)| == Utf8Length(c)
    ensures forall i :: 0 < i < |JsonDecoder.Utf8(c)| ==> 0x80 <= Byte(JsonDecoder.Utf8(c), i) < 0xC0
  {
    Sextets(c);
  }

  lemma Sextets(c: nat)
    ensures c == c / 64 * 64 + c % 64
    ensures c / 64 == c / 4096 * 64 + c / 64 % 64
    ensures c / 4096 == c / 262144 * 64 + c / 4096 % 64
  {
    assert c / 64 / 64 == c / 4096;
    assert c / 4096 / 64 == c / 262144;
  }

  /** The code point of one or two UTF-16 units (section 2.2 of RFC 2781). */
  function FromUtf16(u: seq<StringConversion.CodeUnit>): int
    requires 1 <= |u| <= 2
  {
    var lead: int := u[0];
    if |u| == 1 then lead
    else
      var tail: int := u[1];
      0x10000 + (lead - 0xD800) * 0x400 + (tail - 0xDC00)
  }

  lemma Utf16Inverts(c: Scalar)
    ensures FromUtf16(StringConversion.Utf16(c)) == c
    ensures |StringConversion.Utf16(c)| == 2 <==> c >= 0x10000
    ensures var u := StringConversion.Utf16(c);
            |u| == 2 ==> 0xD800 <= u[0] <= 0xDBFF && 0xDC00 <= u[1] <= 0xDFFF
  {
  }

  // ------------------------------------------------------------------- escapes

  function HexDigitChar(d: nat, upper: bool): char
    requires d < 16
  {
    if d < 10 then '0' + d as char else if upper then 'A' + (d - 10) as char else 'a' + (d - 10) as char
  }

  /** A hexadecimal digit of either case. */
  predicate HexDigitIs(c: char, d: nat) {
    d < 16 && (c == HexDigitChar(d, false) || c == HexDigitChar(d, true))
  }

  /** Four hexadecimal digits, each of either case, that stand for a code unit. */
  predicate HexSpells(digits: string, u: StringConversion.CodeUnit) {
    && |digits| == 4
    && HexDigitIs(digits[0], u / 4096) && HexDigitIs(digits[1], u / 256 % 16)
    && HexDigitIs(digits[2], u / 16 % 16) && HexDigitIs(digits[3], u % 16)
  }

  lemma HexDigitInverts(c: char, d: nat)
    ensures JsonDecoder.HexDigit(c) == d <==> HexDigitIs(c, d)
  {
  }

  lemma HexParts(u: StringConversion.CodeUnit, a: nat, b: nat, c: nat, d: nat)
    requires a < 16 && b < 16 && c < 16 && d < 16
    ensures u == ((a * 16 + b) * 16 + c) * 16 + d <==>
            u / 4096 == a && u / 256 % 16 == b && u / 16 % 16 == c && u % 16 == d
  {
    var n: int := u;
    assert n / 16 == n / 256 * 16 + n / 16 % 16;
    assert n / 256 == n / 4096 * 16 + n / 256 % 16;
  }

  lemma HexValue(buf: string, p: nat, u: StringConversion.CodeUnit)
    requires p + 4 <= |buf|
    ensures JsonDecoder.Hex4(buf, p) == u <==> HexSpells(buf[p..p + 4], u)
  {
    hide JsonDecoder.HexDigit, HexDigitIs;
    var a, b := JsonDecoder.HexDigit(buf[p]), JsonDecoder.HexDigit(buf[p + 1]);
    var c, d := JsonDecoder.HexDigit(buf[p + 2]), JsonDecoder.HexDigit(buf[p + 3]);
    HexDigitInverts(buf[p], u / 4096);
    HexDigitInverts(buf[p + 1], u / 256 % 16);
    HexDigitInverts(buf[p + 2], u / 16 % 16);
    HexDigitInverts(buf[p + 3], u % 16);
    if a >= 0 && b >= 0 && c >= 0 && d >= 0 {
      HexParts(u, a, b, c, d);
    }
  }

  lemma EscapeAt(buf: string, i: nat, digits: string)
    requires |digits| == 4 && At(buf, i, "\\u" + digits)
    ensures buf[i] == '\\' && buf[i + 1] == 'u' && buf[i + 2..i + 6] == digits
  {
    var e := "\\u" + digits;
    assert buf[i] == buf[i..i + 6][0] == e[0] && buf[i + 1] == buf[i..i + 6][1] == e[1];
    assert buf[i + 2..i + 6] == buf[i..i + 6][2..] == e[2..] == digits;
  }

  /** An escape of a character of the Basic Multilingual Plane is its UTF-8. */
  lemma PlaneEscapeDecodes(buf: string, i: nat, q: nat, c: Scalar, digits: string)
    requires c <= 0xFFFF && HexSpells(digits, c) && At(buf, i, "\\u" + digits) && i + 6 <= q < |buf|
    ensures JsonDecoder.UnicodeEscape(buf, i, q) == JsonDecoder.Unit(JsonDecoder.Utf8(c), 6)
    ensures FromUtf8(JsonDecoder.Utf8(c)) == c
  {
    hide JsonDecoder.Utf8, JsonDecoder.Hex4, HexDigitIs, FromUtf8;
    EscapeAt(buf, i, digits);
    HexValue(buf, i + 2, c);
    Utf8Inverts(c);
  }

  /** What the decoder makes of a surrogate pair. */
  lemma PairDecodes(buf: string, i: nat, q: nat, lead: StringConversion.CodeUnit, leadDigits: string,
                    trail: StringConversion.CodeUnit, trailDigits: string)
    requires 0xD800 <= lead <= 0xDBFF && 0xDC00 <= trail <= 0xDFFF && i + 12 <= q < |buf|
    requires HexSpells(leadDigits, lead) && HexSpells(trailDigits, trail)
    requires At(buf, i, "\\u" + leadDigits + ("\\u" + trailDigits))
    ensures JsonDecoder.UnicodeEscape(buf, i, q) ==
            JsonDecoder.Unit(JsonDecoder.Utf8((lead - 0xD800) * 0x400 + (trail - 0xDC00)), 12)
  {
    hide JsonDecoder.Utf8, JsonDecoder.Hex4, HexDigitIs;
    AtConcat(buf, i, "\\u" + leadDigits, "\\u" + trailDigits);
    EscapeAt(buf, i, leadDigits);
    EscapeAt(buf, i + 6, trailDigits);
    HexValue(buf, i + 2, lead);
    HexValue(buf, i + 8, trail);
  }

  /** A surrogate pair is decoded to the code point 0x10000 below the one it stands for,
      so it never comes out right. */
  lemma PairEscapeFallsShort(buf: string, i: nat, q: nat, c: Scalar, leadDigits: string, trailDigits: string)
    requires c >= 0x10000 && i + 12 <= q < |buf|
    requires HexSpells(leadDigits, StringConversion.Utf16(c)[0]) && HexSpells(trailDigits, StringConversion.Utf16(c)[1])
    requires At(buf, i, "\\u" + leadDigits + ("\\u" + trailDigits))
    ensures JsonDecoder.UnicodeEscape(buf, i, q) == JsonDecoder.Unit(JsonDecoder.Utf8(c - 0x10000), 12)
    ensures FromUtf8(JsonDecoder.Utf8(c - 0x10000)) == c - 0x10000
    ensures JsonDecoder.Utf8(c - 0x10000) != JsonDecoder.Utf8(c)
  {
    hide JsonDecoder.Utf8, HexSpells, FromUtf8;
    var u := StringConversion.Utf16(c);
    Utf16Inverts(c);
    PairDecodes(buf, i, q, u[0], leadDigits, u[1], trailDigits);
    Utf8Inverts(c);
    Utf8Inverts(c - 0x10000);
  }
}
