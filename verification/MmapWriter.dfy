/** The report writer over a memory-mapped buffer: the truncation mode it falls into
    when the buffer runs out, the marker it leaves then, and what a later launch
    recovers from the file. */
module MmapWriter {
  import opened JsonText

  const RESERVE: nat := 128
  const MARKER: string := ",\"__truncated__\":true}"
  const MARKER_LEN: nat := 22

  predicate Structural(c: char) {
    c == '}' || c == ']' || c == '\n' || c == ' ' || c == '\t'
  }

  function Keep(s: string): (r: string)
    ensures |r| <= |s| && forall i :: 0 <= i < |r| ==> Structural(r[i])
  {
    if s == "" then ""
    else
      var n := |s| - 1;
      Keep(s[..n]) + if Structural(s[n]) then [s[n]] else ""
  }

  function Take(s: string, n: nat): string {
    if |s| <= n then s else s[..n]
  }

  /** The bytes written so far. */
  datatype Written = Written(text: string, truncated: bool)

  /** ksfu_writeMmapWriter on a buffer of the given size. */
  function Write(size: nat, w: Written, data: string): Written
    requires size >= RESERVE && |w.text| <= size
  {
    if w.truncated then w.(text := Take(w.text + Keep(data), size - MARKER_LEN))
    else Written(Take(w.text + data, size - RESERVE), |w.text + data| > size - RESERVE)
  }

  ghost predicate Bounded(size: nat, w: Written)
    requires size >= RESERVE
  {
    |w.text| <= if w.truncated then size - MARKER_LEN else size - RESERVE
  }

  function WriteAll(size: nat, chunks: seq<string>): (w: Written)
    requires size >= RESERVE
    ensures Bounded(size, w)
  {
    if chunks == [] then Written("", false)
    else Write(size, WriteAll(size, chunks[..|chunks| - 1]), chunks[|chunks| - 1])
  }

  function Stream(chunks: seq<string>): string {
    if chunks == [] then "" else Stream(chunks[..|chunks| - 1]) + chunks[|chunks| - 1]
  }

  /** What is written after the chunk that overflows the limit. */
  function Behind(limit: nat, chunks: seq<string>): string {
    if chunks == [] then ""
    else
      var init := chunks[..|chunks| - 1];
      if |Stream(init)| <= limit then "" else Behind(limit, init) + chunks[|chunks| - 1]
  }

  lemma {:induction false} KeepConcat(a: string, b: string)
    ensures Keep(a + b) == Keep(a) + Keep(b)
    decreases |b|
  {
    if b == "" {
      assert a + b == a;
    } else {
      var n := |b| - 1;
      assert (a + b)[..|a| + n] == a + b[..n];
      KeepConcat(a, b[..n]);
    }
  }

  lemma TakeMore(s: string, t: string, n: nat)
    ensures Take(Take(s, n) + t, n) == Take(s + t, n)
  {
  }

  lemma NothingBehind(limit: nat, chunks: seq<string>)
    requires |Stream(chunks)| <= limit
    ensures Behind(limit, chunks) == ""
  {
  }

  lemma TakeBehind(a: string, s: string, n: nat)
    ensures Take(a + s, |a| + n) == a + Take(s, n)
  {
  }

  /** Over any sequence of writes: as long as it fits, the buffer is exactly the stream;
      afterwards it is the stream up to the limit, followed by the structural bytes of
      the chunks behind the overflowing one, up to the room kept for the marker. */
  lemma {:induction false} WriterClosedForm(size: nat, chunks: seq<string>)
    requires size >= RESERVE
    ensures var limit := size - RESERVE;
            var w := WriteAll(size, chunks);
            && w.truncated == (|Stream(chunks)| > limit)
            && w.text == Take(Stream(chunks), limit) + Take(Keep(Behind(limit, chunks)), RESERVE - MARKER_LEN)
    decreases |chunks|
  {
    hide Keep, Take, Behind, Stream, WriteAll;
    var limit := size - RESERVE;
    KeepEmpty();
    if chunks == [] {
      NothingWritten(size);
    } else {
      var n := |chunks| - 1;
      var init, last := chunks[..n], chunks[n];
      WriterClosedForm(size, init);
      NothingBehindYet(limit, chunks);
      OneMoreChunk(size, chunks);
      if |Stream(init)| > limit {
        TakeLength(Stream(init), limit);
        WriteBehind(size, Take(Stream(init), limit), Behind(limit, init), last);
        TakeMoreIsSame(Stream(init), last, limit);
      } else {
        NothingBehind(limit, init);
        WriteFits(size, Stream(init), last);
      }
    }
  }

  lemma NothingWritten(size: nat)
    requires size >= RESERVE
    ensures WriteAll(size, []) == Written("", false) && Stream([]) == "" && Behind(size - RESERVE, []) == ""
    ensures Take("", size - RESERVE) + Take("", RESERVE - MARKER_LEN) == ""
  {
  }

  lemma OneMoreChunk(size: nat, chunks: seq<string>)
    requires size >= RESERVE && chunks != []
    ensures var init, last := chunks[..|chunks| - 1], chunks[|chunks| - 1];
            Stream(chunks) == Stream(init) + last && WriteAll(size, chunks) == Write(size, WriteAll(size, init), last)
  {
  }

  lemma TakeMoreIsSame(s: string, t: string, n: nat)
    requires |s| >= n
    ensures Take(s + t, n) == Take(s, n) == s[..n]
  {
    assert (s + t)[..n] == s[..n];
    assert |s| == n ==> s[..n] == s;
    assert |s + t| == n ==> s + t == s;
  }

  /** Up to the overflow nothing is kept behind the limit. */
  lemma WriteFits(size: nat, stream: string, data: string)
    requires size >= RESERVE && |stream| <= size - RESERVE
    ensures var limit := size - RESERVE;
            && Take(stream, limit) + Take("", RESERVE - MARKER_LEN) == stream
            && Write(size, Written(stream, false), data) ==
               Written(Take(stream + data, limit) + Take("", RESERVE - MARKER_LEN), |stream + data| > limit)
  {
    assert stream + "" == stream && Take(stream + data, size - RESERVE) + "" == Take(stream + data, size - RESERVE);
  }

  lemma KeepEmpty()
    ensures Keep("") == ""
  {
  }

  lemma NothingBehindYet(limit: nat, chunks: seq<string>)
    requires chunks != []
    ensures var init := chunks[..|chunks| - 1];
            Behind(limit, chunks) == if |Stream(init)| <= limit then "" else Behind(limit, init) + chunks[|chunks| - 1]
  {
  }

  lemma WriteBehind(size: nat, start: string, later: string, data: string)
    requires size >= RESERVE && |start| == size - RESERVE
    ensures var room := RESERVE - MARKER_LEN;
            var w := Written(start + Take(Keep(later), room), true);
            && |w.text| <= size
            && Write(size, w, data).text == start + Take(Keep(later + data), room)
  {
    var room := RESERVE - MARKER_LEN;
    KeepConcat(later, data);
    TakeMore(Keep(later), Keep(data), room);
    assert start + Take(Keep(later), room) + Keep(data) == start + (Take(Keep(later), room) + Keep(data));
    TakeBehind(start, Take(Keep(later), room) + Keep(data), room);
  }

  // --------------------------------------------------------------- the marker

  /** The position behind the last closing brace, or 0. */
  function LastBrace(s: string): (p: nat)
    ensures p <= |s| && (p > 0 ==> s[p - 1] == '}')
    ensures forall i :: p <= i < |s| ==> s[i] != '}'
  {
    if s == "" then 0 else if s[|s| - 1] == '}' then |s| else LastBrace(s[..|s| - 1])
  }

  /** What applyTruncationMarker makes of the bytes written: the marker takes the place
      of the last brace and of as many bytes behind it as it is long. */
  function Marked(text: string): string {
    var p := LastBrace(text);
    if p == 0 then text
    else text[..p - 1] + MARKER + if p - 1 + MARKER_LEN < |text| then text[p - 1 + MARKER_LEN..] else ""
  }

  /** The marker always fits. */
  lemma MarkerFits(size: nat, chunks: seq<string>)
    requires size >= RESERVE && WriteAll(size, chunks).truncated
    ensures |MARKER| == MARKER_LEN
    ensures |Marked(WriteAll(size, chunks).text)| < size
  {
  }

  lemma {:induction false} BehindIsSuffix(limit: nat, chunks: seq<string>)
    ensures var s, b := Stream(chunks), Behind(limit, chunks);
            && |b| <= |s| && s[|s| - |b|..] == b
            && (|s| > limit ==> |s| - |b| > limit)
    decreases |chunks|
  {
    if chunks != [] {
      BehindIsSuffix(limit, chunks[..|chunks| - 1]);
    }
  }

  function ButLast(s: string): string {
    if s == "" then "" else s[..|s| - 1]
  }

  /** The truncated text with the marker in the place of the stream's last character. */
  function MarkedAtEnd(limit: nat, chunks: seq<string>): string {
    Take(Stream(chunks), limit) + Keep(ButLast(Behind(limit, chunks))) + MARKER
  }

  lemma MarkedAtBrace(text: string)
    ensures Marked(text + "}") == text + MARKER
  {
    var all := text + "}";
    assert LastBrace(all) == |all|;
    assert all[..|all| - 1] == text;
  }

  lemma KeepLast(s: string)
    requires s != "" && s[|s| - 1] == '}'
    ensures Keep(s) == Keep(ButLast(s)) + "}"
  {
  }

  lemma TakeLength(s: string, n: nat)
    ensures |Take(s, n)| == if |s| <= n then |s| else n
    ensures |s| <= n ==> Take(s, n) == s
  {
  }

  lemma MarkedLength(text: string)
    ensures |Marked(text)| <= |text| + MARKER_LEN - 1
  {
    hide LastBrace;
    assert |MARKER| == MARKER_LEN;
  }

  /** Of a truncated stream that ends in a closing brace, the brace that the marker
      replaces is that one, and the marker is the end of the text, if and only if the brace
      lies behind the chunk that overflowed and all the structural bytes behind that chunk
      fit the room that is kept for them. */
  lemma MarkerReplacesCloser(size: nat, chunks: seq<string>)
    requires size >= RESERVE && |Stream(chunks)| > size - RESERVE
    requires Stream(chunks)[|Stream(chunks)| - 1] == '}'
    ensures var behind := Behind(size - RESERVE, chunks);
            Marked(WriteAll(size, chunks).text) == MarkedAtEnd(size - RESERVE, chunks) <==>
            behind != "" && |Keep(behind)| <= RESERVE - MARKER_LEN
  {
    hide LastBrace, Stream, Behind, WriteAll, Keep, Take, Marked, ButLast;
    var limit, room := size - RESERVE, RESERVE - MARKER_LEN;
    var stream, behind := Stream(chunks), Behind(limit, chunks);
    WriterClosedForm(size, chunks);
    var text := WriteAll(size, chunks).text;
    TakeLength(stream, limit);
    TakeLength(Keep(behind), room);
    assert |MARKER| == MARKER_LEN;
    if behind != "" {
      BehindIsSuffix(limit, chunks);
      assert behind[|behind| - 1] == stream[|stream| - 1];
      KeepLast(behind);
      var before := Take(stream, limit) + Keep(ButLast(behind));
      assert Take(stream, limit) + Keep(behind) == before + "}";
      MarkedAtBrace(before);
    }
    MarkedLength(text);
    KeepEmpty();
    assert ButLast("") == "" by { NothingButLast(); }
  }

  lemma NothingButLast()
    ensures ButLast("") == ""
  {
  }

  /** If there is no room for all the structural bytes and no brace among those written,
      the marker lands on earlier content, and the last 84 bytes stay as they were. */
  lemma OldBytesStay(size: nat, chunks: seq<string>)
    requires size >= RESERVE && |Stream(chunks)| > size - RESERVE
    requires var kept := Keep(Behind(size - RESERVE, chunks));
             |kept| > RESERVE - MARKER_LEN && '}' !in kept[..RESERVE - MARKER_LEN]
    ensures var text := WriteAll(size, chunks).text;
            && |Marked(text)| == |text| && |text| >= 84
            && Marked(text)[|text| - 84..] == text[|text| - 84..]
  {
    hide Stream, Behind, WriteAll, Keep;
    WriterClosedForm(size, chunks);
    var limit := size - RESERVE;
    var text := WriteAll(size, chunks).text;
    var kept := Keep(Behind(limit, chunks))[..RESERVE - MARKER_LEN];
    assert |MARKER| == MARKER_LEN;
    assert forall i :: limit <= i < |text| ==> text[i] == kept[i - limit];
    assert LastBrace(text) <= limit;
  }

  // ----------------------------------------------------------------- recovery

  /** A text without the NULs at its end. */
  function Trimmed(s: string): (r: string)
    ensures r <= s && (r != "" ==> r[|r| - 1] != NUL)
    ensures forall i :: |r| <= i < |s| ==> s[i] == NUL
  {
    if s != "" && s[|s| - 1] == NUL then Trimmed(s[..|s| - 1]) else s
  }

  lemma TrimmedIs(s: string, r: string)
    requires r <= s && (r != "" ==> r[|r| - 1] != NUL)
    requires forall i :: |r| <= i < |s| ==> s[i] == NUL
    ensures Trimmed(s) == r
  {
    var t := Trimmed(s);
    assert r != "" ==> s[|r| - 1] == r[|r| - 1];
    assert t != "" ==> s[|t| - 1] == t[|t| - 1];
  }

  /** The file of a crash: the buffer behind the last write, still zero from there on,
      and the byte that ksfu_mmap writes behind it to size the file. */
  function CrashFile(size: nat, text: string): string
    requires |text| <= size
  {
    text + Zeros(size - |text|) + [NUL]
  }

  /** Recovery returns exactly what was written if and only if that does not end in NUL. */
  lemma RecoveryExact(size: nat, text: string)
    requires |text| <= size
    ensures Trimmed(CrashFile(size, text)) == text <==> text == "" || text[|text| - 1] != NUL
  {
    if text == "" || text[|text| - 1] != NUL {
      TrimmedIs(CrashFile(size, text), text);
    }
  }

  /** An untruncated stream is recovered as it was written. */
  lemma StreamRecovered(size: nat, chunks: seq<string>)
    requires size >= RESERVE && |Stream(chunks)| <= size - RESERVE
    requires Stream(chunks) != "" ==> Stream(chunks)[|Stream(chunks)| - 1] != NUL
    ensures Trimmed(CrashFile(size, WriteAll(size, chunks).text)) == Stream(chunks)
  {
    hide Trimmed, CrashFile;
    WriterClosedForm(size, chunks);
    NothingBehind(size - RESERVE, chunks);
    assert Stream(chunks) + "" == Stream(chunks);
    RecoveryExact(size, Stream(chunks));
  }

  /** kfcrash_recoverMmapReport: the length without the zero fill. */
  method ActualLength(data: array<char>) returns (actualLength: nat)
    ensures actualLength <= data.Length && data[..actualLength] == Trimmed(data[..])
  {
    actualLength := data.Length;
    while actualLength > 0 && data[actualLength - 1] == NUL
      invariant 0 <= actualLength <= data.Length
      invariant forall i :: actualLength <= i < data.Length ==> data[i] == NUL
    {
      actualLength := actualLength - 1;
    }
    TrimmedIs(data[..], data[..actualLength]);
  }

  // --------------------------------------------------------------- the writer

  class Writer {
    const buffer: array<char>
    var position: nat
    var truncated: bool

    ghost predicate Valid()
      reads this, buffer
    {
      && buffer.Length >= RESERVE && position <= buffer.Length
      && (forall i :: position <= i < buffer.Length ==> buffer[i] == NUL)
      && Bounded(buffer.Length, Model())
    }

    ghost function Model(): Written
      reads this, buffer
      requires position <= buffer.Length
    {
      Written(buffer[..position], truncated)
    }

    constructor (size: nat)
      requires size >= RESERVE
      ensures Valid() && fresh(buffer) && buffer.Length == size && Model() == WriteAll(size, [])
    {
      buffer := new char[size](_ => NUL);
      position := 0;
      truncated := false;
    }

    /** The mapped file is the buffer and the byte behind it. */
    lemma FileIsBuffer()
      requires Valid()
      ensures buffer[..] + [NUL] == CrashFile(buffer.Length, Model().text)
    {
      assert buffer[..] == buffer[..position] + buffer[position..];
    }

    method WriteMmapWriter(data: string)
      requires Valid()
      modifies this, buffer
      ensures Valid() && Model() == Write(buffer.Length, old(Model()), data)
    {
      if truncated {
        WriteStructural(data);
        return;
      }
      ghost var text := buffer[..position];
      if position + |data| > buffer.Length - RESERVE {
        truncated := true;
        var fit := buffer.Length - RESERVE - position;
        if fit > 0 {
          Append(data[..fit]);
        }
        assert text + data[..fit] == Take(text + data, buffer.Length - RESERVE);
        return;
      }
      Append(data);
    }

    /** memcpy at the position. */
    method Append(data: string)
      requires buffer.Length >= RESERVE && position + |data| <= buffer.Length
      modifies this`position, buffer
      ensures position == old(position) + |data| && buffer[..position] == old(buffer[..position]) + data
      ensures buffer[position..] == old(buffer[..])[position..]
    {
      forall i | 0 <= i < |data| {
        buffer[position + i] := data[i];
      }
      position := position + |data|;
    }

    /** The truncated mode. */
    method WriteStructural(data: string)
      requires Valid() && truncated
      modifies this`position, buffer
      ensures Valid() && Model() == Write(buffer.Length, old(Model()), data)
    {
      hide Keep, Take, Structural;
      ghost var text := buffer[..position];
      ghost var cap := buffer.Length - MARKER_LEN;
      NothingKept(text, data, cap);
      var i := 0;
      while i < |data|
        invariant 0 <= i <= |data| && position <= cap
        invariant buffer[..position] == Take(text + Keep(data[..i]), cap)
        invariant forall k :: position <= k < buffer.Length ==> buffer[k] == NUL
      {
        var c := data[i];
        OneMore(text, data, i, cap);
        if Structural(c) {
          if position >= buffer.Length - MARKER_LEN {
            Saturated(text, data, i, cap);
            return;
          }
          ghost var before := buffer[..position];
          buffer[position] := c;
          position := position + 1;
          assert buffer[..position] == before + [c];
        }
        i := i + 1;
      }
      assert data[..i] == data;
    }

    static lemma NothingKept(text: string, data: string, cap: nat)
      requires |text| <= cap
      ensures text == Take(text + Keep(data[..0]), cap)
    {
      assert text + Keep(data[..0]) == text;
    }

    static lemma OneMore(text: string, data: string, i: nat, cap: nat)
      requires i < |data|
      ensures var now := Take(text + Keep(data[..i]), cap);
              var next := Take(text + Keep(data[..i + 1]), cap);
              if Structural(data[i]) then |now| < cap ==> next == now + [data[i]] else next == now
    {
      assert data[..i + 1][..i] == data[..i];
      if Structural(data[i]) {
        assert text + Keep(data[..i + 1]) == text + Keep(data[..i]) + [data[i]];
      }
    }

    static lemma Saturated(text: string, data: string, i: nat, cap: nat)
      requires i <= |data| && |Take(text + Keep(data[..i]), cap)| >= cap
      ensures Take(text + Keep(data[..i]), cap) == Take(text + Keep(data), cap)
    {
      hide Keep, Take;
      assert data == data[..i] + data[i..];
      KeepConcat(data[..i], data[i..]);
      assert text + Keep(data) == text + Keep(data[..i]) + Keep(data[i..]);
      TakeLength(text + Keep(data[..i]), cap);
      TakeMoreIsSame(text + Keep(data[..i]), Keep(data[i..]), cap);
    }

    /** applyTruncationMarker. */
    method ApplyTruncationMarker()
      requires Valid() && truncated
      modifies this`position, buffer
      ensures var text := old(buffer[..position]);
              && |Marked(text)| <= buffer.Length
              && buffer[..] == Marked(text) + Zeros(buffer.Length - |Marked(text)|)
              && (LastBrace(text) > 0 ==> position == LastBrace(text) - 1 + MARKER_LEN)
    {
      hide LastBrace, Zeros;
      ghost var text := buffer[..position];
      var pos := FindLastBrace();
      if pos == 0 {
        assert buffer[..] == text + Zeros(buffer.Length - |text|);
        return;
      }
      ghost var was := buffer[..];
      position := pos - 1;
      Append(MARKER);
      assert buffer[..] == was[..pos - 1] + MARKER + was[pos - 1 + MARKER_LEN..];
      MarkedBuffer(was, text);
    }

    method FindLastBrace() returns (pos: nat)
      requires position <= buffer.Length
      ensures pos == LastBrace(buffer[..position])
    {
      ghost var text := buffer[..position];
      pos := position;
      assert text[..pos] == text;
      while pos > 0 && buffer[pos - 1] != '}'
        invariant 0 <= pos <= position
        invariant LastBrace(text) == LastBrace(text[..pos])
      {
        assert text[..pos][..pos - 1] == text[..pos - 1];
        pos := pos - 1;
      }
    }

    static lemma MarkedBuffer(was: string, text: string)
      requires |text| + MARKER_LEN <= |was| && LastBrace(text) > 0 && was == text + Zeros(|was| - |text|)
      ensures var p := LastBrace(text);
              && |Marked(text)| <= |was|
              && was[..p - 1] + MARKER + was[p - 1 + MARKER_LEN..] == Marked(text) + Zeros(|was| - |Marked(text)|)
    {
      hide LastBrace;
      var p := LastBrace(text);
      var left := was[..p - 1] + MARKER + was[p - 1 + MARKER_LEN..];
      assert |left| == |was|;
      assert was[..p - 1] == text[..p - 1];
    }
  }
}
