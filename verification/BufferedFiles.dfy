/** The buffered file writer and reader. */
module BufferedFiles {
  import opened Numbers
  import opened JsonText

  // ------------------------------------------------------------------- writer

  /** KSBufferedWriter on an open descriptor. */
  class BufferedWriter {
    const buffer: array<char>
    var position: nat
    var file: string
    /** How many writes the descriptor has refused. */
    ghost var refusals: nat

    ghost predicate Valid()
      reads this
    {
      position <= buffer.Length
    }

    /** Everything written so far, in order. */
    ghost function Stream(): string
      reads this, buffer
      requires Valid()
    {
      file + buffer[..position]
    }

    constructor (length: nat)
      ensures Valid() && fresh(buffer) && buffer.Length == length && Stream() == "" && file == ""
    {
      buffer := new char[length](_ => NUL);
      position := 0;
      file := "";
      refusals := 0;
    }

    /** write: takes between one byte and all of them, or refuses with -1. */
    method WriteSome(data: string) returns (taken: int)
      requires data != ""
      modifies this`file, this`refusals
      ensures taken == -1 || 1 <= taken <= |data|
      ensures file == if taken == -1 then old(file) else old(file) + data[..taken]
      ensures refusals == if taken == -1 then old(refusals) + 1 else old(refusals)
    {
      var refused: bool := *;
      if refused {
        refusals := refusals + 1;
        return -1;
      }
      taken :| 1 <= taken <= |data|;
      file := file + data[..taken];
    }

    /** ksfu_writeBytesToFD: all bytes, or, once the descriptor refuses, as many of the
        first ones as it took before. */
    method WriteBytes(data: string) returns (ok: bool)
      modifies this`file, this`refusals
      ensures ok <==> refusals == old(refusals)
      ensures ok ==> file == old(file) + data
      ensures !ok ==> exists n :: 0 <= n < |data| && file == old(file) + data[..n]
    {
      var pos := 0;
      assert data[..0] == "" && file + "" == file;
      while pos < |data|
        invariant 0 <= pos <= |data| && file == old(file) + data[..pos] && refusals == old(refusals)
      {
        var taken := WriteSome(data[pos..]);
        if taken == -1 {
          return false;
        }
        assert data[..pos + taken] == data[..pos] + data[pos..][..taken];
        assert file == old(file) + (data[..pos] + data[pos..][..taken]);
        pos := pos + taken;
      }
      assert data[..pos] == data;
      return true;
    }

    /** Flushing moves bytes without changing the stream.  One that fails keeps the whole
        buffer, though the file may have taken part of it: then the stream has that part
        twice, unless nothing was taken. */
    method Flush() returns (ok: bool)
      requires Valid()
      modifies this`position, this`file, this`refusals
      ensures Valid() && (ok <==> refusals == old(refusals))
      ensures ok ==> position == 0 && Stream() == old(Stream()) == file
      ensures !ok ==> position == old(position) && old(file) <= file && file < old(Stream())
      ensures !ok ==> (Stream() == old(Stream()) <==> file == old(file))
    {
      if position > 0 {
        var written := WriteBytes(buffer[..position]);
        if !written {
          BrokenOff(old(file), file, buffer[..position]);
          return false;
        }
        position := 0;
      }
      assert file + "" == file && Stream() == file;
      return true;
    }

    static lemma BrokenOff(before: string, after: string, data: string)
      requires exists n :: 0 <= n < |data| && after == before + data[..n]
      ensures before <= after && after < before + data
      ensures after + data == before + data <==> after == before
    {
      var n :| 0 <= n < |data| && after == before + data[..n];
      assert before + data == after + data[n..];
      assert |after + data| == |before + data| ==> n == 0;
      assert data[..0] == "" && before + "" == before;
    }

    /** A write that succeeds appends to the stream; it fails if and only if the descriptor
        refuses, and then the file still is a start of what the stream would have been. */
    method Write(data: string) returns (ok: bool)
      requires Valid()
      modifies this, buffer
      ensures Valid() && (ok <==> refusals == old(refusals))
      ensures ok ==> Stream() == old(Stream()) + data
      ensures !ok ==> old(file) <= file && file < old(Stream()) + data && buffer[..] == old(buffer[..])
      ensures !ok ==> |data| > buffer.Length - old(position)
    {
      if |data| > buffer.Length - position {
        var flushed := Flush();
        if !flushed {
          assert old(Stream()) <= old(Stream()) + data;
          return false;
        }
      }
      assert Stream() == old(Stream());
      if |data| > buffer.Length {
        ghost var before := file;
        ok := WriteBytes(data);
        assert before == old(Stream()) && position == 0;
        if ok {
          assert Stream() == file;
        } else {
          BrokenOff(before, file, data);
          assert old(file) <= before;
        }
        return;
      }
      ghost var held := buffer[..position];
      forall i | 0 <= i < |data| {
        buffer[position + i] := data[i];
      }
      position := position + |data|;
      assert buffer[..position] == held + data;
      assert Stream() == old(Stream()) + data;
      return true;
    }
  }

  // ------------------------------------------------------------------- reader

  /** strchr: the first occurrence before a NUL, where the NUL behind the text itself
      is an occurrence of NUL. */
  function StrChr(s: string, ch: char): (p: Option<nat>)
    ensures p.Some? ==> p.value <= |s| && (p.value < |s| ==> s[p.value] == ch)
    ensures p.Some? ==> forall i :: 0 <= i < p.value ==> s[i] != ch
  {
    if s == "" then if ch == NUL then Some(0) else None
    else if s[0] == ch then Some(0)
    else if s[0] == NUL then None
    else
      match StrChr(s[1..], ch)
      case None => None
      case Some(p) => Some(p + 1)
  }

  lemma {:induction false} StrChrMisses(s: string, ch: char)
    requires NUL !in s
    ensures StrChr(s, ch).None? ==> ch !in s
    decreases |s|
  {
    if s != "" {
      assert s == [s[0]] + s[1..];
      StrChrMisses(s[1..], ch);
    }
  }

  lemma {:induction false} StrChrInside(s: string, ch: char)
    ensures ch != NUL && StrChr(s, ch).Some? ==> StrChr(s, ch).value < |s|
    decreases |s|
  {
    if s != "" {
      StrChrInside(s[1..], ch);
    }
  }

  /** KSBufferedReader.  Each read of the descriptor fails, or delivers at least one byte
      unless the file is exhausted. */
  class BufferedReader {
    const buffer: array<char>
    const bufferLength: nat
    var dataStartPos: nat
    var dataEndPos: nat
    /** What the file still holds. */
    var rest: string
    /** How many reads have failed. */
    ghost var failures: nat

    ghost predicate Valid()
      reads this, buffer
    {
      && bufferLength >= 1 && buffer.Length == bufferLength + 1
      && dataStartPos <= dataEndPos <= bufferLength
      && buffer[dataEndPos] == NUL
    }

    /** The bytes not yet delivered. */
    ghost function Ahead(): string
      reads this, buffer
      requires dataStartPos <= dataEndPos <= buffer.Length
    {
      buffer[dataStartPos..dataEndPos] + rest
    }

    constructor (contents: string, readBufferLength: nat)
      requires readBufferLength >= 2
      ensures Valid() && Ahead() == contents && fresh(buffer)
    {
      buffer := new char[readBufferLength](_ => NUL);
      bufferLength := readBufferLength - 1;
      dataStartPos, dataEndPos := 0, 0;
      rest := contents;
      failures := 0;
      new;
      assert Ahead() == contents;
      var _ := FillReadBuffer();
    }

    /** read: -1 if it fails, otherwise between one byte and n bytes, or nothing at the end
        of the file. */
    method ReadSome(n: nat) returns (k: int)
      requires n > 0
      modifies this`failures
      ensures k == -1 || (0 <= k <= n && k <= |rest| && (k == 0 <==> rest == ""))
      ensures failures == if k == -1 then old(failures) + 1 else old(failures)
    {
      var failed: bool := *;
      if failed {
        failures := failures + 1;
        return -1;
      }
      if rest == "" {
        return 0;
      }
      k :| 1 <= k <= n && k <= |rest|;
    }

    /** memmove of the unread bytes to the front. */
    method Slide()
      requires Valid()
      modifies this`dataStartPos, this`dataEndPos, buffer
      ensures Valid() && dataStartPos == 0 && dataEndPos == old(dataEndPos - dataStartPos)
      ensures buffer[0..dataEndPos] == old(buffer[dataStartPos..dataEndPos])
    {
      if dataStartPos > 0 {
        var start := dataStartPos;
        var remaining := dataEndPos - start;
        forall i | 0 <= i < remaining {
          buffer[i] := buffer[start + i];
        }
        dataEndPos := remaining;
        dataStartPos := 0;
        buffer[dataEndPos] := NUL;
      }
    }

    method FillReadBuffer() returns (ok: bool)
      requires Valid()
      modifies this`dataStartPos, this`dataEndPos, this`rest, this`failures, buffer
      ensures Valid() && Ahead() == old(Ahead()) && failures >= old(failures)
      ensures ok <==> failures == old(failures)
      ensures ok && dataStartPos == dataEndPos ==> Ahead() == ""
    {
      ghost var ahead := Ahead();
      Slide();
      assert Ahead() == ahead;
      var bytesToRead := bufferLength - dataEndPos;
      if bytesToRead <= 0 {
        return true;
      }
      var k := ReadSome(bytesToRead);
      if k < 0 {
        return false;
      }
      Receive(k);
      assert k == 0 ==> rest == "";
      return true;
    }

    /** The bytes of a read behind those already in the buffer. */
    method Receive(k: nat)
      requires Valid() && dataStartPos == 0 && dataEndPos + k <= bufferLength && k <= |rest|
      modifies this`dataEndPos, this`rest, buffer
      ensures Valid() && dataEndPos == old(dataEndPos) + k && Ahead() == old(Ahead()) && rest == old(rest)[k..]
    {
      ghost var held := buffer[0..dataEndPos];
      var incoming := rest[..k];
      forall i | 0 <= i < k {
        buffer[dataEndPos + i] := incoming[i];
      }
      assert buffer[0..dataEndPos + k] == held + incoming;
      dataEndPos := dataEndPos + k;
      buffer[dataEndPos] := NUL;
      assert buffer[0..dataEndPos] == held + incoming;
      Rejoined(held, rest, k);
      rest := rest[k..];
    }

    static lemma Rejoined(a: string, b: string, n: nat)
      requires n <= |b|
      ensures (a + b[..n]) + b[n..] == a + b
    {
    }

    /** Copy the next n bytes of the window to dst at `at`. */
    method Deliver(dst: array<char>, at: nat, n: nat)
      requires Valid() && dataStartPos + n <= dataEndPos && at + n <= dst.Length && dst != buffer
      modifies this`dataStartPos, dst
      ensures Valid() && dataStartPos == old(dataStartPos) + n
      ensures dst[..at + n] == old(dst[..at]) + old(Ahead())[..n] && Ahead() == old(Ahead())[n..]
    {
      ghost var before := dst[..at];
      ghost var window := buffer[dataStartPos..dataEndPos];
      Parted(window, rest, n);
      forall i | 0 <= i < n {
        dst[at + i] := buffer[dataStartPos + i];
      }
      assert dst[..at + n] == before + window[..n];
      dataStartPos := dataStartPos + n;
      assert buffer[dataStartPos..dataEndPos] == window[n..];
    }

    static lemma Parted(a: string, b: string, n: nat)
      requires n <= |a|
      ensures (a + b)[..n] == a[..n] && (a + b)[n..] == a[n..] + b
    {
    }

    /** ksfu_readBufferedReader delivers the next bytes of the file, as many as asked for
        or as there are; fewer only if a read fails, and then the others are still ahead. */
    method Read(dst: array<char>, byteCount: nat) returns (bytesConsumed: nat)
      requires Valid() && byteCount <= dst.Length && dst != buffer
      modifies this`dataStartPos, this`dataEndPos, this`rest, this`failures, buffer, dst
      ensures Valid() && bytesConsumed <= Least(byteCount, |old(Ahead())|)
      ensures failures == old(failures) ==> bytesConsumed == Least(byteCount, |old(Ahead())|)
      ensures dst[..bytesConsumed] == old(Ahead())[..bytesConsumed] && Ahead() == old(Ahead())[bytesConsumed..]
    {
      hide Delivered;
      var bytesRemaining: nat := byteCount;
      bytesConsumed := 0;
      ghost var all := Ahead();
      NothingDelivered(dst);
      while bytesRemaining > 0
        invariant Valid() && bytesConsumed + bytesRemaining == byteCount && bytesConsumed <= |all|
        invariant Delivered(all, dst, bytesConsumed) && failures == old(failures)
        decreases bytesRemaining
      {
        if dataEndPos - dataStartPos <= 0 {
          var filled := FillForMore(all, dst, bytesConsumed);
          if !filled {
            break;
          }
          if dataEndPos - dataStartPos <= 0 {
            break;
          }
        }
        var bytesInReader := dataEndPos - dataStartPos;
        var bytesToCopy := if bytesInReader <= bytesRemaining then bytesInReader else bytesRemaining;
        DeliverMore(all, dst, bytesConsumed, bytesToCopy);
        bytesConsumed := bytesConsumed + bytesToCopy;
        bytesRemaining := bytesRemaining - bytesToCopy;
      }
      WasDelivered(all, dst, bytesConsumed);
    }

    lemma WasDelivered(all: string, dst: array<char>, length: nat)
      requires Valid() && Delivered(all, dst, length)
      ensures length <= |all| && length <= dst.Length && dst[..length] == all[..length] && Ahead() == all[length..]
    {
    }

    method DeliverMore(ghost all: string, dst: array<char>, at: nat, n: nat)
      requires Valid() && Delivered(all, dst, at) && dst != buffer
      requires dataStartPos + n <= dataEndPos && at + n <= dst.Length
      modifies this`dataStartPos, dst
      ensures Valid() && dataStartPos == old(dataStartPos) + n && at + n <= |all| && Delivered(all, dst, at + n)
    {
      Deliver(dst, at, n);
      Onward(all, at, n);
    }

    static lemma Onward(all: string, done: nat, n: nat)
      requires done + n <= |all|
      ensures all[..done] + all[done..][..n] == all[..done + n] && all[done..][n..] == all[done + n..]
    {
    }

    /** The search of the window in one turn of the loop below: how much to deliver. */
    method SearchWindow(ch: char, room: nat) returns (isFound: bool, n: nat)
      requires Valid()
      ensures n <= room && n <= dataEndPos - dataStartPos && n <= |Ahead()|
      ensures !isFound ==> n == room || n == dataEndPos - dataStartPos
      ensures dataStartPos < dataEndPos && room > 0 ==> n > 0
      ensures isFound && ch != NUL ==> ch in Ahead() && (n == room || (n > 0 && Ahead()[n - 1] == ch))
      ensures NUL !in Ahead() && n > 0 ==> ch !in Ahead()[..n - 1]
      ensures NUL !in Ahead() && !isFound ==> ch !in Ahead()[..n]
    {
      var bytesInReader := dataEndPos - dataStartPos;
      n := if bytesInReader <= room then bytesInReader else room;
      ghost var window := buffer[dataStartPos..dataEndPos];
      assert window == Ahead()[..bytesInReader];
      var found := StrChr(buffer[dataStartPos..dataEndPos], ch);
      isFound := found.Some?;
      if isFound {
        var bytesToChar := found.value + 1;
        if bytesToChar < n {
          n := bytesToChar;
        }
      }
      WindowSearched(Ahead(), window, n, ch);
      assert n > 0 ==> Ahead()[n - 1] == window[n - 1];
    }

    /** What the search of the window says about the bytes delivered from it. */
    static lemma WindowSearched(ahead: string, window: string, n: nat, ch: char)
      requires window <= ahead && n <= |window|
      requires StrChr(window, ch).Some? ==> n <= StrChr(window, ch).value + 1
      ensures NUL !in ahead && StrChr(window, ch).None? ==> ch !in ahead[..n]
      ensures NUL !in ahead && n > 0 ==> ch !in ahead[..n - 1]
      ensures StrChr(window, ch).Some? && ch != NUL ==> ch in ahead && StrChr(window, ch).value < |window|
    {
      assert forall i :: 0 <= i < |window| ==> ahead[i] == window[i];
      StrChrInside(window, ch);
      if NUL !in ahead {
        assert NUL !in window;
        StrChrMisses(window, ch);
      }
    }

    /** dst starts with the first bytes of `all`, the rest of which is still ahead. */
    ghost predicate Delivered(all: string, dst: array<char>, length: nat)
      reads this, buffer, dst
      requires Valid()
    {
      && length <= |all| && length <= dst.Length
      && dst[..length] == all[..length] && Ahead() == all[length..]
    }

    /** One turn of the loop below. */
    method Turn(ch: char, dst: array<char>, ghost all: string, at: nat, room: nat) returns (isFound: bool, n: nat)
      requires Valid() && dst != buffer && at + room <= dst.Length && Delivered(all, dst, at)
      requires NUL !in all ==> ch !in all[..at]
      modifies this`dataStartPos, dst
      ensures Valid() && n <= room && Delivered(all, dst, at + n) && at + n <= |all|
      ensures !isFound ==> n == room || dataStartPos == dataEndPos
      ensures old(dataStartPos < dataEndPos) && room > 0 ==> n > 0
      ensures isFound && ch != NUL ==> ch in all && (n == room || (n > 0 && dst[at + n - 1] == ch))
      ensures NUL !in all && at + n > 0 ==> ch !in all[..at + n - 1]
      ensures NUL !in all && !isFound ==> ch !in all[..at + n]
    {
      hide StrChr;
      ghost var ahead := Ahead();
      AheadOf(all, at, ch);
      isFound, n := SearchWindow(ch, room);
      Deliver(dst, at, n);
      Onward(all, at, n);
      SearchedFurther(all, at, n, ch);
      assert n > 0 ==> dst[..at + n][at + n - 1] == ahead[n - 1];
    }

    static lemma AheadOf(all: string, at: nat, ch: char)
      requires at <= |all|
      ensures NUL !in all ==> NUL !in all[at..]
      ensures ch in all[at..] ==> ch in all
      ensures ch !in all[..at] && at > 0 ==> ch !in all[..at - 1]
    {
      assert all == all[..at] + all[at..];
      assert at > 0 ==> all[..at - 1] <= all[..at];
    }

    /** ksfu_readBufferedReaderUntilChar delivers consecutive bytes up to the first
        occurrence of the character, never past it.  It answers true as soon as it sees
        the character in its window, even when the room in dst ends before it. */
    method ReadUntilChar(ch: char, dst: array<char>, cap: nat) returns (isFound: bool, length: nat)
      requires Valid() && cap <= dst.Length && dst != buffer
      modifies this`dataStartPos, this`dataEndPos, this`rest, this`failures, buffer, dst
      ensures Valid() && length <= cap && Delivered(old(Ahead()), dst, length)
      ensures isFound && ch != NUL ==> ch in old(Ahead()) && (length == cap || (length > 0 && dst[length - 1] == ch))
      ensures !isFound ==> length == cap || length == |old(Ahead())| || failures > old(failures)
      ensures NUL !in old(Ahead()) && length > 0 ==> ch !in old(Ahead())[..length - 1]
      ensures NUL !in old(Ahead()) && !isFound ==> ch !in old(Ahead())[..length]
    {
      hide Delivered;
      var bytesRemaining: nat := cap;
      length, isFound := 0, false;
      ghost var all := Ahead();
      NothingDelivered(dst);
      while bytesRemaining > 0
        invariant Valid() && length + bytesRemaining == cap && Delivered(all, dst, length) && length <= |all|
        invariant NUL !in all ==> ch !in all[..length]
        invariant NUL !in all && length > 0 ==> ch !in all[..length - 1]
        invariant !isFound && failures >= old(failures)
        decreases bytesRemaining, if dataStartPos == dataEndPos then 1 else 0
      {
        var n;
        isFound, n := Turn(ch, dst, all, length, bytesRemaining);
        length := length + n;
        bytesRemaining := bytesRemaining - n;
        if isFound {
          return;
        }
        if bytesRemaining > 0 {
          var _ := FillForMore(all, dst, length);
          if dataEndPos == dataStartPos {
            break;
          }
        }
      }
    }

    lemma NothingDelivered(dst: array<char>)
      requires Valid()
      ensures Delivered(Ahead(), dst, 0)
    {
      assert dst[..0] == "";
    }

    /** fillReadBuffer between two turns of a loop; nothing comes in only at the end of the
        file or after a failure. */
    method FillForMore(ghost all: string, dst: array<char>, length: nat) returns (ok: bool)
      requires Valid() && dst != buffer && Delivered(all, dst, length)
      modifies this`dataStartPos, this`dataEndPos, this`rest, this`failures, buffer
      ensures Valid() && Delivered(all, dst, length) && failures >= old(failures)
      ensures ok <==> failures == old(failures)
      ensures ok && dataStartPos == dataEndPos ==> length == |all|
    {
      ok := FillReadBuffer();
    }

    static lemma SearchedFurther(all: string, done: nat, n: nat, ch: char)
      requires done + n <= |all|
      ensures ch !in all[..done] && ch !in all[done..][..n] ==> ch !in all[..done + n]
      ensures n > 0 && ch !in all[..done] && ch !in all[done..][..n - 1] ==> ch !in all[..done + n - 1]
    {
      assert all[..done] + all[done..][..n] == all[..done + n];
      if n > 0 {
        assert all[..done] + all[done..][..n - 1] == all[..done + n - 1];
      }
    }
  }
}
