/** Copying from memory that may not be readable. */
module FaultTolerantMemory {
  import opened Numbers

  const TEST_BUFFER: nat := 10240
  const ADDRESS_MAX: nat := 0xFFFF_FFFF_FFFF_FFFF

  type Byte = x: int | 0 <= x < 256

  datatype Cell = Unreadable | Readable(b: Byte)

  /** What each address holds. */
  type Memory = nat -> Cell

  ghost predicate AllReadable(mem: Memory, from: nat, to: nat) {
    forall a: nat :: from <= a < to ==> mem(a).Readable?
  }

  /** The number of readable bytes at the start of n bytes at src. */
  ghost function ReadablePrefix(mem: Memory, src: nat, n: nat): (r: nat)
    ensures r <= n && AllReadable(mem, src, src + r)
    ensures r < n ==> !mem(src + r).Readable?
    decreases n
  {
    if n == 0 || !mem(src).Readable? then 0 else 1 + ReadablePrefix(mem, src + 1, n - 1)
  }

  lemma PrefixIs(mem: Memory, src: nat, n: nat, r: nat)
    requires r <= n && AllReadable(mem, src, src + r) && (r < n ==> !mem(src + r).Readable?)
    ensures ReadablePrefix(mem, src, n) == r
  {
  }

  /** The least k with n <= 2^k. */
  function Lg(n: nat): nat {
    if n <= 1 then 0 else 1 + Lg((n + 1) / 2)
  }

  function Pow2(k: nat): nat {
    if k == 0 then 1 else 2 * Pow2(k - 1)
  }

  lemma {:induction false} LgIsLog(n: nat, k: nat)
    ensures Lg(n) <= k <==> n <= Pow2(k)
    decreases n
  {
    if n <= 1 {
      PowPositive(k);
    } else if k > 0 {
      LgIsLog((n + 1) / 2, k - 1);
    }
  }

  lemma {:induction false} PowPositive(k: nat)
    ensures Pow2(k) >= 1
    decreases k
  {
    if k > 0 {
      PowPositive(k - 1);
    }
  }

  lemma {:induction false} LgMonotone(m: nat, n: nat)
    requires m <= n
    ensures Lg(m) <= Lg(n)
    decreases n
  {
    if m > 1 {
      LgMonotone((m + 1) / 2, (n + 1) / 2);
    }
  }

  /** dst from `at` on starts with n bytes of memory from src. */
  ghost predicate Copied(mem: Memory, src: nat, dst: seq<Byte>, at: nat, n: nat) {
    && at + n <= |dst|
    && forall i :: at <= i < at + n ==> mem(src + i - at) == Readable(dst[i])
  }

  /** copySafely: everything or nothing, as the kernel call does. */
  method CopySafely(mem: Memory, src: nat, dst: array<Byte>, at: nat, n: nat) returns (copied: nat)
    requires at + n <= dst.Length
    modifies dst
    ensures dst[..at] == old(dst[..at])
    ensures copied == if ReadablePrefix(mem, src, n) == n then n else 0
    ensures copied == n ==> Copied(mem, src, dst[..], at, n)
  {
    ghost var before := dst[..at];
    var i := 0;
    while i < n
      invariant 0 <= i <= n && dst[..at] == before
      invariant Copied(mem, src, dst[..], at, i) && AllReadable(mem, src, src + i)
    {
      var cell := mem(src + i);
      if cell.Unreadable? {
        PrefixIs(mem, src, n, i);
        return 0;
      }
      dst[at + i] := cell.b;
      i := i + 1;
    }
    PrefixIs(mem, src, n, n);
    return n;
  }

  /** The bisection: `from` is behind what is copied, `max` above the boundary once a
      probe has failed, `end` in the middle, and each probe has halved the distance. */
  ghost predicate Bracketed(mem: Memory, src: nat, n: nat, from: nat, end: nat, max: nat, probes: nat) {
    && src <= from <= end <= max <= src + n
    && AllReadable(mem, src, from)
    && (if probes == 1 then from == src && end == max == src + n
        else end - from == (max - from) / 2 && (ReadablePrefix(mem, src, n) < max - src || from == max == src + n))
    && 1 <= probes && probes + Lg(max - from) <= 2 + Lg(n)
  }

  lemma ProbeAnswers(mem: Memory, src: nat, n: nat, from: nat, len: nat)
    requires src <= from && from + len <= src + n && AllReadable(mem, src, from)
    ensures ReadablePrefix(mem, from, len) == len <==> from + len - src <= ReadablePrefix(mem, src, n)
    ensures ReadablePrefix(mem, from, len) == len ==> AllReadable(mem, src, from + len)
  {
    if ReadablePrefix(mem, from, len) == len {
      assert AllReadable(mem, src, from + len);
    } else {
      assert !mem(from + ReadablePrefix(mem, from, len)).Readable?;
    }
  }

  lemma Halved(d: nat, h: nat)
    requires d >= 2 && h <= (d + 1) / 2
    ensures Lg(h) + 1 <= Lg(d)
  {
    LgMonotone(h, (d + 1) / 2);
  }

  lemma ProbeSucceeds(mem: Memory, src: nat, n: nat, from: nat, end: nat, max: nat, probes: nat)
    requires Bracketed(mem, src, n, from, end, max, probes) && from < end && n >= 1
    requires ReadablePrefix(mem, from, end - from) == end - from
    ensures Bracketed(mem, src, n, end, end + (max - end) / 2, max, probes + 1)
  {
    hide ReadablePrefix, AllReadable, Lg;
    ProbeAnswers(mem, src, n, from, end - from);
    if probes > 1 {
      Halved(max - from, max - end);
    } else {
      LgMonotone(0, n);
      assert Lg(0) == 0 by { LgZero(); }
      assert ReadablePrefix(mem, src, n) <= n by { PrefixBound(mem, src, n); }
    }
  }

  lemma LgZero()
    ensures Lg(0) == 0
  {
  }

  lemma PrefixBound(mem: Memory, src: nat, n: nat)
    ensures ReadablePrefix(mem, src, n) <= n
  {
  }

  lemma ProbeFails(mem: Memory, src: nat, n: nat, from: nat, end: nat, max: nat, probes: nat)
    requires Bracketed(mem, src, n, from, end, max, probes) && from + 1 < end
    requires ReadablePrefix(mem, from, end - from) != end - from
    ensures Bracketed(mem, src, n, from, from + (end - from) / 2, end, probes + 1)
  {
    hide ReadablePrefix, AllReadable, Lg;
    ProbeAnswers(mem, src, n, from, end - from);
    if probes > 1 {
      Halved(max - from, end - from);
    }
  }

  /** When the bisection stops, it stands at the boundary. */
  lemma BisectionEnds(mem: Memory, src: nat, n: nat, from: nat, end: nat, max: nat, probes: nat)
    requires Bracketed(mem, src, n, from, end, max, probes) && n >= 2
    requires from == end || (end == from + 1 && ReadablePrefix(mem, from, 1) != 1)
    ensures ReadablePrefix(mem, src, n) == from - src
    ensures probes + (end - from) <= 2 + Lg(n)
  {
    ProbeAnswers(mem, src, n, from, end - from);
    if from < end {
      Halved(max - from, 1);
      PrefixIs(mem, src, n, from - src);
    } else if max == src + n == from {
      PrefixIs(mem, src, n, n);
    } else {
      assert AllReadable(mem, src, from);
      assert from - src <= ReadablePrefix(mem, src, n);
    }
  }

  lemma CopiedFurther(mem: Memory, src: nat, dst: seq<Byte>, n: nat, more: nat, before: seq<Byte>)
    requires n + more <= |dst| && before == dst[..n] && Copied(mem, src, before, 0, n)
    requires Copied(mem, src + n, dst, n, more)
    ensures Copied(mem, src, dst, 0, n + more)
  {
    forall i | 0 <= i < n + more
      ensures mem(src + i) == Readable(dst[i])
    {
      if i < n {
        assert dst[i] == before[i];
      }
    }
  }

  /** copyMaxPossible copies exactly the longest readable prefix of the range, with at
      most two probes more than the logarithm of its length.  A count below 1 is returned
      as it is once the first byte is readable, and a range that wraps around gives 0. */
  method CopyMaxPossible(mem: Memory, src: nat, dst: array<Byte>, byteCount: int) returns (result: int, probes: nat)
    requires byteCount <= dst.Length && dst.Length >= 1
    modifies dst
    ensures 1 <= byteCount && src + byteCount <= ADDRESS_MAX ==>
              && result == ReadablePrefix(mem, src, byteCount)
              && Copied(mem, src, dst[..], 0, result)
              && probes <= 2 + Lg(byteCount)
    ensures byteCount < 1 ==> result == if mem(src).Readable? then byteCount else 0
    ensures byteCount > 1 && src + byteCount > ADDRESS_MAX ==> result == 0
  {
    var first := CopySafely(mem, src, dst, 0, 1);
    probes := 1;
    assert first == 1 <==> mem(src).Readable? by {
      assert ReadablePrefix(mem, src, 1) == if mem(src).Readable? then 1 else 0;
    }
    if first != 1 {
      return 0, probes;
    }
    if byteCount <= 1 {
      return byteCount, probes;
    }
    if byteCount > ADDRESS_MAX - src {
      return 0, probes;
    }
    result, probes := Bisect(mem, src, dst, byteCount);
  }

  /** The loop of copyMaxPossible, behind the probe of the first byte. */
  method Bisect(mem: Memory, src: nat, dst: array<Byte>, byteCount: nat) returns (bytesCopied: nat, probes: nat)
    requires 2 <= byteCount <= dst.Length
    modifies dst
    ensures bytesCopied == ReadablePrefix(mem, src, byteCount)
    ensures Copied(mem, src, dst[..], 0, bytesCopied)
    ensures probes <= 2 + Lg(byteCount)
  {
    hide ReadablePrefix, AllReadable, Lg, Copied;
    var pSrc: nat, pSrcMax: nat, pSrcEnd: nat := src, src + byteCount, src + byteCount;
    bytesCopied, probes := 0, 1;
    BisectionStarts(mem, src, byteCount, dst[..]);
    while true
      invariant Bracketed(mem, src, byteCount, pSrc, pSrcEnd, pSrcMax, probes)
      invariant pSrc == src + bytesCopied && Copied(mem, src, dst[..bytesCopied], 0, bytesCopied)
      invariant Copied(mem, src, dst[..], 0, bytesCopied)
      decreases pSrcMax - pSrc, pSrcEnd - pSrc
    {
      var copyLength := pSrcEnd - pSrc;
      if copyLength <= 0 {
        BisectionEnds(mem, src, byteCount, pSrc, pSrcEnd, pSrcMax, probes);
        break;
      }
      ghost var before := dst[..bytesCopied];
      var copied := CopySafely(mem, pSrc, dst, bytesCopied, copyLength);
      CopiedStill(mem, src, dst[..], bytesCopied, before);
      if copied == copyLength {
        CopiedFurther(mem, src, dst[..], bytesCopied, copyLength, before);
        ProbeSucceeds(mem, src, byteCount, pSrc, pSrcEnd, pSrcMax, probes);
        bytesCopied := bytesCopied + copyLength;
        CopiedStill(mem, src, dst[..], bytesCopied, dst[..bytesCopied]);
        pSrc := pSrc + copyLength;
        pSrcEnd := pSrc + (pSrcMax - pSrc) / 2;
      } else {
        if copyLength <= 1 {
          BisectionEnds(mem, src, byteCount, pSrc, pSrcEnd, pSrcMax, probes);
          probes := probes + 1;
          break;
        }
        ProbeFails(mem, src, byteCount, pSrc, pSrcEnd, pSrcMax, probes);
        pSrcMax := pSrcEnd;
        pSrcEnd := pSrc + copyLength / 2;
      }
      probes := probes + 1;
    }
  }

  lemma BisectionStarts(mem: Memory, src: nat, n: nat, dst: seq<Byte>)
    ensures Bracketed(mem, src, n, src, src + n, src + n, 1)
    ensures Copied(mem, src, dst, 0, 0) && Copied(mem, src, dst[..0], 0, 0)
  {
  }

  lemma CopiedStill(mem: Memory, src: nat, dst: seq<Byte>, n: nat, start: seq<Byte>)
    requires n <= |dst| && start == dst[..n]
    ensures Copied(mem, src, start, 0, n) <==> Copied(mem, src, dst, 0, n)
  {
    assert forall i :: 0 <= i < n ==> start[i] == dst[i];
  }

  // ------------------------------------------------------- questions about ranges

  /** isMemoryReadable.  The pointer is not moved, so each chunk probes the same start. */
  method IsMemoryReadable(mem: Memory, memory: nat, byteCount: int, testBuffer: array<Byte>) returns (readable: bool)
    requires testBuffer.Length == TEST_BUFFER
    modifies testBuffer
    ensures readable == SaysReadable(mem, memory, byteCount)
  {
    var bytesRemaining := byteCount;
    while bytesRemaining > 0
      invariant bytesRemaining <= byteCount && (byteCount >= 0 ==> bytesRemaining >= 0)
      invariant byteCount <= 0 ==> bytesRemaining == byteCount
      invariant bytesRemaining < byteCount ==> SaysReadable(mem, memory, byteCount)
    {
      var bytesToCopy := if bytesRemaining > TEST_BUFFER then TEST_BUFFER else bytesRemaining;
      var copied := CopySafely(mem, memory, testBuffer, 0, bytesToCopy);
      ProbeAnswers(mem, memory, Chunk(byteCount), memory, bytesToCopy);
      if copied != bytesToCopy {
        break;
      }
      bytesRemaining := bytesRemaining - bytesToCopy;
    }
    return bytesRemaining == 0;
  }

  /** What one probe of isMemoryReadable covers at most. */
  function Chunk(byteCount: int): nat {
    if byteCount <= 0 then 0 else if byteCount > TEST_BUFFER then TEST_BUFFER else byteCount
  }

  ghost predicate SaysReadable(mem: Memory, memory: nat, byteCount: int) {
    byteCount >= 0 && ReadablePrefix(mem, memory, Chunk(byteCount)) == Chunk(byteCount)
  }

  /** isMemoryReadable is right about every memory exactly up to the size of its buffer. */
  lemma ReadableUpToBuffer(memory: nat, byteCount: nat)
    ensures byteCount <= TEST_BUFFER <==>
            forall mem: Memory :: SaysReadable(mem, memory, byteCount) <==> AllReadable(mem, memory, memory + byteCount)
  {
    if byteCount > TEST_BUFFER {
      var mem: Memory := (a: nat) => if a < memory + TEST_BUFFER then Readable(0) else Unreadable;
      PrefixIs(mem, memory, TEST_BUFFER, TEST_BUFFER);
      assert SaysReadable(mem, memory, byteCount);
      assert !mem(memory + TEST_BUFFER).Readable?;
      assert !AllReadable(mem, memory, memory + byteCount);
    } else {
      forall mem: Memory
        ensures SaysReadable(mem, memory, byteCount) <==> AllReadable(mem, memory, memory + byteCount)
      {
        if AllReadable(mem, memory, memory + byteCount) {
          PrefixIs(mem, memory, byteCount, byteCount);
        }
      }
    }
  }

  /** The request, rounded up to whole buffers. */
  function WholeBuffers(tryByteCount: int): (n: nat)
    ensures n >= TEST_BUFFER && n >= tryByteCount
    ensures n == tryByteCount <==> tryByteCount > 0 && tryByteCount % TEST_BUFFER == 0
    decreases if tryByteCount > 0 then tryByteCount else 0
  {
    if tryByteCount <= TEST_BUFFER then TEST_BUFFER else TEST_BUFFER + WholeBuffers(tryByteCount - TEST_BUFFER)
  }

  lemma PrefixSplits(mem: Memory, src: nat, a: nat, b: nat)
    ensures ReadablePrefix(mem, src, a + b) ==
            if ReadablePrefix(mem, src, a) == a then a + ReadablePrefix(mem, src + a, b)
              else ReadablePrefix(mem, src, a)
  {
    var r := ReadablePrefix(mem, src, a);
    if r == a {
      PrefixIs(mem, src, a + b, a + ReadablePrefix(mem, src + a, b));
    } else {
      PrefixIs(mem, src, a + b, r);
    }
  }

  /** ksmem_maxReadableBytes: every byte it counts is readable, and the one behind them
      is not if it counts fewer than the request rounded up to whole buffers. */
  method MaxReadableBytes(mem: Memory, memory: nat, tryByteCount: int, testBuffer: array<Byte>) returns (result: int)
    requires testBuffer.Length == TEST_BUFFER && memory + WholeBuffers(tryByteCount) <= ADDRESS_MAX
    modifies testBuffer
    ensures result == ReadablePrefix(mem, memory, WholeBuffers(tryByteCount))
  {
    hide ReadablePrefix;
    var currentPosition: nat := memory;
    var bytesRemaining := tryByteCount;
    while bytesRemaining > TEST_BUFFER
      invariant currentPosition - memory == tryByteCount - bytesRemaining >= 0
      invariant WholeBuffers(tryByteCount) == currentPosition - memory + WholeBuffers(bytesRemaining)
      invariant ReadablePrefix(mem, memory, WholeBuffers(tryByteCount)) ==
                currentPosition - memory + ReadablePrefix(mem, currentPosition, WholeBuffers(bytesRemaining))
    {
      var readable := IsMemoryReadable(mem, currentPosition, TEST_BUFFER, testBuffer);
      PrefixSplits(mem, currentPosition, TEST_BUFFER, WholeBuffers(bytesRemaining - TEST_BUFFER));
      if !readable {
        break;
      }
      currentPosition := currentPosition + TEST_BUFFER;
      bytesRemaining := bytesRemaining - TEST_BUFFER;
    }
    var copied, _ := CopyMaxPossible(mem, currentPosition, testBuffer, TEST_BUFFER);
    bytesRemaining := bytesRemaining - copied;
    return tryByteCount - bytesRemaining;
  }

  /** The answer never exceeds the request exactly if the request is a positive number
      of whole buffers. */
  lemma AnswerWithinRequest(memory: nat, tryByteCount: int)
    ensures (tryByteCount > 0 && tryByteCount % TEST_BUFFER == 0) <==>
            forall mem: Memory :: ReadablePrefix(mem, memory, WholeBuffers(tryByteCount)) <= tryByteCount
  {
    var n := WholeBuffers(tryByteCount);
    if n != tryByteCount {
      var mem: Memory := (_: nat) => Readable(0);
      PrefixIs(mem, memory, n, n);
      assert ReadablePrefix(mem, memory, n) > tryByteCount;
    }
  }

  /** Up to the request the answer is exact: it is the longest readable prefix of the
      request whenever it is cut back to the request. */
  lemma CutAnswerExact(mem: Memory, memory: nat, tryByteCount: nat)
    ensures Least(ReadablePrefix(mem, memory, WholeBuffers(tryByteCount)), tryByteCount) ==
            ReadablePrefix(mem, memory, tryByteCount)
  {
    PrefixSplits(mem, memory, tryByteCount, WholeBuffers(tryByteCount) - tryByteCount);
  }
}
