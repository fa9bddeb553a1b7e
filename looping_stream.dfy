/**
 * An endlessly looping byte stream (convcomm/engine/audio/LoopingByteInputStream.java).
 * It extends java.io.ByteArrayInputStream, whose state is modelled here
 * explicitly: the source array buf, the read position pos, the end count and
 * the mark that reset() returns to (0, as nothing here moves it). A read asks
 * the inherited read for the bytes still missing and resets to the mark each
 * time the source runs out, so it always delivers every byte asked for,
 * taken cyclically from the source; after close it delivers nothing.
 */
module LoopingStreams {
  import opened JavaBytes
  import opened Slots

  /** n bytes of src taken cyclically starting at index from. */
  function Cycle(src: seq<int8>, from: int, n: nat): (r: seq<int8>)
    requires |src| > 0 && from >= 0
    ensures |r| == n
    decreases n
  {
    if n == 0 then [] else Cycle(src, from, n - 1) + [src[(from + n - 1) % |src|]]
  }

  /** Byte t of the cycle is source byte (from + t) mod |src|. */
  lemma {:induction false} CycleIndex(src: seq<int8>, from: int, n: nat, t: int)
    requires |src| > 0 && from >= 0 && 0 <= t < n
    ensures Cycle(src, from, n)[t] == src[(from + t) % |src|]
    decreases n
  {
    if t < n - 1 {
      CycleIndex(src, from, n - 1, t);
    }
  }

  /** Equal remainders stay equal when the same amount is added. */
  lemma ModAdd(a: int, b: int, d: int, m: int)
    requires m > 0 && a % m == b % m
    ensures (a + d) % m == (b + d) % m
  {
    var q, r := (b + d) / m, (b + d) % m;
    var qa, qb := a / m, b / m;
    assert a == qa * m + a % m && b == qb * m + b % m;
    assert (q + qa - qb) * m == q * m + qa * m - qb * m;
    DivModUnique(a + d, m, q + qa - qb, r);
  }

  /** Adding a multiple of m leaves the remainder. */
  lemma ModShift(x: int, q: int, m: int)
    requires m > 0
    ensures (x + q * m) % m == x % m
  {
    var k := x / m;
    assert x == k * m + x % m;
    assert (k + q) * m == k * m + q * m;
    DivModUnique(x + q * m, m, k + q, x % m);
  }

  /**
   * Continuing a cycle with a run of the source that starts where the cycle
   * stands extends it by that run.
   */
  lemma {:induction false} CycleExtend(src: seq<int8>, from: int, a: nat, p: int, n: nat)
    requires |src| > 0 && from >= 0 && 0 <= p && p + n <= |src|
    requires p % |src| == (from + a) % |src|
    ensures Cycle(src, from, a + n) == Cycle(src, from, a) + src[p..p + n]
    decreases n
  {
    if n > 0 {
      CycleExtend(src, from, a, p, n - 1);
      ModAdd(p, from + a, n - 1, |src|);
      DivModUnique(p + n - 1, |src|, 0, p + n - 1);
    }
  }

  /** A cycle that runs past the end of the source continues from its start: the reset to the mark. */
  lemma CycleWraps(src: seq<int8>, from: int, n: nat)
    requires |src| > 0 && 0 <= from <= |src| && from + n > |src|
    ensures Cycle(src, from, n) == src[from..] + Cycle(src, 0, n - (|src| - from))
  {
    var m, rest := |src| - from, n - (|src| - from);
    var lhs, rhs := Cycle(src, from, n), src[from..] + Cycle(src, 0, rest);
    forall t | 0 <= t < n
      ensures lhs[t] == rhs[t]
    {
      CycleIndex(src, from, n, t);
      if t < m {
        DivModUnique(from + t, |src|, 0, from + t);
      } else {
        CycleIndex(src, 0, rest, t - m);
        ModShift(t - m, 1, |src|);
      }
    }
  }

  /** One pass from the start gives the source itself. */
  lemma CycleWhole(src: seq<int8>)
    requires |src| > 0
    ensures Cycle(src, 0, |src|) == src
  {
    CycleExtend(src, 0, 0, 0, |src|);
    assert Cycle(src, 0, 0) == [] && src[0..|src|] == src;
  }

  /** Overwriting the start of the tail after a prefix moves the run from the tail to the prefix. */
  lemma Splice(b: seq<int8>, b': seq<int8>, pre: seq<int8>, done: seq<int8>, tail: seq<int8>, run: seq<int8>)
    requires b == pre + done + tail && |run| <= |tail|
    requires b' == b[..|pre| + |done|] + run + b[|pre| + |done| + |run|..]
    ensures b' == pre + (done + run) + tail[|run|..]
  {
    assert b[..|pre| + |done|] == pre + done;
    assert b[|pre| + |done| + |run|..] == tail[|run|..];
  }

  /**
   * One chunk of the read loop: the destination holds the cycle read so far
   * after its first offset bytes; copying the run of the source that
   * continues the cycle right after it extends the cycle by that run.
   */
  lemma ChunkStep(b0: seq<int8>, b: seq<int8>, b': seq<int8>, offset: int, src: seq<int8>, pos0: int, total: nat, p: int, n: nat)
    requires |src| > 0 && pos0 >= 0 && 0 <= offset && 0 <= p && p + n <= |src|
    requires offset + total + n <= |b0|
    requires p % |src| == (pos0 + total) % |src|
    requires b == b0[..offset] + Cycle(src, pos0, total) + b0[offset + total..]
    requires b' == b[..offset + total] + src[p..p + n] + b[offset + total + n..]
    ensures b' == b0[..offset] + Cycle(src, pos0, total + n) + b0[offset + total + n..]
  {
    CycleExtend(src, pos0, total, p, n);
    Splice(b, b', b0[..offset], Cycle(src, pos0, total), b0[offset + total..], src[p..p + n]);
    assert b0[offset + total..][n..] == b0[offset + total + n..];
  }

  /** A destination whose bytes from off on are chunk, and elsewhere b0's, is b0 with chunk spliced in at off. */
  lemma ChunkCopied(r: seq<int8>, b0: seq<int8>, off: int, chunk: seq<int8>)
    requires 0 <= off && off + |chunk| <= |b0| && |r| == |b0|
    requires forall i :: 0 <= i < |r| ==> r[i] == if off <= i < off + |chunk| then chunk[i - off] else b0[i]
    ensures r == b0[..off] + chunk + b0[off + |chunk|..]
  {
    var s := b0[..off] + chunk + b0[off + |chunk|..];
    assert forall i :: 0 <= i < |r| ==> r[i] == s[i];
  }

  /** The cycle read so far sits after the first offset bytes of the destination, and pos stands where it ends. */
  ghost predicate Filled(b: seq<int8>, b0: seq<int8>, offset: int, src: seq<int8>, pos0: int, total: int, pos: int)
  {
    && |src| > 0 && pos0 >= 0 && 0 <= offset && total >= 0 && offset + total <= |b0|
    && pos % |src| == (pos0 + total) % |src|
    && b == b0[..offset] + Cycle(src, pos0, total) + b0[offset + total..]
  }

  /** A chunk copied from where the position stands continues the cycle, and the position moves past it. */
  lemma ChunkFilled(b0: seq<int8>, b: seq<int8>, b': seq<int8>, offset: int, src: seq<int8>, pos0: int, total: int, p: int, n: nat)
    requires Filled(b, b0, offset, src, pos0, total, p)
    requires 0 <= p && p + n <= |src| && offset + total + n <= |b0|
    requires b' == b[..offset + total] + src[p..p + n] + b[offset + total + n..]
    ensures Filled(b', b0, offset, src, pos0, total + n, p + n)
  {
    ChunkStep(b0, b, b', offset, src, pos0, total, p, n);
    ModAdd(p, pos0 + total, n, |src|);
  }

  /** An exhausted position and the mark 0 stand at the same place in the cycle. */
  lemma ResetFilled(b: seq<int8>, b0: seq<int8>, offset: int, src: seq<int8>, pos0: int, total: int)
    requires Filled(b, b0, offset, src, pos0, total, |src|)
    ensures Filled(b, b0, offset, src, pos0, total, 0)
  {
    ModShift(0, 1, |src|);
  }

  class LoopingByteInputStream {
    const buf: array<int8>
    var pos: int
    var count: int
    var mark: int
    var closed: bool

    ghost predicate Valid()
      reads this
    {
      count == buf.Length && 0 <= pos <= count && mark == 0
    }

    /** A stream over buffer, which is not copied, positioned at its start and open. */
    constructor (buffer: array<int8>)
      ensures Valid() && buf == buffer && pos == 0 && !closed
    {
      buf := buffer;
      pos := 0;
      count := buffer.Length;
      mark := 0;
      closed := false;
    }

    /**
     * ByteArrayInputStream.read(b, off, len): -1 at the end of the source;
     * otherwise copies as many of the len bytes as remain and advances.
     */
    method ReadChunk(b: array<int8>, off: int, len: int) returns (n: int)
      requires Valid() && b != buf
      requires 0 <= off && 0 <= len && off + len <= b.Length
      modifies this`pos, b
      ensures Valid()
      ensures old(pos) >= count ==> n == -1 && pos == old(pos) && b[..] == old(b[..])
      ensures old(pos) < count ==>
        && n == (if len < count - old(pos) then len else count - old(pos))
        && pos == old(pos) + n
        && b[..] == old(b[..off]) + buf[old(pos)..old(pos) + n] + old(b[off + n..])
    {
      if pos >= count {
        return -1;
      }
      n := if len < count - pos then len else count - pos;
      ghost var b0, chunk := b[..], buf[pos..pos + n];
      forall k | 0 <= k < n {
        b[off + k] := buf[pos + k];
      }
      ChunkCopied(b[..], b0, off, chunk);
      pos := pos + n;
    }

    /** ByteArrayInputStream.reset(): back to the mark. */
    method Reset()
      requires Valid()
      modifies this`pos
      ensures Valid() && pos == mark
    {
      pos := mark;
    }

    /**
     * read(buffer, offset, length): -1 once closed; otherwise exactly length
     * bytes, the source taken cyclically from the current position, written
     * to buffer[offset..offset + length) and nowhere else. A non-positive
     * length reads nothing and returns 0. An empty source never delivers a
     * byte, so the Java loop would spin forever: that case is excluded.
     */
    method Read(buffer: array<int8>, offset: int, length: int) returns (r: int)
      requires Valid() && buffer != buf
      requires closed || length <= 0 || (0 <= offset && offset + length <= buffer.Length && count > 0)
      modifies this`pos, buffer
      ensures Valid()
      ensures closed ==> r == -1 && pos == old(pos) && buffer[..] == old(buffer[..])
      ensures !closed && length <= 0 ==> r == 0 && pos == old(pos) && buffer[..] == old(buffer[..])
      ensures !closed && length > 0 ==>
        && r == length
        && buffer[..] == old(buffer[..offset]) + Cycle(buf[..count], old(pos), length) + old(buffer[offset + length..])
        && 0 < pos <= count && pos % count == (old(pos) + length) % count
    {
      if closed {
        return -1;
      }
      if length <= 0 {
        return 0;
      }
      r := ReadLooping(buffer, offset, length);
    }

    /** The loop of read: chunks from the source, resetting to the mark whenever it runs out. */
    method ReadLooping(buffer: array<int8>, offset: int, length: int) returns (totalBytesRead: int)
      requires Valid() && buffer != buf && count > 0
      requires 0 <= offset && 0 < length && offset + length <= buffer.Length
      modifies this`pos, buffer
      ensures Valid() && totalBytesRead == length
      ensures buffer[..] == old(buffer[..offset]) + Cycle(buf[..count], old(pos), length) + old(buffer[offset + length..])
      ensures 0 < pos <= count && pos % count == (old(pos) + length) % count
    {
      ghost var src, pos0, b0 := buf[..], pos, buffer[..];
      assert buf[..count] == src;
      totalBytesRead := 0;
      while totalBytesRead < length
        invariant Valid() && src == buf[..]
        invariant 0 <= totalBytesRead <= length
        invariant Filled(buffer[..], b0, offset, src, pos0, totalBytesRead, pos)
        invariant totalBytesRead == length ==> pos > 0
        decreases length - totalBytesRead, if pos < count then 0 else 1
      {
        totalBytesRead := ReadStep(buffer, offset, length, totalBytesRead, src, pos0, b0);
      }
    }

    /** One pass of the loop of read: a chunk from the source, or a reset to the mark when it has run out. */
    method ReadStep(buffer: array<int8>, offset: int, length: int, totalBytesRead: int,
                    ghost src: seq<int8>, ghost pos0: int, ghost b0: seq<int8>) returns (total: int)
      requires Valid() && buffer != buf && src == buf[..]
      requires 0 <= totalBytesRead < length && offset + length <= buffer.Length
      requires Filled(buffer[..], b0, offset, src, pos0, totalBytesRead, pos)
      modifies this`pos, buffer
      ensures Valid() && totalBytesRead <= total <= length
      ensures Filled(buffer[..], b0, offset, src, pos0, total, pos)
      ensures total == length ==> pos > 0
      ensures total > totalBytesRead || (total == totalBytesRead && old(pos) >= count && pos < count)
    {
      ghost var before, b := pos, buffer[..];
      var numBytesRead := ReadChunk(buffer, offset + totalBytesRead, length - totalBytesRead);
      ghost var b' := buffer[..];
      if numBytesRead > 0 {
        assert b' == b[..offset + totalBytesRead] + src[before..before + numBytesRead] + b[offset + totalBytesRead + numBytesRead..];
        ChunkFilled(b0, b, b', offset, src, pos0, totalBytesRead, before, numBytesRead);
        total := totalBytesRead + numBytesRead;
      } else {
        ResetFilled(b', b0, offset, src, pos0, totalBytesRead);
        Reset();
        total := totalBytesRead;
      }
    }

    /** close(): later reads return -1 (closing a ByteArrayInputStream does nothing else). */
    method Close()
      modifies this`closed
      ensures closed
    {
      closed := true;
    }
  }
}
