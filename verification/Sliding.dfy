/** The ring buffer that keeps the last `windowSize` bytes of a stream. */
module Sliding {
  import opened Base
  import opened Buffers

  lemma ModUnique(a: int, w: int, q: int, m: int)
    requires w > 0 && a == q * w + m && 0 <= m < w
    ensures a % w == m
  {
    var q', m' := a / w, a % w;
    assert a == q' * w + m' == q * w + m;
    assert (q' - q) * w == m - m';
    MulBound(q' - q, w);
  }

  lemma MulBound(k: int, w: int)
    requires w > 0
    ensures k >= 1 ==> k * w >= w
    ensures k <= -1 ==> k * w <= -w
  {
  }

  /** Within one window no two positions share a cell of the ring. */
  lemma CellsDistinct(a: nat, b: nat, w: nat)
    requires w > 0 && a < b < a + w
    ensures a % w != b % w
  {
    var d := b - a;
    if a % w + d < w {
      ModUnique(b, w, a / w, a % w + d);
    } else {
      assert a / w * w + w == (a / w + 1) * w;
      ModUnique(b, w, a / w + 1, a % w + d - w);
    }
  }

  // ------------------------------------------------ the ring as a function

  /** The ring array after `p` was written at stream position `pos`, byte by byte. */
  function Overwrite(ring: Bytes, pos: nat, p: Bytes): (r: Bytes)
    requires ring != []
    ensures |r| == |ring|
    decreases p
  {
    if p == [] then ring else Overwrite(ring[pos % |ring| := p[0]], pos + 1, p[1..])
  }

  /** A whole run of writes, of any lengths. */
  function OverwriteAll(ring: Bytes, pos: nat, writes: seq<Bytes>): (r: Bytes)
    requires ring != []
    ensures |r| == |ring|
    decreases writes
  {
    if writes == [] then ring
    else OverwriteAll(Overwrite(ring, pos, writes[0]), pos + |writes[0]|, writes[1..])
  }

  function Flatten(writes: seq<Bytes>): Bytes {
    if writes == [] then [] else writes[0] + Flatten(writes[1..])
  }

  // The ring holds the last bytes of the history, each in its own cell.
  ghost predicate Covers(ring: Bytes, history: Bytes) {
    ring != [] && forall k :: Max(0, |history| - |ring|) <= k < |history| ==> ring[k % |ring|] == history[k]
  }

  lemma {:induction false} OverwriteCovers(ring: Bytes, history: Bytes, p: Bytes)
    requires Covers(ring, history)
    ensures Covers(Overwrite(ring, |history|, p), history + p)
    decreases p
  {
    if p == [] {
      assert history + p == history;
    } else {
      var w := |ring|;
      var ring' := ring[|history| % w := p[0]];
      var history' := history + [p[0]];
      forall k | Max(0, |history'| - w) <= k < |history'|
        ensures ring'[k % w] == history'[k]
      {
        if k < |history| {
          CellsDistinct(k, |history|, w);
        }
      }
      OverwriteCovers(ring', history', p[1..]);
      assert history' + p[1..] == history + p;
    }
  }

  /** After any writes, longer than the window or not, the ring holds the tail of all that was written. */
  lemma {:induction false} RunCovers(ring: Bytes, history: Bytes, writes: seq<Bytes>)
    requires Covers(ring, history)
    ensures Covers(OverwriteAll(ring, |history|, writes), history + Flatten(writes))
    decreases writes
  {
    hide Overwrite, Covers;
    if writes == [] {
      assert history + Flatten(writes) == history;
    } else {
      OverwriteCovers(ring, history, writes[0]);
      RunCovers(Overwrite(ring, |history|, writes[0]), history + writes[0], writes[1..]);
      assert history + writes[0] + Flatten(writes[1..]) == history + Flatten(writes);
    }
  }

  // ---------------------------------------------------------------- the buffer

  class SlidingBuffer {
    const windowSize: nat
    const ring: array<byte>
    var writePos: nat
    var closed: bool
    ghost var history: Bytes   // everything ever written

    ghost predicate Valid()
      reads this, ring
    {
      && ring.Length == windowSize
      && writePos == |history|
      && (if windowSize == 0 then history == [] else Covers(ring[..], history))
    }

    constructor (windowSize: nat)
      ensures Valid() && fresh(ring) && history == [] && !closed && this.windowSize == windowSize
    {
      this.windowSize := windowSize;
      ring := new byte[windowSize];
      writePos, closed, history := 0, false, [];
    }

    /** Writing to a window of size 0 divides by zero in the original, so only nothing can be written there. */
    method Write(p: Bytes) returns (n: nat, ok: bool)
      requires Valid() && (windowSize > 0 || p == [])
      modifies this`writePos, this`history, ring
      ensures Valid()
      ensures ok == !closed && n == if ok then |p| else 0
      ensures history == old(history) + p[..n]
      ensures ok && windowSize > 0 ==> ring[..] == Overwrite(old(ring[..]), old(writePos), p)
    {
      if closed {
        assert history == old(history) + p[..0];
        return 0, false;
      }
      hide Covers;
      if windowSize > 0 {
        OverwriteCovers(ring[..], history, p);
      }
      for i := 0 to |p|
        invariant writePos == old(writePos) && history == old(history)
        invariant windowSize > 0 ==>
                    Overwrite(ring[..], writePos + i, p[i..]) == Overwrite(old(ring[..]), old(writePos), p)
      {
        var idx := (writePos + i) % windowSize;
        ghost var before := ring[..];
        ring[idx] := p[i];
        assert ring[..] == before[idx := p[i]];
        assert p[i..][1..] == p[i + 1..];
      }
      writePos := writePos + |p|;
      history := history + p;
      assert p[..|p|] == p;
      return |p|, true;
    }

    /** Fills `p` from absolute offset `off` on, or reports that the window no longer, or not yet, covers it. */
    method ReadAtIfAvailable(p: array<byte>, off: int) returns (n: nat, ok: bool)
      requires Valid() && p != ring
      modifies p
      ensures Valid()
      ensures ok <==> Max(0, |history| - windowSize) <= off < |history|
      ensures var chunk := if ok then Slice(history, p.Length, off) else [];
              n == |chunk| && Filled(old(p[..]), p[..], 0, chunk)
    {
      var start, end := AvailableRange();
      if off < start || off >= end {
        FilledNothing(p[..], 0);
        return 0, false;
      }
      n := Min(p.Length, end - off);
      for i := 0 to n
        invariant forall k :: 0 <= k < i ==> p[k] == history[off + k]
        invariant forall k :: i <= k < p.Length ==> p[k] == old(p[k])
        invariant Valid()
      {
        assert ring[..][(off + i) % windowSize] == history[off + i];
        p[i] := ring[(off + i) % windowSize];
      }
      assert p[..n] == history[off..off + n];
      return n, true;
    }

    method AvailableRange() returns (start: int, end: int)
      requires Valid()
      ensures start == Max(0, |history| - windowSize) && end == |history|
    {
      end := writePos;
      start := end - windowSize;
      if start < 0 {
        start := 0;
      }
    }

    method Close()
      requires Valid()
      modifies this`closed
      ensures Valid() && closed
    {
      closed := true;
    }
  }
}
