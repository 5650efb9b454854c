/**
 The two full buffers, one in memory and one over a temporary file, against one
 description: the bytes written so far and a read cursor.
 */
module Buffers {
  import opened Base
  import Transfer

  datatype Medium = Memory | File

  /** Bytes written so far, and where the next sequential read starts. */
  datatype Content = Content(data: Bytes, pos: nat)

  datatype Delivery = Delivery(chunk: Bytes, status: Status)

  /** Up to `room` bytes from `off` on; short only at the end. */
  function Slice(data: Bytes, room: nat, off: nat): Bytes {
    if off >= |data| then [] else data[off..off + Min(room, |data| - off)]
  }

  /** `ReadAt` into `room` bytes.  Memory looks at the offset first, a file at the room. */
  function ReadAtOf(medium: Medium, data: Bytes, room: nat, off: nat): Delivery {
    var chunk := Slice(data, room, off);
    if medium.Memory? && off >= |data| then Delivery([], Eof)
    else Delivery(chunk, if |chunk| < room then Eof else More)
  }

  /** `Read` into `room` bytes: memory reports EOF only once nothing is left. */
  function ReadOf(medium: Medium, c: Content, room: nat): Delivery {
    match medium
    case Memory => Delivery(Slice(c.data, room, c.pos), if c.pos >= |c.data| then Eof else More)
    case File => ReadAtOf(File, c.data, room, c.pos)
  }

  const SEEK_START := 0
  const SEEK_CURRENT := 1
  const SEEK_END := 2

  /** The position a `Seek` moves to; `None` for a bad whence or a negative position. */
  function SeekTarget(pos: nat, size: nat, offset: int, whence: int): Option<nat> {
    if whence != SEEK_START && whence != SEEK_CURRENT && whence != SEEK_END then None
    else
      var next := (if whence == SEEK_START then 0 else if whence == SEEK_CURRENT then pos else size) + offset;
      if next < 0 then None else Some(next)
  }

  /** What a read of `room` bytes from `off` on delivers, byte by byte. */
  lemma SliceExactly(data: Bytes, room: nat, off: nat)
    ensures var s := Slice(data, room, off);
            && |s| == Min(room, Max(0, |data| - off))
            && forall k :: 0 <= k < |s| ==> s[k] == data[off + k]
  {
  }

  /** When reads report EOF: a positioned read with fewer bytes than asked for, a memory `Read` with nothing left. */
  lemma ReadsExactly(medium: Medium, c: Content, room: nat, off: nat)
    ensures var d := ReadAtOf(medium, c.data, room, off);
            && d.chunk == Slice(c.data, room, off)
            && d.status == if |d.chunk| < room || (medium.Memory? && |c.data| <= off) then Eof else More
    ensures var d := ReadOf(medium, c, room);
            && d.chunk == Slice(c.data, room, c.pos)
            && d.status == if (if medium.Memory? then |c.data| <= c.pos else |d.chunk| < room) then Eof else More
  {
  }

  // A caller's buffer after `chunk` was put into it at `lo`, everything else untouched.
  ghost predicate Filled(before: Bytes, after: Bytes, lo: nat, chunk: Bytes) {
    && lo + |chunk| <= |before|
    && after == before[..lo] + chunk + before[lo + |chunk|..]
  }

  lemma FilledNothing(p: Bytes, lo: nat)
    requires lo <= |p|
    ensures Filled(p, p, lo, [])
  {
  }

  lemma FilledTwice(before: Bytes, mid: Bytes, after: Bytes, lo: nat, a: Bytes, b: Bytes)
    requires Filled(before, mid, lo, a) && Filled(mid, after, lo + |a|, b)
    ensures Filled(before, after, lo, a + b)
  {
  }

  /** The `copy` built-in: `src` goes to `p` from `lo` on. */
  method CopyInto(p: array<byte>, lo: nat, src: Bytes)
    requires lo + |src| <= p.Length
    modifies p
    ensures Filled(old(p[..]), p[..], lo, src)
  {
    forall i | 0 <= i < |src| {
      p[lo + i] := src[i];
    }
  }

  class MemoryBuffer {
    var buf: Bytes
    var readPos: nat
    var closed: bool

    constructor ()
      ensures View() == Content([], 0) && !closed
    {
      buf, readPos, closed := [], 0, false;
    }

    ghost function View(): Content
      reads this
    {
      Content(buf, readPos)
    }

    method Write(p: Bytes) returns (n: nat, ok: bool)
      modifies this`buf
      ensures ok == !closed
      ensures n == if ok then |p| else 0
      ensures buf == if ok then old(buf) + p else old(buf)
    {
      if closed {
        return 0, false;
      }
      buf := buf + p;
      return |p|, true;
    }

    /** Reads into `p[lo..hi]`. */
    method Read(p: array<byte>, lo: nat, hi: nat) returns (n: nat, status: Status)
      requires lo <= hi <= p.Length
      modifies this`readPos, p
      ensures var d := ReadOf(Memory, old(View()), hi - lo);
              && n == |d.chunk| && status == d.status
              && Filled(old(p[..]), p[..], lo, d.chunk)
              && readPos == old(readPos) + n
    {
      hide Filled;
      if readPos >= |buf| {
        FilledNothing(p[..], lo);
        return 0, Eof;
      }
      n := Min(hi - lo, |buf| - readPos);
      CopyInto(p, lo, buf[readPos..readPos + n]);
      readPos := readPos + n;
      status := More;
    }

    /** A negative offset panics in the original, so callers never pass one. */
    method ReadAt(p: array<byte>, lo: nat, hi: nat, off: nat) returns (n: nat, status: Status)
      requires lo <= hi <= p.Length
      modifies p
      ensures var d := ReadAtOf(Memory, buf, hi - lo, off);
              && n == |d.chunk| && status == d.status
              && Filled(old(p[..]), p[..], lo, d.chunk)
    {
      hide Filled;
      if off >= |buf| {
        FilledNothing(p[..], lo);
        return 0, Eof;
      }
      n := Min(hi - lo, |buf| - off);
      CopyInto(p, lo, buf[off..off + n]);
      status := if n < hi - lo then Eof else More;
    }

    method Seek(offset: int, whence: int) returns (target: Option<nat>)
      modifies this`readPos
      ensures target == SeekTarget(old(readPos), |buf|, offset, whence)
      ensures readPos == if target.Some? then target.value else old(readPos)
    {
      var next: int;
      if whence == SEEK_START {
        next := offset;
      } else if whence == SEEK_CURRENT {
        next := readPos + offset;
      } else if whence == SEEK_END {
        next := |buf| + offset;
      } else {
        return None;
      }
      if next < 0 {
        return None;
      }
      readPos := next;
      return Some(next);
    }

    function Size(): nat
      reads this
    {
      |buf|
    }

    /** Closing stops writes only: the bytes stay readable. */
    method Close()
      modifies this`closed
      ensures closed
    {
      closed := true;
    }
  }

  class FileBuffer {
    const removable: bool   // whether closing and removing the temporary file will work
    var disk: Bytes         // the temporary file
    var size: nat
    var readPos: nat
    var closed: bool

    ghost predicate Valid()
      reads this
    {
      size == |disk|
    }

    constructor (removable: bool)
      ensures Valid() && View() == Content([], 0) && !closed && this.removable == removable
    {
      this.removable := removable;
      disk, size, readPos, closed := [], 0, 0, false;
    }

    ghost function View(): Content
      reads this
    {
      Content(disk, readPos)
    }

    /** `accepts` bounds what the disk takes: a full disk cuts the write short with an error. */
    method Write(p: Bytes, accepts: nat) returns (n: nat, ok: bool)
      requires Valid()
      modifies this`disk, this`size
      ensures Valid()
      ensures n == if closed then 0 else Min(|p|, accepts)
      ensures ok == (!closed && |p| <= accepts)
      ensures disk == old(disk) + p[..n]
    {
      if closed {
        return 0, false;
      }
      n := Min(|p|, accepts);
      disk := Transfer.WriteAt(disk, size, p[..n]);
      size := size + n;
      ok := n == |p|;
    }

    /** A closed file fails every read that asks for bytes. */
    method ReadAt(p: array<byte>, lo: nat, hi: nat, off: int) returns (n: nat, status: Status)
      requires Valid() && lo <= hi <= p.Length
      modifies p
      ensures var d := if off < 0 || (closed && lo < hi) then Delivery([], Broken)
                       else ReadAtOf(File, disk, hi - lo, off);
              && n == |d.chunk| && status == d.status
              && Filled(old(p[..]), p[..], lo, d.chunk)
    {
      hide Filled;
      FilledNothing(p[..], lo);
      if off < 0 {
        return 0, Broken;
      }
      if lo == hi {
        return 0, More;
      }
      if closed {
        return 0, Broken;
      }
      n := if off >= |disk| then 0 else Min(hi - lo, |disk| - off);
      if n > 0 {
        CopyInto(p, lo, disk[off..off + n]);
      }
      status := if n < hi - lo then Eof else More;
    }

    method Read(p: array<byte>, lo: nat, hi: nat) returns (n: nat, status: Status)
      requires Valid() && lo <= hi <= p.Length
      modifies this`readPos, p
      ensures Valid()
      ensures var d := if closed && lo < hi then Delivery([], Broken) else ReadOf(File, old(View()), hi - lo);
              && n == |d.chunk| && status == d.status
              && Filled(old(p[..]), p[..], lo, d.chunk)
              && readPos == old(readPos) + n
    {
      n, status := ReadAt(p, lo, hi, readPos);
      readPos := readPos + n;
    }

    method Seek(offset: int, whence: int) returns (target: Option<nat>)
      requires Valid()
      modifies this`readPos
      ensures Valid()
      ensures target == SeekTarget(old(readPos), |disk|, offset, whence)
      ensures readPos == if target.Some? then target.value else old(readPos)
    {
      var next: int;
      if whence == SEEK_START {
        next := offset;
      } else if whence == SEEK_CURRENT {
        next := readPos + offset;
      } else if whence == SEEK_END {
        next := size + offset;
      } else {
        return None;
      }
      if next < 0 {
        return None;
      }
      readPos := next;
      return Some(next);
    }

    function Size(): nat
      reads this
    {
      size
    }

    /** Removes the temporary file, or reports that it could not; closing again does nothing. */
    method Close() returns (ok: bool)
      modifies this`closed
      ensures closed
      ensures ok == (old(closed) || removable)
    {
      if closed {
        return true;
      }
      closed := true;
      return removable;
    }
  }

  // ============================================================ interchangeable

  datatype Op =
    | WriteOp(p: Bytes)
    | SeekOp(offset: int, whence: int)
    | ReadOp(room: nat)
    | ReadAtOp(room: nat, off: nat)

  datatype Step = Step(c: Content, d: Delivery)

  /** One operation on an open buffer, as the methods above perform it. */
  function Perform(medium: Medium, c: Content, op: Op): Step {
    match op
    case WriteOp(p) => Step(c.(data := c.data + p), Delivery([], More))
    case SeekOp(offset, whence) =>
      var t := SeekTarget(c.pos, |c.data|, offset, whence);
      if t.Some? then Step(c.(pos := t.value), Delivery([], More)) else Step(c, Delivery([], Broken))
    case ReadOp(room) =>
      var d := ReadOf(medium, c, room);
      Step(c.(pos := c.pos + |d.chunk|), d)
    case ReadAtOp(room, off) => Step(c, ReadAtOf(medium, c.data, room, off))
  }

  datatype Trace = Trace(c: Content, out: seq<Delivery>)

  function PerformAll(medium: Medium, c: Content, ops: seq<Op>): Trace
    decreases ops
  {
    if ops == [] then Trace(c, [])
    else
      var s := Perform(medium, c, ops[0]);
      var rest := PerformAll(medium, s.c, ops[1..]);
      Trace(rest.c, [s.d] + rest.out)
  }

  // What a read of `room` bytes delivers right after a seek.
  function SeekThenRead(medium: Medium, c: Content, offset: int, whence: int, room: nat): Bytes {
    Perform(medium, Perform(medium, c, SeekOp(offset, whence)).c, ReadOp(room)).d.chunk
  }

  /**
   What each whence means, by what is read next: 0 counts from the start, 2 from
   the end, 1 from the cursor, so that stepping back over a read repeats it.
   */
  lemma SeekMeans(medium: Medium, c: Content, n: nat, k: nat)
    requires k + n <= |c.data|
    ensures SeekThenRead(medium, c, k, 0, n) == c.data[k..k + n]
    ensures SeekThenRead(medium, c, -(n as int), 2, n) == c.data[|c.data| - n..]
    ensures var read := Perform(medium, c, ReadOp(n));
            SeekThenRead(medium, read.c, -(|read.d.chunk| as int), 1, n) == read.d.chunk
  {
    hide Slice;
    WholeSlice(c.data, n, k);
    var m := |c.data| - n;
    WholeSlice(c.data, n, m);
    assert c.data[m..] == c.data[m..m + n];
  }

  lemma WholeSlice(data: Bytes, room: nat, off: nat)
    requires off + room <= |data|
    ensures Slice(data, room, off) == data[off..off + room]
  {
  }

  /** A seek is refused exactly for an unknown whence and for a target before the start. */
  lemma SeekRefused(pos: nat, size: nat, offset: int, whence: int)
    ensures SeekTarget(pos, size, offset, whence).None? <==>
            || whence < 0 || whence > 2
            || (whence == 0 && offset < 0) || (whence == 1 && pos + offset < 0) || (whence == 2 && size + offset < 0)
  {
  }

  // Two deliveries of the same bytes; only where EOF is reported may differ.
  ghost predicate SameBytes(memory: Delivery, file: Delivery, op: Op) {
    && memory.chunk == file.chunk
    && (memory.status == Broken <==> file.status == Broken)
    // positioned reads of at least one byte agree on EOF as well
    && (op.ReadAtOp? && op.room > 0 ==> memory.status == file.status)
    // a memory EOF brings no bytes; a file EOF comes exactly with a short read
    && (op.ReadOp? && memory.status == Eof ==> memory.chunk == [] && (op.room > 0 ==> file.status == Eof))
    && (op.ReadOp? ==> (file.status == Eof <==> |file.chunk| < op.room))
  }

  /** Memory and file buffers deliver the same bytes and keep the same cursor, whatever is asked of them. */
  lemma {:induction false} Interchangeable(c: Content, ops: seq<Op>)
    ensures var m, f := PerformAll(Memory, c, ops), PerformAll(File, c, ops);
            && m.c == f.c && |m.out| == |f.out| == |ops|
            && forall i :: 0 <= i < |ops| ==> SameBytes(m.out[i], f.out[i], ops[i])
    decreases ops
  {
    if ops != [] {
      var s, t := Perform(Memory, c, ops[0]), Perform(File, c, ops[0]);
      assert s.c == t.c && SameBytes(s.d, t.d, ops[0]);
      Interchangeable(s.c, ops[1..]);
    }
  }
}
