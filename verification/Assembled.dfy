/**
 Many parts read as one: `AssembledReader` over the concatenation of its parts,
 and the streamed request body, which can only be read forward.
 */
module Assembled {
  import opened Base
  import opened Buffers

  /** What a reader sees of one part: the bytes it counts on, and whether they can still be read. */
  datatype PartView = PartView(data: Bytes, readable: bool)

  function Concat(parts: seq<PartView>): Bytes {
    if parts == [] then [] else parts[0].data + Concat(parts[1..])
  }

  // `content` is the pieces one after another, piece `k` from `at[k]` to `at[k + 1]`.
  ghost predicate LaidOut(content: Bytes, pieces: seq<Bytes>, at: seq<nat>) {
    && |at| == |pieces| + 1 && at[0] == 0 && at[|pieces|] == |content|
    && forall k :: 0 <= k < |pieces| ==>
         at[k + 1] == at[k] + |pieces[k]| <= |content| && content[at[k]..at[k + 1]] == pieces[k]
  }

  ghost predicate IsConcatenation(content: Bytes, pieces: seq<Bytes>) {
    exists at: seq<nat> :: LaidOut(content, pieces, at)
  }

  lemma LayAhead(head: Bytes, content: Bytes, pieces: seq<Bytes>, at: seq<nat>)
    requires LaidOut(content, pieces, at)
    ensures LaidOut(head + content, [head] + pieces, [0] + seq(|at|, k requires 0 <= k < |at| => |head| + at[k]))
  {
    var more := [0] + seq(|at|, k requires 0 <= k < |at| => |head| + at[k]);
    var all := [head] + pieces;
    forall k | 0 <= k < |all|
      ensures more[k + 1] == more[k] + |all[k]| <= |head + content| && (head + content)[more[k]..more[k + 1]] == all[k]
    {
      if k > 0 {
        assert all[k] == pieces[k - 1];
        assert (head + content)[more[k]..more[k + 1]] == content[at[k - 1]..at[k]];
      }
    }
  }

  /** The concatenation has the bytes of each part in its place, in the order of the list. */
  lemma {:induction false} ConcatLaysOut(parts: seq<PartView>, pieces: seq<Bytes>)
    requires |pieces| == |parts| && forall k :: 0 <= k < |parts| ==> pieces[k] == parts[k].data
    ensures IsConcatenation(Concat(parts), pieces)
  {
    if parts == [] {
      assert LaidOut([], pieces, [0]);
    } else {
      ConcatLaysOut(parts[1..], pieces[1..]);
      var at: seq<nat> :| LaidOut(Concat(parts[1..]), pieces[1..], at);
      LayAhead(pieces[0], Concat(parts[1..]), pieces[1..], at);
      assert [pieces[0]] + pieces[1..] == pieces;
    }
  }

  /** Pieces in order make up one content only. */
  lemma {:induction false} ConcatenationUnique(a: Bytes, b: Bytes, pieces: seq<Bytes>)
    requires IsConcatenation(a, pieces) && IsConcatenation(b, pieces)
    ensures a == b
  {
    var at: seq<nat> :| LaidOut(a, pieces, at);
    var bt: seq<nat> :| LaidOut(b, pieces, bt);
    SamePlaces(a, b, pieces, at, bt, |pieces|);
    assert a[..|a|] == a && b[..|b|] == b;
  }

  lemma {:induction false} SamePlaces(a: Bytes, b: Bytes, pieces: seq<Bytes>, at: seq<nat>, bt: seq<nat>, n: nat)
    requires LaidOut(a, pieces, at) && LaidOut(b, pieces, bt) && n <= |pieces|
    ensures at[n] == bt[n] <= |a| && bt[n] <= |b| && a[..at[n]] == b[..bt[n]]
  {
    if n > 0 {
      SamePlaces(a, b, pieces, at, bt, n - 1);
      assert at[n - 1 + 1] == at[n - 1] + |pieces[n - 1]|;
      assert a[..at[n]] == a[..at[n - 1]] + a[at[n - 1]..at[n]];
      assert b[..bt[n]] == b[..bt[n - 1]] + b[bt[n - 1]..bt[n]];
    }
  }

  // An empty part is never read, so it need not be readable.
  predicate AllReadable(parts: seq<PartView>) {
    forall i :: 0 <= i < |parts| ==> parts[i].readable || parts[i].data == []
  }

  /** `AssembledReader.ReadAt` into `room > 0` bytes: walk to the part at `off`, then on from part to part. */
  function ReadParts(parts: seq<PartView>, room: nat, off: nat): Delivery {
    if parts == [] then Delivery([], Eof)
    else
      var data := parts[0].data;
      if off >= |data| then ReadParts(parts[1..], room, off - |data|)
      else if !parts[0].readable then Delivery([], Broken)
      else
        var chunk := Slice(data, room, off);
        if |chunk| == room then Delivery(chunk, More)
        else
          var d := ReadParts(parts[1..], room - |chunk|, 0);
          d.(chunk := chunk + d.chunk)
  }

  lemma SliceBounds(data: Bytes, room: nat, off: nat)
    ensures |Slice(data, room, off)| <= room
    ensures off >= |data| || room == 0 ==> Slice(data, room, off) == []
    ensures off < |data| && room > 0 ==> Slice(data, room, off) != []
  {
  }

  lemma SliceSkip(a: Bytes, b: Bytes, room: nat, off: nat)
    requires off >= |a|
    ensures Slice(a + b, room, off) == Slice(b, room, off - |a|)
  {
  }

  lemma SliceWithin(a: Bytes, b: Bytes, room: nat, off: nat)
    requires off < |a|
    ensures var c := Slice(a, room, off); Slice(a + b, room, off) == c + Slice(b, room - |c|, 0)
  {
    var c := Slice(a, room, off);
    if |c| == room {
      assert Slice(a + b, room, off) == c;
    } else {
      var d := Slice(b, room - |c|, 0);
      assert (a + b)[off..off + |c| + |d|] == c + d;
    }
  }

  lemma SliceSplit(data: Bytes, first: nat, more: nat, pos: nat)
    ensures Slice(data, first, pos) + Slice(data, more, pos + |Slice(data, first, pos)|) == Slice(data, first + more, pos)
  {
  }

  /**
   Reading the parts is reading their concatenation: every delivered byte is the
   right one, EOF comes exactly with a short read, and only an unreadable part
   among those touched can break a read.
   */
  lemma {:induction false} ReadPartsSlices(parts: seq<PartView>, room: nat, off: nat)
    requires room > 0
    ensures var d, whole := ReadParts(parts, room, off), Slice(Concat(parts), room, off);
            && d.chunk <= whole
            && (d.status != Broken ==> d == Delivery(whole, if |whole| < room then Eof else More))
            && (d.status == Broken ==> |d.chunk| < |whole| && !AllReadable(parts))
  {
    hide Slice;
    SliceBounds(Concat(parts), room, off);
    if parts != [] {
      var data := parts[0].data;
      var rest := Concat(parts[1..]);
      SliceBounds(data, room, off);
      if off >= |data| {
        ReadPartsSlices(parts[1..], room, off - |data|);
        SliceSkip(data, rest, room, off);
      } else {
        SliceWithin(data, rest, room, off);
        var chunk := Slice(data, room, off);
        SliceBounds(rest, room - |chunk|, 0);
        if parts[0].readable && |chunk| < room {
          ReadPartsSlices(parts[1..], room - |chunk|, 0);
        }
      }
    }
  }

  /** Consecutive `Read`s, with any buffer sizes, starting at `pos`. */
  function ReadAll(parts: seq<PartView>, pos: nat, rooms: seq<nat>): Bytes
    decreases rooms
  {
    if rooms == [] then []
    else
      var d := ReadParts(parts, rooms[0], pos);
      d.chunk + ReadAll(parts, pos + |d.chunk|, rooms[1..])
  }

  function Sum(rooms: seq<nat>): nat {
    if rooms == [] then 0 else rooms[0] + Sum(rooms[1..])
  }

  // One read, then the rest: how `ReadAll` and its result unfold.
  lemma ReadAllStep(parts: seq<PartView>, pos: nat, rooms: seq<nat>, rest: Bytes)
    requires AllReadable(parts) && rooms != [] && rooms[0] > 0
    requires var n := |Slice(Concat(parts), rooms[0], pos)|;
             rest == Slice(Concat(parts), Sum(rooms[1..]), pos + n) == ReadAll(parts, pos + n, rooms[1..])
    ensures ReadAll(parts, pos, rooms) == Slice(Concat(parts), Sum(rooms), pos)
  {
    hide ReadParts, Concat, Slice;
    ReadPartsSlices(parts, rooms[0], pos);
    SliceSplit(Concat(parts), rooms[0], Sum(rooms[1..]), pos);
  }

  /** After any seek, reads of any positive sizes yield the concatenation from there on, without gap or repeat. */
  lemma {:induction false} ReadAllIsSuffix(parts: seq<PartView>, pos: nat, rooms: seq<nat>)
    requires AllReadable(parts) && forall i :: 0 <= i < |rooms| ==> rooms[i] > 0
    ensures ReadAll(parts, pos, rooms) == Slice(Concat(parts), Sum(rooms), pos)
    decreases rooms
  {
    hide ReadParts, Concat, Slice;
    SliceBounds(Concat(parts), 0, pos);
    if rooms != [] {
      var n := |Slice(Concat(parts), rooms[0], pos)|;
      ReadAllIsSuffix(parts, pos + n, rooms[1..]);
      ReadAllStep(parts, pos, rooms, ReadAll(parts, pos + n, rooms[1..]));
    }
  }

  // -------------------------------------------------------------- the readers

  /** A request body passed straight through: `body` is what the client will send. */
  class StreamingReader {
    const body: Bytes
    const eager: bool   // whether EOF comes together with the last bytes
    var size: nat

    ghost predicate Valid()
      reads this
    {
      size <= |body|
    }

    constructor (body: Bytes, eager: bool)
      ensures Valid() && size == 0 && this.body == body && this.eager == eager
    {
      this.body, this.eager, size := body, eager, 0;
    }

    method Read(p: array<byte>, lo: nat, hi: nat) returns (n: nat, status: Status)
      requires Valid() && lo <= hi <= p.Length
      modifies this`size, p
      ensures Valid()
      ensures n == |Slice(body, hi - lo, old(size))| && size == old(size) + n
      ensures Filled(old(p[..]), p[..], lo, Slice(body, hi - lo, old(size)))
      ensures status == if size == |body| && (eager || n == 0) then Eof else More
    {
      hide Filled;
      n := Min(hi - lo, |body| - size);
      CopyInto(p, lo, body[size..size + n]);
      size := size + n;
      status := if size == |body| && (eager || n == 0) then Eof else More;
    }
  }

  // A read of `room` bytes from one part into a caller's buffer at `lo`: the right bytes, or nothing and an error.
  ghost predicate Served(v: PartView, room: nat, off: nat, before: Bytes, after: Bytes, lo: nat, n: nat,
                         status: Status) {
    && n <= room
    && if !v.readable then n == 0 && status == Broken && after == before
       else status != Broken && n == |Slice(v.data, room, off)| && Filled(before, after, lo, Slice(v.data, room, off))
  }

  /** The upload readers a part may be; only the two buffers offer `ReadAt`. */
  datatype Part = InMemory(m: MemoryBuffer) | OnDisk(f: FileBuffer) | Streamed(s: StreamingReader) {
    ghost predicate Valid()
      reads Objects()
    {
      match this
      case InMemory(m) => true
      case OnDisk(f) => f.Valid()
      case Streamed(s) => s.Valid()
    }

    ghost function Objects(): set<object> {
      match this
      case InMemory(m) => {m}
      case OnDisk(f) => {f}
      case Streamed(s) => {s}
    }

    function Size(): nat
      reads Objects()
    {
      match this
      case InMemory(m) => m.Size()
      case OnDisk(f) => f.Size()
      case Streamed(s) => s.size
    }

    ghost function Data(): Bytes
      reads Objects()
    {
      match this
      case InMemory(m) => m.buf
      case OnDisk(f) => f.disk
      case Streamed(s) => if s.size <= |s.body| then s.body[..s.size] else s.body
    }

    ghost predicate Readable()
      reads Objects()
    {
      match this
      case InMemory(m) => true
      case OnDisk(f) => !f.closed
      case Streamed(s) => false
    }

    method ReadAt(p: array<byte>, lo: nat, hi: nat, off: nat) returns (n: nat, status: Status)
      requires Valid() && lo < hi <= p.Length
      modifies p
      ensures var d := if !Readable() then Delivery([], Broken)
                       else ReadAtOf(if InMemory? then Memory else File, Data(), hi - lo, off);
              && n == |d.chunk| && status == d.status
              && Filled(old(p[..]), p[..], lo, d.chunk)
    {
      match this
      case InMemory(m) => n, status := m.ReadAt(p, lo, hi, off);
      case OnDisk(f) => n, status := f.ReadAt(p, lo, hi, off);
      case Streamed(s) =>
        n, status := 0, Broken;
        FilledNothing(p[..], lo);
    }

    /** A read clipped to the first `size` bytes of the part. */
    method ReadWithin(p: array<byte>, lo: nat, hi: nat, off: nat, size: nat, ghost data: Bytes)
      returns (n: nat, status: Status)
      requires Valid() && lo < hi <= p.Length && off < size == |data| && data <= Data()
      modifies p
      ensures Served(PartView(data, Readable()), hi - lo, off, old(p[..]), p[..], lo, n, status)
    {
      var limit := Min(hi - lo, size - off);
      assert Slice(Data(), limit, off) == Slice(data, hi - lo, off);
      hide Slice;
      n, status := ReadAt(p, lo, lo + limit, off);
    }

    // The objects whose `closed` flag `Close` sets.
    ghost function Memories(): set<MemoryBuffer> {
      if InMemory? then {m} else {}
    }

    ghost function Files(): set<FileBuffer> {
      if OnDisk? then {f} else {}
    }

    // Closing this part now would report an error.
    ghost predicate Resists()
      reads Objects()
    {
      OnDisk? && !f.closed && !f.removable
    }

    method Close() returns (ok: bool)
      modifies Memories()`closed, Files()`closed
      ensures Closed()
      ensures ok == !old(Resists())
    {
      ok := true;
      match this
      case InMemory(m) => m.Close();
      case OnDisk(f) => ok := f.Close();
      case Streamed(s) =>
    }

    ghost predicate Closed()
      reads Objects()
    {
      match this
      case InMemory(m) => m.closed
      case OnDisk(f) => f.closed
      case Streamed(s) => true
    }
  }

  lemma {:induction false} ConcatLength(views: seq<PartView>, sizes: seq<nat>)
    requires |views| == |sizes| && forall i :: 0 <= i < |views| ==> |views[i].data| == sizes[i]
    ensures |Concat(views)| == Sum(sizes)
  {
    if views != [] {
      ConcatLength(views[1..], sizes[1..]);
    }
  }

  lemma {:induction false} ConcatSame(v: seq<PartView>, w: seq<PartView>)
    requires |v| == |w| && forall i :: 0 <= i < |v| ==> v[i].data == w[i].data
    ensures Concat(v) == Concat(w)
  {
    if v != [] {
      ConcatSame(v[1..], w[1..]);
    }
  }

  function Prepend(chunk: Bytes, d: Delivery): Delivery {
    d.(chunk := chunk + d.chunk)
  }

  // What the loop of `ReadAt` still has to deliver from the `i`-th part on.
  function Remaining(views: seq<PartView>, i: nat, room: nat, off: nat): Delivery
    requires i <= |views|
  {
    ReadParts(views[i..], room, off)
  }

  lemma NothingRemains(views: seq<PartView>, room: nat, off: nat, got: Bytes)
    ensures Prepend(got, Remaining(views, |views|, room, off)) == Delivery(got, Eof)
  {
    assert got + [] == got;
  }

  lemma SkipPart(views: seq<PartView>, i: nat, room: nat, off: nat)
    requires i < |views| && off >= |views[i].data|
    ensures Remaining(views, i, room, off) == Remaining(views, i + 1, room, off - |views[i].data|)
  {
    assert views[i..][1..] == views[i + 1..];
  }

  lemma TakePart(views: seq<PartView>, i: nat, room: nat, off: nat, got: Bytes)
    requires i < |views| && off < |views[i].data|
    ensures var chunk := Slice(views[i].data, room, off);
            Prepend(got, Remaining(views, i, room, off)) ==
              if !views[i].readable then Delivery(got, Broken)
              else if |chunk| == room then Delivery(got + chunk, More)
              else Prepend(got + chunk, Remaining(views, i + 1, room - |chunk|, 0))
  {
    assert views[i..][1..] == views[i + 1..];
    var chunk := Slice(views[i].data, room, off);
    assert got + [] == got;
    if views[i].readable && |chunk| < room {
      var d := Remaining(views, i + 1, room - |chunk|, 0);
      assert Remaining(views, i, room, off) == Prepend(chunk, d);
      assert got + (chunk + d.chunk) == (got + chunk) + d.chunk;
    }
  }

  /** `ReadAt` of the whole, with its early exits. */
  function AssembledReadAt(views: seq<PartView>, room: nat, off: int): Delivery {
    if room == 0 then Delivery([], More)
    else if off < 0 then Delivery([], Broken)
    else if off >= |Concat(views)| then Delivery([], Eof)
    else ReadParts(views, room, off)
  }

  class AssembledReader {
    const parts: seq<Part>
    const sizes: seq<nat>
    const size: nat
    ghost const views: seq<PartView>   // the parts as they were when the reader was made
    var pos: nat

    ghost function PartObjects(): set<object> {
      set i, o | 0 <= i < |parts| && o in parts[i].Objects() :: o
    }

    // Neither a caller's buffer nor an assembled reader is one of the parts.
    lemma NotAPart(o: object)
      requires o is array<byte> || o is AssembledReader
      ensures o !in PartObjects()
    {
    }

    // Parts may grow or be closed later; the bytes recorded here stay where they are.
    ghost predicate Valid()
      reads PartObjects()
    {
      && |sizes| == |parts| == |views|
      && size == |Concat(views)|
      && forall i :: 0 <= i < |parts| ==>
           parts[i].Valid() && |views[i].data| == sizes[i] && views[i].data <= parts[i].Data()
    }

    // `now` is what the parts look like at present: the recorded bytes, readable or not.
    ghost predicate Shows(now: seq<PartView>)
      reads PartObjects()
    {
      && |now| == |parts| == |views|
      && forall i :: 0 <= i < |parts| ==> now[i] == PartView(views[i].data, parts[i].Readable())
    }

    /** Sizes are taken part by part and added up. */
    constructor (parts: seq<Part>, ghost now: seq<PartView>)
      requires |now| == |parts|
      requires forall i :: 0 <= i < |parts| ==>
                 parts[i].Valid() && now[i] == PartView(parts[i].Data(), parts[i].Readable())
      ensures Valid() && pos == 0 && this.parts == parts && views == now
    {
      var ss: seq<nat> := [];
      var total := 0;
      for i := 0 to |parts|
        invariant |ss| == i && forall k :: 0 <= k < i ==> ss[k] == |now[k].data|
        invariant total == Sum(ss)
      {
        SumSnoc(ss, parts[i].Size());
        ss := ss + [parts[i].Size()];
        total := total + parts[i].Size();
      }
      ConcatLength(now, ss);
      this.parts, sizes, size, pos, views := parts, ss, total, 0, now;
      new;
      forall i | 0 <= i < |parts|
        ensures parts[i].Valid() && now[i].data == parts[i].Data()
      {
        assert old(parts[i].Valid()) && now[i].data == old(parts[i].Data());
      }
    }

    method ReadAt(p: array<byte>, lo: nat, hi: nat, off: int, ghost now: seq<PartView>)
      returns (written: nat, status: Status)
      requires Valid() && Shows(now) && lo <= hi <= p.Length
      modifies p
      ensures Valid() && Shows(now)
      ensures var d := AssembledReadAt(now, hi - lo, off);
              && written == |d.chunk| && status == d.status
              && Filled(old(p[..]), p[..], lo, d.chunk)
    {
      hide Valid, Shows, Filled, ReadParts, Slice, Concat;
      Recorded(now);
      FilledNothing(p[..], lo);
      if lo == hi {
        return 0, More;
      }
      if off < 0 {
        return 0, Broken;
      }
      if off >= size {
        return 0, Eof;
      }
      ghost var got: Bytes := [];
      assert now[0..] == now;
      ghost var all := Remaining(now, 0, hi - lo, off);
      written := 0;
      var rel: nat := off;
      var i := 0;
      while i < |parts|
        invariant 0 <= i <= |parts| && Valid() && Shows(now)
        invariant written == |got| && written < hi - lo
        invariant all == Prepend(got, Remaining(now, i, hi - lo - written, rel))
        invariant Filled(old(p[..]), p[..], lo, got)
      {
        ReadyToRead(i, now);
        var partSize := sizes[i];
        if rel >= partSize {
          SkipPart(now, i, hi - lo - written, rel);
          rel := rel - partSize;
        } else {
          TakePart(now, i, hi - lo - written, rel, got);
          if parts[i].Streamed? {
            return written, Broken;
          }
          ghost var mid := p[..];
          ghost var chunk := Slice(now[i].data, hi - lo - written, rel);
          var n, st := ReadPart(i, p, lo + written, hi, rel, now);
          if st == Broken {
            return written, Broken;
          }
          FilledTwice(old(p[..]), mid, p[..], lo, got, chunk);
          got := got + chunk;
          written := written + n;
          rel := 0;
          if written == hi - lo {
            return written, More;
          }
        }
        i := i + 1;
      }
      NothingRemains(now, hi - lo - written, rel, got);
      return written, Eof;
    }

    method ReadPart(i: nat, p: array<byte>, lo: nat, hi: nat, rel: nat, ghost now: seq<PartView>)
      returns (n: nat, status: Status)
      requires Valid() && Shows(now) && i < |parts| && lo < hi <= p.Length && rel < sizes[i]
      modifies p
      ensures Valid() && Shows(now)
      ensures Served(now[i], hi - lo, rel, old(p[..]), p[..], lo, n, status)
    {
      hide Valid, Shows, Served;
      ReadyToRead(i, now);
      NotAPart(p);
      n, status := parts[i].ReadWithin(p, lo, hi, rel, sizes[i], now[i].data);
    }

    lemma Recorded(now: seq<PartView>)
      requires Valid() && Shows(now)
      ensures |now| == |parts| == |sizes| && size == |Concat(now)|
    {
      ConcatSame(now, views);
    }

    lemma ReadyToRead(i: nat, now: seq<PartView>)
      requires Valid() && Shows(now) && i < |parts|
      ensures |now| == |parts| == |sizes|
      ensures parts[i].Valid() && |now[i].data| == sizes[i] && now[i].data <= parts[i].Data()
      ensures now[i].readable == parts[i].Readable()
    {
    }

    method Read(p: array<byte>, lo: nat, hi: nat, ghost now: seq<PartView>) returns (n: nat, status: Status)
      requires Valid() && Shows(now) && lo <= hi <= p.Length
      modifies this`pos, p
      ensures Valid() && Shows(now)
      ensures var d := AssembledReadAt(now, hi - lo, old(pos));
              && n == |d.chunk| && status == d.status && pos == old(pos) + n
              && Filled(old(p[..]), p[..], lo, d.chunk)
    {
      hide Valid, Shows, AssembledReadAt, Filled;
      NotAPart(this);
      n, status := ReadAt(p, lo, hi, pos, now);
      pos := pos + n;
    }

    method Seek(offset: int, whence: int) returns (target: Option<nat>)
      requires Valid()
      modifies this`pos
      ensures Valid()
      ensures target == SeekTarget(old(pos), |Concat(views)|, offset, whence)
      ensures pos == if target.Some? then target.value else old(pos)
    {
      var next: int;
      if whence == SEEK_START {
        next := offset;
      } else if whence == SEEK_CURRENT {
        next := pos + offset;
      } else if whence == SEEK_END {
        next := size + offset;
      } else {
        return None;
      }
      if next < 0 {
        return None;
      }
      pos := next;
      return Some(next);
    }

    ghost function Memories(): set<MemoryBuffer> {
      set i | 0 <= i < |parts| && parts[i].InMemory? :: parts[i].m
    }

    ghost function Files(): set<FileBuffer> {
      set i | 0 <= i < |parts| && parts[i].OnDisk? :: parts[i].f
    }

    /** Closes every part and nothing else, and returns the first error, as the number of its part. */
    method Close() returns (err: Option<nat>)
      modifies Memories()`closed, Files()`closed
      ensures forall i :: 0 <= i < |parts| ==> parts[i].Closed()
      ensures match err
              case None => forall i :: 0 <= i < |parts| ==> !old(parts[i].Resists())
              case Some(i) => i < |parts| && old(parts[i].Resists())
                              && forall k :: 0 <= k < i ==> !old(parts[k].Resists())
    {
      err := None;
      for i := 0 to |parts|
        invariant forall k :: 0 <= k < i ==> parts[k].Closed()
        invariant err.None? ==>
                    && (forall k :: 0 <= k < i ==> !old(parts[k].Resists()))
                    && (forall k :: i <= k < |parts| ==> parts[k].Resists() == old(parts[k].Resists()))
        invariant err.Some? ==>
                    && err.value < i && old(parts[err.value].Resists())
                    && forall k :: 0 <= k < err.value ==> !old(parts[k].Resists())
      {
        var ok := parts[i].Close();
        if err.None? && !ok {
          err := Some(i);
        }
      }
    }
  }

  lemma {:induction false} SumSnoc(s: seq<nat>, x: nat)
    ensures Sum(s + [x]) == Sum(s) + x
  {
    if s == [] {
      assert s + [x] == [x];
    } else {
      SumSnoc(s[1..], x);
      assert (s + [x])[1..] == s[1..] + [x];
    }
  }
}
