/** The readers the pipeline is handed, behind one interface. */
module UploadReaders {
  import opened Base
  import opened Transfer
  import opened Outside
  import opened Buffers
  import opened Assembled
  import opened PipelineSpec

  // A read of up to `room` bytes put the next bytes of `left` at the front of the buffer.
  ghost predicate Took(left: Bytes, room: nat, buf: Bytes, n: nat) {
    n == Min(room, |left|) <= |buf| && buf[..n] == left[..n]
  }

  lemma FilledTakes(data: Bytes, pos: nat, room: nat, before: Bytes, after: Bytes)
    requires Filled(before, after, 0, Slice(data, room, pos))
    ensures Took(if pos <= |data| then data[pos..] else [], room, after, |Slice(data, room, pos)|)
  {
  }

  method ReadMemory(m: MemoryBuffer, p: array<byte>, room: nat) returns (n: nat, status: Status)
    requires room <= p.Length
    modifies m`readPos, p
    ensures var left := Reader(m.buf, old(m.readPos), true, MemoryKind).Left();
            && Took(left, room, p[..], n) && m.readPos == old(m.readPos) + n
            && (status == if left == [] then Eof else More)
  {
    n, status := m.Read(p, 0, room);
    FilledTakes(m.buf, old(m.readPos), room, old(p[..]), p[..]);
  }

  method ReadFile(f: FileBuffer, p: array<byte>, room: nat) returns (n: nat, status: Status)
    requires f.Valid() && !f.closed && room <= p.Length
    modifies f`readPos, p
    ensures f.Valid()
    ensures var left := Reader(f.disk, old(f.readPos), true, FileKind).Left();
            && Took(left, room, p[..], n) && f.readPos == old(f.readPos) + n
            && (status == if n < room then Eof else More)
  {
    n, status := f.Read(p, 0, room);
    FilledTakes(f.disk, old(f.readPos), room, old(p[..]), p[..]);
  }

  method ReadAssembled(a: AssembledReader, p: array<byte>, room: nat) returns (n: nat, status: Status)
    requires a.Valid() && a.Shows(a.views) && AllReadable(a.views) && room <= p.Length
    modifies a`pos, p
    ensures a.Valid() && a.Shows(a.views)
    ensures var left := Reader(Concat(a.views), old(a.pos), true, AssembledKind).Left();
            && Took(left, room, p[..], n) && a.pos == old(a.pos) + n
            && (room > 0 ==> status == if n < room then Eof else More)
  {
    hide a.Valid, a.Shows, AllReadable, Filled, Took;
    if room > 0 {
      ReadPartsSlices(a.views, room, a.pos);
    }
    n, status := a.Read(p, 0, room, a.views);
    FilledTakes(Concat(a.views), old(a.pos), room, old(p[..]), p[..]);
  }

  // What the world's answer makes of a read that took the next bytes.
  lemma ReadAnswered(r: Reader, plan: Plan, buf: Bytes, n: nat, status: Status)
    requires buf != [] && Took(r.Left(), Room(r.kind, |buf|, Next(plan)), buf, n)
    requires var room := Room(r.kind, |buf|, Next(plan));
             room > 0 ==> status == if EofNow(r.kind, n, |r.Left()|, room) then Eof else More
    ensures var rr := ReadStep(r, |buf|, plan);
            && n == |rr.chunk| <= |buf| && buf[..n] == rr.chunk
            && rr.r == r.(pos := r.pos + n) && rr.plan == Rest(plan)
            && rr.status == if Next(plan).Fail? && !r.kind.MemoryKind? then Broken else status
  {
  }

  /** A request body: one buffer or stream, or an assembly of multipart parts. */
  datatype Body = Whole(part: Part) | Parts(a: AssembledReader) {
    ghost function Footprint(): set<object> {
      match this
      case Whole(part) => part.Objects()
      case Parts(a) => {a} + a.PartObjects()
    }

    ghost function Cursor(): object {
      match this
      case Parts(a) => a
      case Whole(part) =>
        match part
        case InMemory(m) => m
        case OnDisk(f) => f
        case Streamed(s) => s
    }

    // Ready to be read; a buffer that is closed meanwhile shows up as a failing read.
    ghost predicate Valid()
      reads Footprint()
    {
      match this
      case Whole(part) => part.Valid() && (part.OnDisk? ==> !part.f.closed)
      case Parts(a) => a.Valid() && AllReadable(a.views) && a.Shows(a.views)
    }

    ghost function View(): (r: Reader)
      requires Valid()
      reads Footprint()
    {
      Reader(match this
             case Parts(a) => Concat(a.views)
             case Whole(part) => (match part
               case InMemory(m) => m.buf
               case OnDisk(f) => f.disk
               case Streamed(s) => s.body),
             match this
             case Parts(a) => a.pos
             case Whole(part) => (match part
               case InMemory(m) => m.readPos
               case OnDisk(f) => f.readPos
               case Streamed(s) => s.size),
             Seekable(), Kind())
    }

    predicate Seekable() {
      Parts? || !part.Streamed?
    }

    function Kind(): Kind {
      match this
      case Parts(a) => AssembledKind
      case Whole(part) =>
        match part
        case InMemory(m) => MemoryKind
        case OnDisk(f) => FileKind
        case Streamed(s) => StreamKind(s.eager)
    }

    method Size() returns (n: nat)
      requires Valid()
      ensures n == SizeOf(View())
    {
      match this
      case Parts(a) => n := a.size;
      case Whole(part) => n := part.Size();
    }

    /** `Read` of the underlying reader into the first `room` bytes of `p`. */
    method RawRead(p: array<byte>, room: nat) returns (n: nat, status: Status)
      requires Valid() && room <= p.Length
      modifies Cursor(), p
      ensures Valid()
      ensures var r := old(View());
              && Took(r.Left(), room, p[..], n)
              && View() == r.(pos := r.pos + n)
              && (room > 0 ==> status == if EofNow(r.kind, n, |r.Left()|, room) then Eof else More)
    {
      hide Took, Slice, Filled;
      match this
      case Parts(a) => n, status := ReadAssembled(a, p, room);
      case Whole(part) =>
        match part
        case InMemory(m) => n, status := ReadMemory(m, p, room);
        case OnDisk(f) => n, status := ReadFile(f, p, room);
        case Streamed(s) =>
          n, status := s.Read(p, 0, room);
          FilledTakes(s.body, old(s.size), room, old(p[..]), p[..]);
    }

    /** `Seek` from the start; only called on readers that offer it. */
    method SeekStart(offset: nat)
      requires Valid() && Seekable()
      modifies Cursor()
      ensures Valid() && View() == old(View()).(pos := offset)
    {
      var t;
      match this
      case Parts(a) => t := a.Seek(offset, SEEK_START);
      case Whole(part) =>
        match part
        case InMemory(m) => t := m.Seek(offset, SEEK_START);
        case OnDisk(f) => t := f.Seek(offset, SEEK_START);
    }

    /** `Read` while the world may make it fail or, for a stream, fall short. */
    method Read(w: World, p: array<byte>) returns (n: nat, status: Status)
      requires Valid() && p.Length > 0
      modifies w`plan, Cursor(), p
      ensures Valid()
      ensures var rr := ReadStep(old(View()), p.Length, old(w.plan));
              && n == |rr.chunk| <= p.Length && p[..n] == rr.chunk && status == rr.status
              && View() == rr.r && w.plan == rr.plan
    {
      hide Took, ReadStep, Valid, View;
      Separate(w);
      ghost var r, plan := View(), w.plan;
      ViewKind();
      var move := w.Answer();
      n, status := RawRead(p, Room(Kind(), p.Length, move));
      ReadAnswered(r, plan, p[..], n, status);
      if move.Fail? && !Kind().MemoryKind? {
        status := Broken;
      }
    }

    lemma ViewKind()
      requires Valid()
      ensures View().kind == Kind()
    {
    }

    // Neither the world nor a copy buffer nor a wrapper is part of a reader.
    lemma Separate(o: object)
      requires o is World || o is array<byte> || o is HashingReader
      ensures o !in Footprint()
    {
      if Parts? {
        assert forall i :: 0 <= i < |a.parts| ==> o !in a.parts[i].Objects();
      }
    }
  }

  /** Passes reads through and hashes what it passes; the body's `Seek` is hidden behind it. */
  class HashingReader {
    const inner: Body
    ghost const start: nat
    var absorbed: Bytes   // all that went into the two hash states
    var size: nat

    ghost predicate Valid()
      reads this, inner.Footprint()
    {
      && inner.Valid() && this !in inner.Footprint()
      && start <= inner.View().pos
      && absorbed == Absorbed(inner.View().(pos := start), inner.View())
      && size == |absorbed|
    }

    constructor (body: Body)
      requires body.Valid()
      ensures Valid() && inner == body && start == old(body.View()).pos && body.View() == old(body.View())
    {
      hide body.Valid, body.View, body.Footprint;
      inner, absorbed, size := body, [], 0;
      start := body.View().pos;
      new;
      body.Separate(this);
    }

    method Read(w: World, p: array<byte>) returns (n: nat, status: Status)
      requires Valid() && p.Length > 0
      modifies this`absorbed, this`size, w`plan, inner.Cursor(), p
      ensures Valid()
      ensures var rr := ReadStep(old(inner.View()), p.Length, old(w.plan));
              && n == |rr.chunk| <= p.Length && p[..n] == rr.chunk && status == rr.status
              && inner.View() == rr.r && w.plan == rr.plan
    {
      ghost var before := inner.View();
      AbsorbedStep(before.(pos := start), before, p.Length, w.plan);
      n, status := inner.Read(w, p);
      if n > 0 {
        absorbed := absorbed + p[..n];
        size := size + n;
      }
    }
  }

  lemma AbsorbedStep(from: Reader, r: Reader, cap: nat, plan: Plan)
    requires cap > 0 && r == from.(pos := r.pos) && from.pos <= r.pos
    ensures var rr := ReadStep(r, cap, plan);
            Absorbed(from, rr.r) == Absorbed(from, r) + rr.chunk
  {
    var rr := ReadStep(r, cap, plan);
    if r.pos <= |r.data| {
      var end := rr.r.pos;
      assert rr.chunk == r.data[r.pos..end];
      assert r.data[from.pos..end] == r.data[from.pos..r.pos] + r.data[r.pos..end];
    } else {
      assert rr.chunk == [];
    }
  }

  // The same reading through a wrapper that cannot seek.
  lemma ReadStepHidden(r: Reader, cap: nat, plan: Plan)
    requires cap > 0
    ensures var rr, hidden := ReadStep(r, cap, plan), ReadStep(r.(seekable := false), cap, plan);
            hidden == rr.(r := rr.r.(seekable := false))
  {
  }

  /** What the storage backend is handed. */
  datatype UploadReader = Plain(b: Body) | Hashing(h: HashingReader) {
    ghost function Footprint(): set<object> {
      match this
      case Plain(b) => b.Footprint()
      case Hashing(h) => {h} + h.inner.Footprint()
    }

    ghost function Cursors(): set<object> {
      match this
      case Plain(b) => {b.Cursor()}
      case Hashing(h) => {h, h.inner.Cursor()}
    }

    ghost predicate Valid()
      reads Footprint()
    {
      match this
      case Plain(b) => b.Valid()
      case Hashing(h) => h.Valid()
    }

    ghost function View(): Reader
      requires Valid()
      reads Footprint()
    {
      match this
      case Plain(b) => b.View()
      case Hashing(h) => h.inner.View().(seekable := false)
    }

    method Read(w: World, p: array<byte>) returns (n: nat, status: Status)
      requires Valid() && p.Length > 0
      modifies w`plan, Cursors(), p
      ensures Valid()
      ensures var rr := ReadStep(old(View()), p.Length, old(w.plan));
              && n == |rr.chunk| <= p.Length && p[..n] == rr.chunk && status == rr.status
              && View() == rr.r && w.plan == rr.plan
    {
      hide ReadStep;
      match this
      case Plain(b) => n, status := b.Read(w, p);
      case Hashing(h) =>
        ReadStepHidden(h.inner.View(), p.Length, w.plan);
        n, status := h.Read(w, p);
    }

    predicate Seekable() {
      Plain? && b.Seekable()
    }

    /** Moves the cursor if the reader can seek; otherwise only offset 0 is accepted, and nothing moves. */
    method SeekTo(offset: nat) returns (ok: bool)
      requires Valid()
      modifies Cursors()
      ensures Valid()
      ensures ok == (old(View()).seekable || offset == 0)
      ensures View() == if old(View()).seekable then old(View()).(pos := offset) else old(View())
    {
      if Seekable() {
        b.SeekStart(offset);
        return true;
      }
      return offset == 0;
    }

    lemma Separate(o: object)
      requires o is World || o is array<byte>
      ensures o !in Footprint()
    {
      match this
      case Plain(b) => b.Separate(o);
      case Hashing(h) => h.inner.Separate(o);
    }
  }
}
