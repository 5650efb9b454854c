/**
 Multipart uploads as interleaved steps: parts are uploaded and replaced, sessions
 completed and aborted, buffers closed, and all of it at once.
 */
module Multipart {
  import opened Base
  import opened Sorting
  import opened Buffers
  import opened Assembled
  import Transfer

  type Sid = nat
  type Pid = nat
  type BufId = nat

  /** A part's buffer; `sealed` once its writer is done with it. */
  datatype Buf = Buf(onDisk: bool, data: Bytes, closed: bool, sealed: bool)

  datatype PartInfo = PartInfo(size: nat, buf: BufId)

  datatype Session = Session(key: string, parts: map<int, PartInfo>)

  /** What a request handler has in hand between two steps. */
  datatype Proc =
    // looked up, not yet with a buffer
    | Preparing(sid: Sid, number: int)
    | Uploading(sid: Sid, number: int, buf: BufId)
    // looked up, not yet with a list of numbers
    | Looking(sid: Sid)
    | Listing(sid: Sid, nums: seq<int>)
    // inside Process: a cursor over the snapshot, the object written so far, and what it is to become
    | Assembling(sid: Sid, snap: seq<PartInfo>, promise: Bytes, pos: nat, written: Bytes)
    | Stored(sid: Sid, snap: seq<PartInfo>, promise: Bytes, written: Bytes)
    | Aborting(sid: Sid)
    | Clearing(sid: Sid, snap: seq<PartInfo>, result: Option<Bytes>)
    | Closing(snap: seq<PartInfo>, result: Option<Bytes>)
    | Finished(result: Option<Bytes>)

  /** `registered` are the sessions that can still be looked up; a handler may hold one longer. */
  datatype State = State(sessions: map<Sid, Session>, registered: set<Sid>, bufs: map<BufId, Buf>, procs: map<Pid, Proc>)

  const INIT := State(map[], {}, map[], map[])

  datatype Step =
    | Create(sid: Sid, key: string)
    | BeginPart(pid: Pid, sid: Sid, number: int)
    | OpenBuffer(pid: Pid, buf: BufId, onDisk: bool)
    | CopyChunk(pid: Pid, chunk: Bytes)
    | DropPart(pid: Pid, copyFailed: bool)
    | PublishPart(pid: Pid)
    | BeginComplete(pid: Pid, sid: Sid)
    | ListParts(pid: Pid, requested: seq<int>, nums: seq<int>)
    | Refuse(pid: Pid)
    | TakeSnapshot(pid: Pid)
    | StartUpload(pid: Pid)
    | ResumeUpload(pid: Pid, sizeKnown: bool)
    | SendChunk(pid: Pid, room: nat)
    | Succeed(pid: Pid)
    | GiveUp(pid: Pid)
    | Unregister(pid: Pid)
    | BeginAbort(pid: Pid, sid: Sid)
    | CloseParts(pid: Pid)
    | CloseNext(pid: Pid)

  // ------------------------------------------------------- the critical sections

  // The numbers a completion works through: those the client lists, or else all
  // uploaded so far, in ascending order.
  ghost predicate Requested(session: Session, requested: seq<int>, nums: seq<int>) {
    && Sorted(nums, Ascending)
    && if requested != [] then multiset(nums) == multiset(requested)
       else Distinct(nums) && (forall n :: n in nums <==> n in session.parts)
  }

  predicate Ascending(a: int, b: int) {
    a <= b
  }

  /** The parts with these numbers, in this order, if all of them are there. */
  function SnapshotOf(session: Session, nums: seq<int>): Option<seq<PartInfo>> {
    if nums == [] then Some([])
    else if nums[0] !in session.parts then None
    else
      var rest := SnapshotOf(session, nums[1..]);
      if rest.None? then None else Some([session.parts[nums[0]]] + rest.value)
  }

  /**
   What a completion finds: nothing exactly if some listed number has no part,
   and otherwise the part of each listed number, in the order of the list.
   */
  lemma {:induction false} SnapshotExactly(session: Session, nums: seq<int>)
    ensures var snap := SnapshotOf(session, nums);
            && (snap.None? <==> exists k :: 0 <= k < |nums| && nums[k] !in session.parts)
            && (snap.Some? ==>
                  |snap.value| == |nums|
                  && forall k :: 0 <= k < |nums| ==>
                       nums[k] in session.parts && snap.value[k] == session.parts[nums[k]])
  {
    if nums != [] {
      SnapshotExactly(session, nums[1..]);
      assert forall k :: 0 < k < |nums| ==> nums[k] == nums[1..][k - 1];
      if nums[0] in session.parts && exists k :: 0 <= k < |nums| && nums[k] !in session.parts {
        var k :| 0 <= k < |nums| && nums[k] !in session.parts;
        assert nums[1..][k - 1] == nums[k];
      }
    }
  }

  function Close(bufs: map<BufId, Buf>, b: BufId): map<BufId, Buf> {
    if b in bufs then bufs[b := bufs[b].(closed := true)] else bufs
  }

  function CloseAll(bufs: map<BufId, Buf>, ids: set<BufId>): map<BufId, Buf> {
    map b | b in bufs :: if b in ids then bufs[b].(closed := true) else bufs[b]
  }

  function PartBufs(session: Session): set<BufId> {
    set n | n in session.parts :: session.parts[n].buf
  }

  /** Storing a part: the one it replaces is closed. */
  function Replace(s: State, sid: Sid, number: int, buf: BufId): State
    requires sid in s.sessions && buf in s.bufs
  {
    var session := s.sessions[sid];
    var bufs := if number in session.parts then Close(s.bufs, session.parts[number].buf) else s.bufs;
    s.(bufs := bufs[buf := bufs[buf].(sealed := true)],
       sessions := s.sessions[sid := session.(parts := session.parts[number := PartInfo(|s.bufs[buf].data|, buf)])])
  }

  // How the assembled reader sees the snapshot now: a closed temporary file cannot be read.
  function Views(bufs: map<BufId, Buf>, snap: seq<PartInfo>): (v: seq<PartView>)
    ensures |v| == |snap|
  {
    if snap == [] then []
    else
      var b := snap[0].buf;
      [if b in bufs then PartView(bufs[b].data, !(bufs[b].onDisk && bufs[b].closed)) else PartView([], false)]
      + Views(bufs, snap[1..])
  }

  lemma {:induction false} ViewAt(bufs: map<BufId, Buf>, snap: seq<PartInfo>, i: nat)
    requires i < |snap|
    ensures var b := snap[i].buf;
            Views(bufs, snap)[i] ==
            if b in bufs then PartView(bufs[b].data, !(bufs[b].onDisk && bufs[b].closed)) else PartView([], false)
  {
    if i > 0 {
      ViewAt(bufs, snap[1..], i - 1);
    }
  }

  function Content(bufs: map<BufId, Buf>, snap: seq<PartInfo>): Bytes {
    Concat(Views(bufs, snap))
  }

  // ----------------------------------------------------------------- the steps

  ghost predicate Enabled(s: State, step: Step) {
    match step
    case Create(sid, _) => sid !in s.sessions
    case BeginPart(pid, sid, number) => pid !in s.procs && sid in s.registered && number > 0
    case OpenBuffer(pid, buf, _) => pid in s.procs && s.procs[pid].Preparing? && buf !in s.bufs
    case CopyChunk(pid, _) =>
      pid in s.procs && s.procs[pid].Uploading? && s.procs[pid].buf in s.bufs && !s.bufs[s.procs[pid].buf].closed
    case DropPart(pid, _) => pid in s.procs && s.procs[pid].Uploading?
    case PublishPart(pid) =>
      pid in s.procs && s.procs[pid].Uploading? && s.procs[pid].buf in s.bufs && s.procs[pid].sid in s.sessions
    case BeginComplete(pid, sid) => pid !in s.procs && sid in s.registered
    case ListParts(pid, requested, nums) =>
      && pid in s.procs && s.procs[pid].Looking? && s.procs[pid].sid in s.sessions
      && Requested(s.sessions[s.procs[pid].sid], requested, nums)
    case Refuse(pid) => pid in s.procs && (s.procs[pid].Preparing? || s.procs[pid].Listing?)
    case TakeSnapshot(pid) => pid in s.procs && s.procs[pid].Listing? && s.procs[pid].sid in s.sessions
    case StartUpload(pid) => pid in s.procs && s.procs[pid].Assembling?
    case ResumeUpload(pid, _) => pid in s.procs && s.procs[pid].Assembling?
    case SendChunk(pid, room) => pid in s.procs && s.procs[pid].Assembling? && room > 0
    // the pipeline reports success only after the reader reported its end
    case Succeed(pid) =>
      pid in s.procs && s.procs[pid].Assembling? && s.procs[pid].pos >= |Content(s.bufs, s.procs[pid].snap)|
    case GiveUp(pid) => pid in s.procs && s.procs[pid].Assembling?
    case Unregister(pid) => pid in s.procs && (s.procs[pid].Stored? || s.procs[pid].Aborting?)
    case BeginAbort(pid, sid) => pid !in s.procs && sid in s.registered
    case CloseParts(pid) => pid in s.procs && s.procs[pid].Clearing?
    case CloseNext(pid) => pid in s.procs && s.procs[pid].Closing?
  }

  function Put(s: State, pid: Pid, p: Proc): State {
    s.(procs := s.procs[pid := p])
  }

  ghost function Apply(s: State, step: Step): State
    requires Enabled(s, step)
  {
    match step
    case Create(sid, key) => s.(sessions := s.sessions[sid := Session(key, map[])], registered := s.registered + {sid})
    case BeginPart(pid, sid, number) => Put(s, pid, Preparing(sid, number))
    case OpenBuffer(pid, buf, onDisk) =>
      var p := s.procs[pid];
      Put(s.(bufs := s.bufs[buf := Buf(onDisk, [], false, false)]), pid, Uploading(p.sid, p.number, buf))
    case CopyChunk(pid, chunk) =>
      var b := s.procs[pid].buf;
      s.(bufs := s.bufs[b := s.bufs[b].(data := s.bufs[b].data + chunk)])
    // a failed copy closes the buffer, a failed hash check leaves it open
    case DropPart(pid, copyFailed) =>
      Put(if copyFailed then s.(bufs := Close(s.bufs, s.procs[pid].buf)) else s, pid, Finished(None))
    // whether the session is still registered is not asked again
    case PublishPart(pid) =>
      var p := s.procs[pid];
      Put(Replace(s, p.sid, p.number, p.buf), pid, Finished(None))
    case BeginComplete(pid, sid) => Put(s, pid, Looking(sid))
    case ListParts(pid, _, nums) => Put(s, pid, Listing(s.procs[pid].sid, nums))
    // no buffer to be had, or the content hash of the request is wrong
    case Refuse(pid) => Put(s, pid, Finished(None))
    case TakeSnapshot(pid) =>
      var p := s.procs[pid];
      var snap := SnapshotOf(s.sessions[p.sid], p.nums);
      Put(s, pid, if snap.None? then Finished(None)
                  else Assembling(p.sid, snap.value, Content(s.bufs, snap.value), 0, []))
    // the first attempt truncates; a resumed one continues at the stored size, or at 0 if that is unknown
    case StartUpload(pid) => Put(s, pid, s.procs[pid].(pos := 0, written := []))
    case ResumeUpload(pid, sizeKnown) =>
      Put(s, pid, s.procs[pid].(pos := if sizeKnown then |s.procs[pid].written| else 0))
    case SendChunk(pid, room) =>
      var p := s.procs[pid];
      var d := AssembledReadAt(Views(s.bufs, p.snap), room, p.pos);
      Put(s, pid, p.(pos := p.pos + |d.chunk|, written := Transfer.WriteAt(p.written, p.pos, d.chunk)))
    case Succeed(pid) =>
      var p := s.procs[pid];
      Put(s, pid, Stored(p.sid, p.snap, p.promise, p.written))
    case GiveUp(pid) => Put(s, pid, Closing(s.procs[pid].snap, None))
    case Unregister(pid) =>
      var p := s.procs[pid];
      Put(s.(registered := s.registered - {p.sid}), pid,
          if p.Stored? then Clearing(p.sid, p.snap, Some(p.written)) else Clearing(p.sid, [], None))
    case BeginAbort(pid, sid) => Put(s, pid, Aborting(sid))
    case CloseParts(pid) =>
      var p := s.procs[pid];
      var ids := if p.sid in s.sessions then PartBufs(s.sessions[p.sid]) else {};
      Put(s.(bufs := CloseAll(s.bufs, ids)), pid, Closing(p.snap, p.result))
    // the assembled reader closes its parts one by one, under no lock
    case CloseNext(pid) =>
      var p := s.procs[pid];
      if p.snap == [] then Put(s, pid, Finished(p.result))
      else Put(s.(bufs := Close(s.bufs, p.snap[0].buf)), pid, Closing(p.snap[1..], p.result))
  }

  /** Any interleaving; a step that is not enabled does nothing. */
  ghost function Run(steps: seq<Step>): State {
    if steps == [] then INIT
    else
      var s := Run(steps[..|steps| - 1]);
      var step := steps[|steps| - 1];
      if Enabled(s, step) then Apply(s, step) else s
  }

  // ============================================================== the invariant

  predicate SealedPart(s: State, p: PartInfo) {
    p.buf in s.bufs && s.bufs[p.buf].sealed && p.size == |s.bufs[p.buf].data|
  }

  ghost predicate SessionsOk(s: State) {
    forall sid :: sid in s.sessions ==>
      forall n :: n in s.sessions[sid].parts ==> SealedPart(s, s.sessions[sid].parts[n])
  }

  // Buffer `b` is part `n` of session `sid`, which somebody may still hold although it is gone from the table.
  ghost predicate IsPart(s: State, sid: Sid, n: int, b: BufId) {
    sid in s.sessions && n in s.sessions[sid].parts && s.sessions[sid].parts[n].buf == b
  }

  ghost predicate PartsDistinct(s: State) {
    forall sid, n, sid', n', b :: IsPart(s, sid, n, b) && IsPart(s, sid', n', b) ==> sid == sid' && n == n'
  }

  predicate Fills(p: Proc, b: BufId) {
    p.Uploading? && p.buf == b
  }

  ghost predicate UploadsOk(s: State) {
    && (forall p, b :: p in s.procs && Fills(s.procs[p], b) ==>
          b in s.bufs && !s.bufs[b].sealed && !s.bufs[b].closed)
    && (forall p, q, b :: p in s.procs && q in s.procs && Fills(s.procs[p], b) && Fills(s.procs[q], b) ==> p == q)
  }

  predicate SnapOk(s: State, snap: seq<PartInfo>) {
    forall i :: 0 <= i < |snap| ==> SealedPart(s, snap[i])
  }

  predicate HasSnapshot(p: Proc) {
    p.Assembling? || p.Stored? || p.Clearing? || p.Closing?
  }

  ghost predicate ProcOk(s: State, p: Proc) {
    match p
    case Preparing(sid, _) => sid in s.sessions
    case Uploading(sid, _, _) => sid in s.sessions
    case Looking(sid) => sid in s.sessions
    case Aborting(sid) => sid in s.sessions
    case Listing(sid, nums) => sid in s.sessions && Sorted(nums, Ascending)
    case Assembling(sid, snap, promise, pos, written) =>
      && sid in s.sessions && SnapOk(s, snap) && Content(s.bufs, snap) == promise
      && written <= promise && pos <= |written|
    case Stored(sid, snap, promise, written) => sid in s.sessions && SnapOk(s, snap) && written == promise
    case Clearing(sid, snap, _) => sid in s.sessions && SnapOk(s, snap)
    case Closing(snap, _) => SnapOk(s, snap)
    case Finished(_) => true
  }

  ghost predicate ProcsOk(s: State) {
    forall p :: p in s.procs ==> ProcOk(s, s.procs[p])
  }

  ghost predicate Inv(s: State) {
    s.registered <= s.sessions.Keys && SessionsOk(s) && PartsDistinct(s) && UploadsOk(s) && ProcsOk(s)
  }

  // Sealed buffers keep their bytes; they may only be closed.
  ghost predicate Grows(bufs: map<BufId, Buf>, bufs': map<BufId, Buf>) {
    forall b :: b in bufs && bufs[b].sealed ==>
      b in bufs' && bufs'[b].sealed && bufs'[b].data == bufs[b].data && bufs'[b].onDisk == bufs[b].onDisk
  }

  lemma StepGrows(s: State, step: Step)
    requires Enabled(s, step) && UploadsOk(s)
    ensures Grows(s.bufs, Apply(s, step).bufs)
    ensures s.sessions.Keys <= Apply(s, step).sessions.Keys
  {
    hide Apply, Enabled, UploadsOk, Close, CloseAll;
    forall b | b in s.bufs && s.bufs[b].sealed
      ensures var t := Apply(s, step);
              && b in t.bufs && t.bufs[b].sealed
              && t.bufs[b].data == s.bufs[b].data && t.bufs[b].onDisk == s.bufs[b].onDisk
    {
      MoverFillsNo(s, step, b);
      SealedStays(s, step, b);
    }
    SessionsStay(s, step);
  }

  lemma MoverFillsNo(s: State, step: Step, b: BufId)
    requires Enabled(s, step) && UploadsOk(s) && b in s.bufs && s.bufs[b].sealed
    ensures Mover(step).Some? && step.pid in s.procs ==> !Fills(s.procs[step.pid], b)
  {
    hide Enabled;
  }

  lemma SealedStays(s: State, step: Step, b: BufId)
    requires Enabled(s, step) && b in s.bufs && s.bufs[b].sealed
    requires Mover(step).Some? && step.pid in s.procs ==> !Fills(s.procs[step.pid], b)
    ensures var t := Apply(s, step);
            b in t.bufs && t.bufs[b].sealed && t.bufs[b].data == s.bufs[b].data && t.bufs[b].onDisk == s.bufs[b].onDisk
  {
    hide AssembledReadAt, SnapshotOf, Requested, Views, Content;
  }

  lemma SessionsStay(s: State, step: Step)
    requires Enabled(s, step)
    ensures s.sessions.Keys <= Apply(s, step).sessions.Keys
  {
    hide AssembledReadAt, SnapshotOf, Requested, Views, Content, CloseAll, Close;
  }

  lemma SnapStays(s: State, t: State, snap: seq<PartInfo>)
    requires SnapOk(s, snap) && Grows(s.bufs, t.bufs)
    ensures SnapOk(t, snap)
  {
    forall i | 0 <= i < |snap| ensures SealedPart(t, snap[i]) {
      assert SealedPart(s, snap[i]);
    }
  }

  lemma {:induction false} ContentStays(s: State, t: State, snap: seq<PartInfo>)
    requires SnapOk(s, snap) && Grows(s.bufs, t.bufs)
    ensures Content(t.bufs, snap) == Content(s.bufs, snap)
  {
    if snap != [] {
      assert SealedPart(s, snap[0]);
      assert forall i :: 0 <= i < |snap| - 1 ==> snap[1..][i] == snap[i + 1];
      ContentStays(s, t, snap[1..]);
    }
  }

  lemma ProcStays(s: State, t: State, p: Proc)
    requires ProcOk(s, p) && Grows(s.bufs, t.bufs) && s.sessions.Keys <= t.sessions.Keys
    ensures ProcOk(t, p)
  {
    if HasSnapshot(p) {
      SnapStays(s, t, p.snap);
      if p.Assembling? {
        ContentStays(s, t, p.snap);
      }
    }
  }

  lemma {:induction false} SnapshotSealed(s: State, session: Session, nums: seq<int>)
    requires forall n :: n in session.parts ==> SealedPart(s, session.parts[n])
    ensures SnapshotOf(session, nums).Some? ==>
              |SnapshotOf(session, nums).value| == |nums| && SnapOk(s, SnapshotOf(session, nums).value)
  {
    if nums != [] && nums[0] in session.parts && SnapshotOf(session, nums[1..]).Some? {
      SnapshotSealed(s, session, nums[1..]);
      var rest := SnapshotOf(session, nums[1..]).value;
      var snap := [session.parts[nums[0]]] + rest;
      forall i | 0 <= i < |snap| ensures SealedPart(s, snap[i]) {
        assert i == 0 || snap[i] == rest[i - 1];
      }
    }
  }

  lemma {:induction false} UnreadableIsClosedFile(bufs: map<BufId, Buf>, snap: seq<PartInfo>)
    requires forall i :: 0 <= i < |snap| ==> snap[i].buf in bufs
    requires !AllReadable(Views(bufs, snap))
    ensures exists p :: p in snap && bufs[p.buf].onDisk && bufs[p.buf].closed
  {
    if snap != [] {
      var b := bufs[snap[0].buf];
      if b.onDisk && b.closed {
        assert snap[0] in snap;
      } else {
        var v := Views(bufs, snap);
        assert v[1..] == Views(bufs, snap[1..]);
        var i :| 0 <= i < |v| && !v[i].readable;
        assert v[1..][i - 1] == v[i];
        UnreadableIsClosedFile(bufs, snap[1..]);
        var p :| p in snap[1..] && bufs[p.buf].onDisk && bufs[p.buf].closed;
        assert p in snap;
      }
    }
  }

  /** A read during assembly never lies: it delivers the right next bytes, or fails on a closed temporary file. */
  lemma ReadsNeverLie(s: State, snap: seq<PartInfo>, room: nat, pos: nat)
    requires SnapOk(s, snap) && room > 0
    ensures var d, want := AssembledReadAt(Views(s.bufs, snap), room, pos), Slice(Content(s.bufs, snap), room, pos);
            && d.chunk <= want
            && (d.status != Broken ==> d.chunk == want)
            && (d.status == Broken ==> exists p :: p in snap && s.bufs[p.buf].onDisk && s.bufs[p.buf].closed)
  {
    hide ReadParts, Concat, Slice;
    ReadPartsSlices(Views(s.bufs, snap), room, pos);
    EmptySlice(Content(s.bufs, snap), room, pos);
    forall i | 0 <= i < |snap| ensures snap[i].buf in s.bufs {
      assert SealedPart(s, snap[i]);
    }
    if !AllReadable(Views(s.bufs, snap)) {
      UnreadableIsClosedFile(s.bufs, snap);
    }
  }

  lemma EmptySlice(data: Bytes, room: nat, pos: nat)
    ensures pos >= |data| ==> Slice(data, room, pos) == []
    ensures var c := Slice(data, room, pos); pos + |c| <= Max(pos, |data|) && (c != [] ==> c == data[pos..pos + |c|])
  {
  }

  // ------------------------------------------------------- every step keeps it

  lemma SendKeeps(s: State, p: Proc, room: nat)
    requires p.Assembling? && ProcOk(s, p) && room > 0
    ensures var d := AssembledReadAt(Views(s.bufs, p.snap), room, p.pos);
            ProcOk(s, p.(pos := p.pos + |d.chunk|, written := Transfer.WriteAt(p.written, p.pos, d.chunk)))
  {
    hide AssembledReadAt, Content, Slice, SnapOk;
    ReadsNeverLie(s, p.snap, room, p.pos);
    EmptySlice(Content(s.bufs, p.snap), room, p.pos);
    var d := AssembledReadAt(Views(s.bufs, p.snap), room, p.pos);
    ChunkOf(p.promise, p.pos, d.chunk, Slice(p.promise, room, p.pos));
    Transfer.WriteKeepsPrefix(p.written, p.pos, d.chunk, p.promise);
  }

  /**
   A resumed attempt that knows the stored length goes on behind it: with the
   parts readable, the next read of `room` bytes appends as much of what is
   missing.
   */
  lemma ResumeAppends(s: State, pid: Pid, room: nat)
    requires Inv(s) && pid in s.procs && s.procs[pid].Assembling? && room > 0
    requires AllReadable(Views(s.bufs, s.procs[pid].snap))
    ensures var t := Apply(s, ResumeUpload(pid, true));
            var u := Apply(t, SendChunk(pid, room));
            var written, promise := s.procs[pid].written, s.procs[pid].promise;
            u.procs[pid].written == promise[..Min(|promise|, |written| + room)]
  {
    hide AssembledReadAt, Inv, Views, Concat, Slice, SnapOk, AllReadable;
    var p := s.procs[pid];
    InvProc(s, pid);
    ResumedRead(Views(s.bufs, p.snap), room, |p.written|);
    var n := Min(|p.promise|, |p.written| + room);
    assert p.promise[..|p.written|] + p.promise[|p.written|..n] == p.promise[..n];
  }

  lemma ResumedRead(views: seq<PartView>, room: nat, pos: nat)
    requires AllReadable(views) && room > 0 && pos <= |Concat(views)|
    ensures AssembledReadAt(views, room, pos).chunk == Concat(views)[pos..Min(|Concat(views)|, pos + room)]
  {
    hide ReadParts, Concat, AllReadable;
    ReadPartsSlices(views, room, pos);
  }

  lemma ChunkOf(data: Bytes, pos: nat, chunk: Bytes, slice: Bytes)
    requires chunk <= slice && pos <= |data| && pos + |slice| <= |data|
    requires slice != [] ==> slice == data[pos..pos + |slice|]
    ensures chunk == data[pos..pos + |chunk|]
  {
  }

  // A step publishes its handler's buffer as part `n` of session `sid`.
  ghost predicate Publishes(s: State, step: Step, sid: Sid, n: int)
    requires Enabled(s, step)
  {
    step.PublishPart? && s.procs[step.pid].sid == sid && s.procs[step.pid].number == n
  }

  // What becomes of one part in one step.
  lemma PartStep(s: State, step: Step, sid: Sid, n: int, b: BufId)
    requires Enabled(s, step)
    ensures IsPart(Apply(s, step), sid, n, b)
            <==> if Publishes(s, step, sid, n) then s.procs[step.pid].buf == b else IsPart(s, sid, n, b)
  {
    hide AssembledReadAt, SnapshotOf, Requested, Views, CloseAll;
  }

  lemma StepSessions(s: State, step: Step)
    requires Inv(s) && Enabled(s, step)
    ensures SessionsOk(Apply(s, step)) && Apply(s, step).registered <= Apply(s, step).sessions.Keys
  {
    hide ProcsOk, PartsDistinct, UploadsOk, Apply, Enabled, SealedPart;
    InvUploads(s);
    StepGrows(s, step);
    var t := Apply(s, step);
    forall sid, n | sid in t.sessions && n in t.sessions[sid].parts
      ensures SealedPart(t, t.sessions[sid].parts[n])
    {
      if sid in s.sessions && n in s.sessions[sid].parts && t.sessions[sid].parts[n] == s.sessions[sid].parts[n] {
        SealedPartStays(s, t, s.sessions[sid].parts[n]);
      } else {
        NewPartSealed(s, step, sid, n);
      }
    }
    RegisteredKnown(s, step);
  }

  lemma SealedPartStays(s: State, t: State, p: PartInfo)
    requires SealedPart(s, p) && Grows(s.bufs, t.bufs)
    ensures SealedPart(t, p)
  {
  }

  // A part that was not there before has just been published.
  lemma NewPartSealed(s: State, step: Step, sid: Sid, n: int)
    requires Enabled(s, step)
    requires sid in Apply(s, step).sessions && n in Apply(s, step).sessions[sid].parts
    requires sid in s.sessions && n in s.sessions[sid].parts ==>
               Apply(s, step).sessions[sid].parts[n] != s.sessions[sid].parts[n]
    ensures SealedPart(Apply(s, step), Apply(s, step).sessions[sid].parts[n])
  {
    hide AssembledReadAt, SnapshotOf, Requested, Views, Content, CloseAll;
  }

  lemma RegisteredKnown(s: State, step: Step)
    requires Enabled(s, step) && s.registered <= s.sessions.Keys
    ensures Apply(s, step).registered <= Apply(s, step).sessions.Keys
  {
    hide AssembledReadAt, SnapshotOf, Requested, Views, Content, CloseAll, Close;
  }

  // A part is sealed, so nobody is filling it.
  lemma PartNotFilled(s: State, sid: Sid, n: int, pid: Pid)
    requires Inv(s) && pid in s.procs && s.procs[pid].Uploading?
    ensures !IsPart(s, sid, n, s.procs[pid].buf)
  {
    hide ProcsOk;
    assert Fills(s.procs[pid], s.procs[pid].buf);
    assert sid in s.sessions && n in s.sessions[sid].parts ==> SealedPart(s, s.sessions[sid].parts[n]);
  }

  lemma StepDistinct(s: State, step: Step)
    requires Inv(s) && Enabled(s, step)
    ensures PartsDistinct(Apply(s, step))
  {
    hide ProcsOk, SessionsOk, UploadsOk, Apply, Enabled, IsPart;
    var t := Apply(s, step);
    forall sid, n, sid', n', b | IsPart(t, sid, n, b) && IsPart(t, sid', n', b)
      ensures sid == sid' && n == n'
    {
      PartStep(s, step, sid, n, b);
      PartStep(s, step, sid', n', b);
      if step.PublishPart? {
        PublisherUploads(s, step);
        PartNotFilled(s, sid, n, step.pid);
        PartNotFilled(s, sid', n', step.pid);
      }
    }
  }

  lemma PublisherUploads(s: State, step: Step)
    requires Enabled(s, step) && step.PublishPart?
    ensures step.pid in s.procs && s.procs[step.pid].Uploading?
  {
  }

  // What a step leaves alone: an open, unsealed buffer that is not its own handler's.
  lemma UnsealedStays(s: State, step: Step, b: BufId)
    requires Inv(s) && Enabled(s, step) && b in s.bufs && !s.bufs[b].sealed
    requires Mover(step).Some? && step.pid in s.procs ==> !Fills(s.procs[step.pid], b)
    ensures var t := Apply(s, step); b in t.bufs && t.bufs[b] == s.bufs[b]
  {
    hide AssembledReadAt, SnapshotOf, Requested, Views, PartsDistinct, UploadsOk;
    if Mover(step).Some? && step.pid in s.procs {
      var p := s.procs[step.pid];
      assert ProcOk(s, p);
      if step.CloseNext? && p.snap != [] {
        assert SealedPart(s, p.snap[0]);
      }
      if step.PublishPart? && p.number in s.sessions[p.sid].parts {
        assert SealedPart(s, s.sessions[p.sid].parts[p.number]);
      }
      if step.CloseParts? {
        assert forall n :: n in s.sessions[p.sid].parts ==> SealedPart(s, s.sessions[p.sid].parts[n]);
      }
    }
  }

  // One handler filling a buffer, before and after a step.
  lemma FillStep(s: State, step: Step, pid: Pid, b: BufId)
    requires Inv(s) && Enabled(s, step) && pid in Apply(s, step).procs && Fills(Apply(s, step).procs[pid], b)
    ensures var t := Apply(s, step);
            && b in t.bufs && !t.bufs[b].sealed && !t.bufs[b].closed
            && if b in s.bufs then pid in s.procs && Fills(s.procs[pid], b) else Mover(step) == Some(pid)
  {
    hide ProcsOk, SessionsOk, PartsDistinct, AssembledReadAt, SnapshotOf, Requested, Views, CloseAll;
    if Mover(step) != Some(pid) {
      OthersStay(s, step, pid);
      UnsealedStays(s, step, b);
    }
  }

  lemma StepUploads(s: State, step: Step)
    requires Inv(s) && Enabled(s, step)
    ensures UploadsOk(Apply(s, step))
  {
    hide Apply, Enabled, ProcsOk, SessionsOk, PartsDistinct;
    var t := Apply(s, step);
    forall p, b | p in t.procs && Fills(t.procs[p], b)
      ensures b in t.bufs && !t.bufs[b].sealed && !t.bufs[b].closed
    {
      FillStep(s, step, p, b);
    }
    forall p, q, b | p in t.procs && q in t.procs && Fills(t.procs[p], b) && Fills(t.procs[q], b)
      ensures p == q
    {
      FillStep(s, step, p, b);
      FillStep(s, step, q, b);
    }
  }

  // The handler a step moves.
  function Mover(step: Step): Option<Pid> {
    if step.Create? then None else Some(step.pid)
  }

  lemma OthersStay(s: State, step: Step, p: Pid)
    requires Enabled(s, step) && Mover(step) != Some(p)
    ensures p in Apply(s, step).procs <==> p in s.procs
    ensures p in s.procs ==> Apply(s, step).procs[p] == s.procs[p]
  {
    hide AssembledReadAt, SnapshotOf, Requested;
  }

  lemma MovedOk(s: State, step: Step, t: State)
    requires Enabled(s, step) && Mover(step).Some? && t == Apply(s, step)
    requires step.pid in s.procs ==> ProcOk(s, s.procs[step.pid])
    requires s.registered <= s.sessions.Keys
    requires step.TakeSnapshot? ==> var p := s.procs[step.pid]; SnapshotOk(s, p.sid, p.nums)
    ensures step.pid in t.procs && ProcOk(s, t.procs[step.pid])
  {
    hide Apply, Enabled, ProcOk, SnapOk;
    if step.pid in s.procs && HasSnapshot(s.procs[step.pid]) {
      MovedOnOk(s, step, t);
    } else {
      MovedInOk(s, step, t);
    }
  }

  // Up to the snapshot.
  lemma MovedInOk(s: State, step: Step, t: State)
    requires Enabled(s, step) && Mover(step).Some? && t == Apply(s, step)
    requires step.pid in s.procs ==> ProcOk(s, s.procs[step.pid]) && !HasSnapshot(s.procs[step.pid])
    requires s.registered <= s.sessions.Keys
    requires step.TakeSnapshot? ==> var p := s.procs[step.pid]; SnapshotOk(s, p.sid, p.nums)
    ensures step.pid in t.procs && ProcOk(s, t.procs[step.pid])
  {
    hide AssembledReadAt, SnapshotOf, Content, SnapOk, CloseAll, Close;
    EmptySnapOk(s);
  }

  // From the snapshot on.
  lemma MovedOnOk(s: State, step: Step, t: State)
    requires Enabled(s, step) && Mover(step).Some? && t == Apply(s, step)
    requires step.pid in s.procs && ProcOk(s, s.procs[step.pid]) && HasSnapshot(s.procs[step.pid])
    ensures step.pid in t.procs && ProcOk(s, t.procs[step.pid])
  {
    hide AssembledReadAt, SnapshotOf, Content, SnapOk, CloseAll, Close, Requested;
    if step.SendChunk? {
      SendKeeps(s, s.procs[step.pid], step.room);
    }
    if step.CloseNext? && s.procs[step.pid].snap != [] {
      SnapTail(s, s.procs[step.pid].snap);
    }
  }

  // What a completion finds is sealed.
  ghost predicate SnapshotOk(s: State, sid: Sid, nums: seq<int>) {
    && sid in s.sessions
    && (SnapshotOf(s.sessions[sid], nums).Some? ==> SnapOk(s, SnapshotOf(s.sessions[sid], nums).value))
  }

  lemma InvProc(s: State, pid: Pid)
    requires Inv(s) && pid in s.procs
    ensures ProcOk(s, s.procs[pid])
  {
  }

  lemma InvSessions(s: State)
    requires Inv(s)
    ensures s.registered <= s.sessions.Keys
  {
  }

  lemma TakeKeeps(s: State, sid: Sid, nums: seq<int>)
    requires Inv(s) && sid in s.sessions
    ensures SnapshotOk(s, sid, nums)
  {
    hide SnapOk, SnapshotOf, ProcsOk, UploadsOk, PartsDistinct;
    SnapshotSealed(s, s.sessions[sid], nums);
  }

  lemma InvUploads(s: State)
    requires Inv(s)
    ensures UploadsOk(s)
  {
  }

  lemma TakesFromSession(s: State, step: Step)
    requires Enabled(s, step) && step.TakeSnapshot?
    ensures step.pid in s.procs && s.procs[step.pid].Listing? && s.procs[step.pid].sid in s.sessions
  {
  }

  lemma EmptySnapOk(s: State)
    ensures SnapOk(s, [])
  {
  }

  lemma SnapTail(s: State, snap: seq<PartInfo>)
    requires SnapOk(s, snap) && snap != []
    ensures SnapOk(s, snap[1..])
  {
    assert forall i :: 0 <= i < |snap| - 1 ==> snap[1..][i] == snap[i + 1];
  }

  lemma StepProcs(s: State, step: Step)
    requires Inv(s) && Enabled(s, step)
    ensures ProcsOk(Apply(s, step))
  {
    hide ProcOk, Apply, Enabled, Inv, SnapshotOk;
    InvUploads(s);
    InvSessions(s);
    StepGrows(s, step);
    var t := Apply(s, step);
    forall p | p in t.procs ensures ProcOk(t, t.procs[p]) {
      if Mover(step) == Some(p) {
        if p in s.procs {
          InvProc(s, p);
        }
        if step.TakeSnapshot? {
          TakesFromSession(s, step);
          TakeKeeps(s, s.procs[p].sid, s.procs[p].nums);
        }
        MovedOk(s, step, t);
        ProcStays(s, t, t.procs[p]);
      } else {
        OthersStay(s, step, p);
        InvProc(s, p);
        ProcStays(s, t, t.procs[p]);
      }
    }
  }

  /** Whatever is interleaved, the invariant holds. */
  lemma {:induction false} RunInv(steps: seq<Step>)
    ensures Inv(Run(steps))
  {
    if steps != [] {
      var before, step := steps[..|steps| - 1], steps[|steps| - 1];
      RunInv(before);
      if Enabled(Run(before), step) {
        StepSessions(Run(before), step);
        StepDistinct(Run(before), step);
        StepUploads(Run(before), step);
        StepProcs(Run(before), step);
      }
    }
  }

  // =============================================================== the results

  /** The bytes a handler's work stands for, from its snapshot on. */
  function Claim(p: Proc): Option<Bytes> {
    match p
    case Assembling(_, _, promise, _, _) => Some(promise)
    case Stored(_, _, promise, _) => Some(promise)
    case Clearing(_, _, result) => result
    case Closing(_, result) => result
    case Finished(result) => result
    case _ => None
  }

  // Piece `k` is what the buffer of part `nums[k]` holds at this moment.
  ghost predicate HeldBy(s: State, sid: Sid, nums: seq<int>, pieces: seq<Bytes>) {
    && sid in s.sessions && |pieces| == |nums|
    && forall k :: 0 <= k < |nums| ==>
         && nums[k] in s.sessions[sid].parts && s.sessions[sid].parts[nums[k]].buf in s.bufs
         && pieces[k] == s.bufs[s.sessions[sid].parts[nums[k]].buf].data
  }

  // `content` is what the parts of the listed numbers hold, one after another in ascending order, at this moment.
  ghost predicate HoldsNow(s: State, pid: Pid, content: Bytes) {
    && pid in s.procs && s.procs[pid].Listing?
    && (forall j, k :: 0 <= j < k < |s.procs[pid].nums| ==> s.procs[pid].nums[j] <= s.procs[pid].nums[k])
    && exists pieces: seq<Bytes> ::
         HeldBy(s, s.procs[pid].sid, s.procs[pid].nums, pieces) && IsConcatenation(content, pieces)
  }

  lemma SnapshotHolds(s: State, pid: Pid, snap: seq<PartInfo>)
    requires Inv(s) && pid in s.procs && s.procs[pid].Listing? && s.procs[pid].sid in s.sessions
    requires SnapshotOf(s.sessions[s.procs[pid].sid], s.procs[pid].nums) == Some(snap)
    ensures HoldsNow(s, pid, Content(s.bufs, snap))
  {
    hide SnapshotOf, Views, Concat, IsConcatenation, ProcsOk, SessionsOk, UploadsOk, PartsDistinct;
    var sid, nums := s.procs[pid].sid, s.procs[pid].nums;
    InvProc(s, pid);
    TakeKeeps(s, sid, nums);
    SnapshotExactly(s.sessions[sid], nums);
    var views := Views(s.bufs, snap);
    var pieces := seq(|nums|, k requires 0 <= k < |nums| => views[k].data);
    forall k | 0 <= k < |nums|
      ensures s.sessions[sid].parts[nums[k]].buf in s.bufs
      ensures pieces[k] == s.bufs[s.sessions[sid].parts[nums[k]].buf].data
    {
      assert SealedPart(s, snap[k]);
      ViewAt(s.bufs, snap, k);
    }
    ConcatLaysOut(views, pieces);
    assert forall j, k :: 0 <= j < k < |nums| ==> Ascending(nums[j], nums[k]);
    assert HeldBy(s, sid, nums, pieces);
  }

  // A step changes a claim only by making one, from what the parts hold at that moment.
  lemma ClaimStep(s: State, step: Step, pid: Pid)
    requires Inv(s) && Enabled(s, step)
    requires pid in Apply(s, step).procs && Claim(Apply(s, step).procs[pid]).Some?
    ensures var claim := Claim(Apply(s, step).procs[pid]);
            || (pid in s.procs && Claim(s.procs[pid]) == claim)
            || (step == TakeSnapshot(pid) && HoldsNow(s, pid, claim.value))
  {
    hide AssembledReadAt, SnapshotOf, Content, SnapOk, Inv, Requested, HoldsNow;
    if Mover(step) != Some(pid) {
      OthersStay(s, step, pid);
    } else if pid in s.procs {
      InvProc(s, pid);
      if step.TakeSnapshot? {
        var snap := SnapshotOf(s.sessions[s.procs[pid].sid], s.procs[pid].nums);
        if snap.Some? {
          SnapshotHolds(s, pid, snap.value);
        }
      }
    }
  }

  /**
   Under any interleaving, a completion that succeeded stored the concatenation,
   in ascending part-number order, of what the listed parts held at one moment of
   the run: the moment it took its snapshot.
   */
  lemma {:induction false} StoredIsSnapshot(steps: seq<Step>, pid: Pid)
    requires pid in Run(steps).procs && Claim(Run(steps).procs[pid]).Some?
    ensures exists i :: 0 <= i < |steps| && steps[i] == TakeSnapshot(pid)
                        && HoldsNow(Run(steps[..i]), pid, Claim(Run(steps).procs[pid]).value)
    ensures Run(steps).procs[pid].Stored? ==> Some(Run(steps).procs[pid].written) == Claim(Run(steps).procs[pid])
  {
    hide Apply, Enabled, HoldsNow, SessionsOk, UploadsOk;
    RunInv(steps);
    var n := |steps| - 1;
    var before, step := steps[..n], steps[n];
    var s := Run(before);
    RunInv(before);
    if Enabled(s, step) {
      ClaimStep(s, step, pid);
    }
    if pid in s.procs && Claim(s.procs[pid]) == Claim(Run(steps).procs[pid]) {
      StoredIsSnapshot(before, pid);
      var i :| 0 <= i < n && before[i] == TakeSnapshot(pid)
               && HoldsNow(Run(before[..i]), pid, Claim(Run(steps).procs[pid]).value);
      assert before[..i] == steps[..i] && before[i] == steps[i];
    }
  }

  // A completion was asked for these parts, or for all there were.
  ghost predicate AskedFor(s: State, step: Step, pid: Pid, sid: Sid, nums: seq<int>) {
    && step.ListParts? && step.pid == pid && step.nums == nums
    && pid in s.procs && s.procs[pid] == Looking(sid) && sid in s.sessions
    && (forall j, k :: 0 <= j < k < |nums| ==> nums[j] <= nums[k])
    && (step.requested != [] ==> multiset(nums) == multiset(step.requested))
    && (step.requested == [] ==> forall n :: multiset(nums)[n] == if n in s.sessions[sid].parts then 1 else 0)
  }

  lemma RequestedMeans(session: Session, requested: seq<int>, nums: seq<int>)
    requires Requested(session, requested, nums)
    ensures forall j, k :: 0 <= j < k < |nums| ==> nums[j] <= nums[k]
    ensures requested != [] ==> multiset(nums) == multiset(requested)
    ensures requested == [] ==> forall n :: multiset(nums)[n] == if n in session.parts then 1 else 0
  {
    assert forall j, k :: 0 <= j < k < |nums| ==> Ascending(nums[j], nums[k]);
    if requested == [] {
      DistinctBag(nums);
    }
  }

  lemma ListingStep(s: State, step: Step, pid: Pid)
    requires Enabled(s, step) && pid in Apply(s, step).procs && Apply(s, step).procs[pid].Listing?
    ensures var p := Apply(s, step).procs[pid];
            || (pid in s.procs && s.procs[pid] == p)
            || AskedFor(s, step, pid, p.sid, p.nums)
  {
    hide Requested, Views, SnapshotOf, AssembledReadAt;
    if Mover(step) != Some(pid) {
      OthersStay(s, step, pid);
    } else if step.ListParts? {
      RequestedMeans(s.sessions[s.procs[pid].sid], step.requested, step.nums);
    }
  }

  /** The part numbers of a completion are those its request listed, or all there were when it looked. */
  lemma {:induction false} NumbersAsRequested(steps: seq<Step>, pid: Pid)
    requires pid in Run(steps).procs && Run(steps).procs[pid].Listing?
    ensures var p := Run(steps).procs[pid];
            exists i :: 0 <= i < |steps| && AskedFor(Run(steps[..i]), steps[i], pid, p.sid, p.nums)
  {
    hide Apply, Enabled, AskedFor;
    var n := |steps| - 1;
    var before, step := steps[..n], steps[n];
    var s, p := Run(before), Run(steps).procs[pid];
    if Enabled(s, step) {
      ListingStep(s, step, pid);
    }
    if pid in s.procs && s.procs[pid] == p {
      NumbersAsRequested(before, pid);
      var i :| 0 <= i < n && AskedFor(Run(before[..i]), before[i], pid, p.sid, p.nums);
      assert before[..i] == steps[..i] && before[i] == steps[i];
    } else {
      assert steps[..n] == before;
    }
  }

  // The bytes an upload handler has copied so far in a run.
  ghost function CopiedBy(steps: seq<Step>, pid: Pid): Bytes {
    if steps == [] then []
    else
      var before, step := steps[..|steps| - 1], steps[|steps| - 1];
      if step.CopyChunk? && step.pid == pid && Enabled(Run(before), step) then CopiedBy(before, pid) + step.chunk
      else CopiedBy(before, pid)
  }

  /** A buffer being filled holds what its own handler copied, in order, whatever the others do. */
  lemma {:induction false} BufferHoldsCopied(steps: seq<Step>, pid: Pid)
    ensures var s := Run(steps);
            if Unopened(s, pid) then CopiedBy(steps, pid) == []
            else s.procs[pid].Uploading? ==>
                   s.procs[pid].buf in s.bufs && s.bufs[s.procs[pid].buf].data == CopiedBy(steps, pid)
  {
    hide Apply, Enabled, CopiedBy, Inv;
    CopiedStep(steps, pid);
    if steps != [] {
      var before, step := steps[..|steps| - 1], steps[|steps| - 1];
      BufferHoldsCopied(before, pid);
      RunInv(before);
      if Enabled(Run(before), step) {
        BufferStep(Run(before), step, pid);
      }
    }
  }

  predicate Unopened(s: State, pid: Pid) {
    pid !in s.procs || s.procs[pid].Preparing?
  }

  // One step, seen from one upload handler and its buffer.
  lemma BufferStep(s: State, step: Step, pid: Pid)
    requires Inv(s) && Enabled(s, step)
    ensures var t := Apply(s, step);
            && (Unopened(t, pid) ==> Unopened(s, pid))
            && (step.CopyChunk? && step.pid == pid ==> pid in s.procs && s.procs[pid].Uploading?)
            && (pid in t.procs && t.procs[pid].Uploading? ==>
                  var b := t.procs[pid].buf;
                  && b in t.bufs
                  && (Unopened(s, pid) ==> t.bufs[b].data == [])
                  && (!Unopened(s, pid) ==>
                        && s.procs[pid] == t.procs[pid] && b in s.bufs
                        && t.bufs[b].data ==
                           s.bufs[b].data + (if step.CopyChunk? && step.pid == pid then step.chunk else [])))
  {
    hide Requested, SnapshotOf, AssembledReadAt, ProcsOk, SessionsOk, PartsDistinct, Views;
    var t := Apply(s, step);
    if pid in t.procs && t.procs[pid].Uploading? {
      FillStep(s, step, pid, t.procs[pid].buf);
      if Mover(step) != Some(pid) {
        OthersStay(s, step, pid);
        UnsealedStays(s, step, t.procs[pid].buf);
      }
    }
  }

  lemma CopiedStep(steps: seq<Step>, pid: Pid)
    ensures steps == [] ==> CopiedBy(steps, pid) == []
    ensures steps != [] ==>
              var before, step := steps[..|steps| - 1], steps[|steps| - 1];
              CopiedBy(steps, pid) ==
                if step.CopyChunk? && step.pid == pid && Enabled(Run(before), step)
                then CopiedBy(before, pid) + step.chunk
                else CopiedBy(before, pid)
  {
  }

  /** Publishing makes exactly those bytes the part, in place of an older one of that number. */
  lemma PublishedIsCopied(steps: seq<Step>, pid: Pid)
    requires Enabled(Run(steps), PublishPart(pid))
    ensures var s, t := Run(steps), Run(steps + [PublishPart(pid)]);
            var p := s.procs[pid];
            && p.sid in t.sessions && p.number in t.sessions[p.sid].parts
            && Content(t.bufs, [t.sessions[p.sid].parts[p.number]]) == CopiedBy(steps, pid)
            && forall n :: n in s.sessions[p.sid].parts && n != p.number ==>
                 t.sessions[p.sid].parts[n] == s.sessions[p.sid].parts[n]
  {
    hide CopiedBy, Run;
    BufferHoldsCopied(steps, pid);
    RunSnoc(steps, PublishPart(pid));
    var t := Run(steps + [PublishPart(pid)]);
    var p := Run(steps).procs[pid];
    OnePart(t.bufs, t.sessions[p.sid].parts[p.number]);
  }

  lemma OnePart(bufs: map<BufId, Buf>, p: PartInfo)
    requires p.buf in bufs
    ensures Content(bufs, [p]) == bufs[p.buf].data
  {
    assert [p][1..] == [];
    assert Views(bufs, [p])[1..] == [];
    assert Concat([]) == [];
  }

  lemma RunSnoc(steps: seq<Step>, step: Step)
    ensures Run(steps + [step]) == if Enabled(Run(steps), step) then Apply(Run(steps), step) else Run(steps)
  {
    assert (steps + [step])[..|steps|] == steps;
  }

  // ------------------------------------------------------ single steps, spelled out

  lemma Unregisters(s: State, pid: Pid)
    requires pid in s.procs && (s.procs[pid].Stored? || s.procs[pid].Aborting?)
    ensures var p := s.procs[pid];
            && Enabled(s, Unregister(pid))
            && Apply(s, Unregister(pid)) ==
               Put(s.(registered := s.registered - {p.sid}), pid,
                   if p.Stored? then Clearing(p.sid, p.snap, Some(p.written)) else Clearing(p.sid, [], None))
  {
  }

  lemma Clears(s: State, pid: Pid)
    requires pid in s.procs && s.procs[pid].Clearing? && s.procs[pid].sid in s.sessions
    ensures var p := s.procs[pid];
            && Enabled(s, CloseParts(pid))
            && Apply(s, CloseParts(pid)) ==
               Put(s.(bufs := CloseAll(s.bufs, PartBufs(s.sessions[p.sid]))), pid, Closing(p.snap, p.result))
  {
  }
}
