/**
 Completing a multipart upload over whole runs: when a completion can still
 succeed, how often one upload can be completed, and what decides it.
 */
module Completions {
  import opened Base
  import B = Buffers
  import opened Assembled
  import opened Multipart
  import opened PartBuffers
  import Transfer

  // ------------------------------------------------------- a part that cannot be read

  // Part `i` of the snapshot is not empty and lies in a temporary file that is closed.
  predicate Blocks(bufs: map<BufId, Buf>, snap: seq<PartInfo>, i: nat) {
    && i < |snap| && snap[i].buf in bufs
    && bufs[snap[i].buf].onDisk && bufs[snap[i].buf].closed && bufs[snap[i].buf].data != []
  }

  /** Every part with content can be read: it lies in memory, or its file is still open. */
  predicate Deliverable(bufs: map<BufId, Buf>, snap: seq<PartInfo>) {
    forall i :: 0 <= i < |snap| ==> !Blocks(bufs, snap, i)
  }

  /** Every part with content lies in memory, where closing does not matter. */
  predicate InMemoryParts(bufs: map<BufId, Buf>, snap: seq<PartInfo>) {
    forall p :: p in snap && p.buf in bufs && bufs[p.buf].onDisk ==> bufs[p.buf].data == []
  }

  lemma {:induction false} ConcatSplit(parts: seq<PartView>, i: nat)
    requires i <= |parts|
    ensures |Concat(parts)| == |Concat(parts[..i])| + |Concat(parts[i..])|
  {
    if i == 0 {
      assert parts[..0] == [] && parts[0..] == parts;
    } else {
      ConcatSplit(parts[1..], i - 1);
      assert parts[..i][1..] == parts[1..][..i - 1] && parts[1..][i - 1..] == parts[i..];
    }
  }

  // No read passes an unreadable part.
  lemma {:induction false} UnreadableStops(parts: seq<PartView>, i: nat, room: nat, off: nat)
    requires i < |parts| && !parts[i].readable && parts[i].data != [] && room > 0
    requires off <= |Concat(parts[..i])|
    ensures off + |ReadParts(parts, room, off).chunk| <= |Concat(parts[..i])|
  {
    if i == 0 {
      assert parts[..0] == [];
    } else {
      var data := parts[0].data;
      var rest := parts[1..];
      assert parts[..i][1..] == rest[..i - 1];
      hide B.Slice;
      SliceBounds(data, room, off);
      if off >= |data| {
        UnreadableStops(rest, i - 1, room, off - |data|);
      } else {
        SliceInside(data, room, off);
        var chunk := B.Slice(data, room, off);
        if parts[0].readable && |chunk| < room {
          UnreadableStops(rest, i - 1, room - |chunk|, 0);
        }
      }
    }
  }

  lemma SliceInside(data: Bytes, room: nat, off: nat)
    requires off < |data|
    ensures off + |B.Slice(data, room, off)| <= |data|
  {
  }

  lemma {:induction false} ViewsPrefix(bufs: map<BufId, Buf>, snap: seq<PartInfo>, i: nat)
    requires i <= |snap|
    ensures Views(bufs, snap)[..i] == Views(bufs, snap[..i])
  {
    if i > 0 {
      ViewsPrefix(bufs, snap[1..], i - 1);
      assert snap[..i][1..] == snap[1..][..i - 1];
    }
  }

  // ------------------------------------------------------------- a hopeless completion

  // The completion has not got past part `i`, which it cannot read.
  predicate StuckAt(s: State, p: Proc, i: nat) {
    && p.Assembling? && Blocks(s.bufs, p.snap, i)
    && p.pos <= |Content(s.bufs, p.snap[..i])| && |p.written| <= |Content(s.bufs, p.snap[..i])|
  }

  ghost predicate Hopeless(s: State, pid: Pid) {
    && pid in s.procs
    && var p := s.procs[pid];
       || ((p.Closing? || p.Finished?) && p.result.None?)
       || exists i :: StuckAt(s, p, i)
  }

  lemma StuckReads(s: State, p: Proc, i: nat, room: nat)
    requires StuckAt(s, p, i) && room > 0
    ensures p.pos + |AssembledReadAt(Views(s.bufs, p.snap), room, p.pos).chunk| <= |Content(s.bufs, p.snap[..i])|
    ensures |Content(s.bufs, p.snap[..i])| < |Content(s.bufs, p.snap)|
  {
    hide ReadParts, Views;
    var views := Views(s.bufs, p.snap);
    ViewAt(s.bufs, p.snap, i);
    ViewsPrefix(s.bufs, p.snap, i);
    ConcatSplit(views, i);
    assert Concat(views[i..]) == views[i].data + Concat(views[i..][1..]);
    UnreadableStops(views, i, room, p.pos);
  }

  lemma BlocksStays(s: State, step: Step, snap: seq<PartInfo>, i: nat)
    requires Inv(s) && Enabled(s, step) && SnapOk(s, snap) && Blocks(s.bufs, snap, i)
    ensures Blocks(Apply(s, step).bufs, snap, i)
    ensures Content(Apply(s, step).bufs, snap[..i]) == Content(s.bufs, snap[..i])
  {
    hide Inv, Apply, Enabled, Content;
    assert SealedPart(s, snap[i]);
    ClosedStep(s, step, snap[i].buf);
    InvUploads(s);
    StepGrows(s, step);
    assert forall k :: 0 <= k < i ==> snap[..i][k] == snap[k];
    ContentStays(s, Apply(s, step), snap[..i]);
  }

  lemma SnapOkOf(s: State, pid: Pid)
    requires Inv(s) && pid in s.procs && s.procs[pid].Assembling?
    ensures SnapOk(s, s.procs[pid].snap) && s.procs[pid].pos <= |s.procs[pid].written|
  {
    assert ProcOk(s, s.procs[pid]);
  }

  lemma HopelessStays(s: State, step: Step, pid: Pid)
    requires Inv(s) && Enabled(s, step) && Hopeless(s, pid)
    ensures Hopeless(Apply(s, step), pid)
  {
    hide Inv, AssembledReadAt, SnapshotOf, Requested, Views, CloseAll, Content, Blocks;
    var p, t := s.procs[pid], Apply(s, step);
    if i :| StuckAt(s, p, i) {
      SnapOkOf(s, pid);
      BlocksStays(s, step, p.snap, i);
      if Mover(step) != Some(pid) {
        OthersStay(s, step, pid);
        assert StuckAt(t, t.procs[pid], i);
      } else {
        StuckReads(s, p, i, if step.SendChunk? then step.room else 1);
        if !step.GiveUp? {
          assert StuckAt(t, t.procs[pid], i);
        }
      }
    } else if Mover(step) != Some(pid) {
      OthersStay(s, step, pid);
    }
  }

  lemma {:induction false} HopelessForever(steps: seq<Step>, more: seq<Step>, pid: Pid)
    requires Hopeless(Run(steps), pid)
    ensures Hopeless(Run(steps + more), pid)
  {
    hide Apply, Enabled, Hopeless, Inv;
    if more == [] {
      assert steps + more == steps;
    } else {
      var n := |more| - 1;
      HopelessForever(steps, more[..n], pid);
      RunInv(steps + more[..n]);
      RunSnoc(steps + more[..n], more[n]);
      assert steps + more[..n] + [more[n]] == steps + more;
      if Enabled(Run(steps + more[..n]), more[n]) {
        HopelessStays(Run(steps + more[..n]), more[n], pid);
      }
    }
  }

  // ------------------------------------------------------------ a completion that works

  /** A completion from its snapshot to its end: one read suffices if the reader's buffer is large enough. */
  function WholeCompletion(pid: Pid, room: nat, closes: nat): seq<Step> {
    [TakeSnapshot(pid)] + Work(pid, room) + seq(closes, i => CloseNext(pid))
  }

  function Work(pid: Pid, room: nat): seq<Step> {
    [StartUpload(pid), SendChunk(pid, room), Succeed(pid), Unregister(pid), CloseParts(pid)]
  }

  // The parts a listing completion will find.
  ghost predicate Finds(s: State, pid: Pid, sid: Sid, snap: seq<PartInfo>) {
    && pid in s.procs && s.procs[pid].Listing? && s.procs[pid].sid == sid && sid in s.sessions
    && SnapshotOf(s.sessions[sid], s.procs[pid].nums) == Some(snap)
  }

  ghost predicate Succeeded(s: State, pid: Pid, content: Bytes) {
    pid in s.procs && s.procs[pid] == Finished(Some(content))
  }

  lemma {:induction false} DeliverableReads(parts: seq<PartView>, room: nat, off: nat)
    requires AllReadable(parts) && room > |Concat(parts)|
    ensures off == 0 ==> ReadParts(parts, room, off).chunk == Concat(parts)
  {
    hide ReadParts, Concat;
    ReadPartsSlices(parts, room, off);
  }

  lemma ReadsAll(bufs: map<BufId, Buf>, snap: seq<PartInfo>, room: nat)
    requires Deliverable(bufs, snap) && room > |Content(bufs, snap)|
    requires forall i :: 0 <= i < |snap| ==> snap[i].buf in bufs
    ensures AssembledReadAt(Views(bufs, snap), room, 0).chunk == Content(bufs, snap)
  {
    var views := Views(bufs, snap);
    forall i | 0 <= i < |views| ensures views[i].readable || views[i].data == [] {
      ViewAt(bufs, snap, i);
      assert !Blocks(bufs, snap, i);
    }
    DeliverableReads(views, room, 0);
  }

  // All that happened between two states is that one handler moved on and buffers were closed.
  predicate OnlyCloses(s: State, t: State, pid: Pid, p: Proc) {
    && t.sessions == s.sessions && t.procs == s.procs[pid := p]
    && t.bufs.Keys == s.bufs.Keys
    && forall b :: b in s.bufs ==> t.bufs[b] == s.bufs[b] || t.bufs[b] == s.bufs[b].(closed := true)
  }

  lemma {:induction false} ReleasesAll(steps: seq<Step>, pid: Pid, closes: nat)
    requires var s := Run(steps);
             pid in s.procs && s.procs[pid].Closing? && closes == |s.procs[pid].snap| + 1
    ensures var s, t := Run(steps), Run(steps + seq(closes, i => CloseNext(pid)));
            OnlyCloses(s, t, pid, Finished(s.procs[pid].result))
    decreases closes
  {
    hide Run;
    var p := Run(steps).procs[pid];
    var all, rest := seq(closes, i => CloseNext(pid)), seq(closes - 1, i => CloseNext(pid));
    assert all == [CloseNext(pid)] + rest;
    assert steps + [CloseNext(pid)] + rest == steps + all;
    RunSnoc(steps, CloseNext(pid));
    if p.snap == [] {
      assert steps + [CloseNext(pid)] + rest == steps + [CloseNext(pid)];
    } else {
      ReleasesAll(steps + [CloseNext(pid)], pid, closes - 1);
    }
  }

  // The steps between snapshot and release, one by one.
  lemma Starts(s: State, pid: Pid)
    requires pid in s.procs && s.procs[pid].Assembling?
    ensures Enabled(s, StartUpload(pid))
    ensures Apply(s, StartUpload(pid)) == Put(s, pid, s.procs[pid].(pos := 0, written := []))
  {
  }

  lemma Sends(s: State, pid: Pid, room: nat)
    requires pid in s.procs && s.procs[pid].Assembling? && s.procs[pid].pos == 0 && s.procs[pid].written == []
    requires room > 0 && AssembledReadAt(Views(s.bufs, s.procs[pid].snap), room, 0).chunk == s.procs[pid].promise
    ensures var p := s.procs[pid];
            && Enabled(s, SendChunk(pid, room))
            && Apply(s, SendChunk(pid, room)) == Put(s, pid, p.(pos := |p.promise|, written := p.promise))
  {
    hide Views, AssembledReadAt;
    assert Transfer.WriteAt([], 0, s.procs[pid].promise) == s.procs[pid].promise;
  }

  lemma Succeeds(s: State, pid: Pid)
    requires pid in s.procs && s.procs[pid].Assembling? && s.procs[pid].pos == |Content(s.bufs, s.procs[pid].snap)|
    ensures var p := s.procs[pid];
            && Enabled(s, Succeed(pid))
            && Apply(s, Succeed(pid)) == Put(s, pid, Stored(p.sid, p.snap, p.promise, p.written))
  {
    hide Content;
  }

  lemma WorkRuns(steps: seq<Step>, pid: Pid, room: nat)
    requires var s := Run(steps);
             && pid in s.procs && s.procs[pid].Assembling? && s.procs[pid].sid in s.sessions
             && s.procs[pid].promise == Content(s.bufs, s.procs[pid].snap) && |s.procs[pid].promise| < room
             && AssembledReadAt(Views(s.bufs, s.procs[pid].snap), room, 0).chunk == s.procs[pid].promise
    ensures var s, t := Run(steps), Run(steps + Work(pid, room));
            var p := s.procs[pid];
            && OnlyCloses(s, t, pid, Closing(p.snap, Some(p.promise)))
            && t.bufs == CloseAll(s.bufs, PartBufs(s.sessions[p.sid]))
  {
    hide Run, Apply, Enabled, Views, AssembledReadAt, Content, CloseAll;
    var w := Work(pid, room);
    var p := Run(steps).procs[pid];
    var one, two := steps + [w[0]], steps + [w[0], w[1]];
    var three, four := steps + [w[0], w[1], w[2]], steps + [w[0], w[1], w[2], w[3]];
    assert one + [w[1]] == two && two + [w[2]] == three && three + [w[3]] == four && four + [w[4]] == steps + w;
    RunSnoc(steps, w[0]);
    Starts(Run(steps), pid);
    RunSnoc(one, w[1]);
    Sends(Run(one), pid, room);
    RunSnoc(two, w[2]);
    Succeeds(Run(two), pid);
    RunSnoc(three, w[3]);
    Unregisters(Run(three), pid);
    RunSnoc(four, w[4]);
    Clears(Run(four), pid);
    ClosedOnly(Run(steps), PartBufs(Run(steps).sessions[p.sid]));
  }

  lemma ClosedOnly(s: State, ids: set<BufId>)
    ensures CloseAll(s.bufs, ids).Keys == s.bufs.Keys
    ensures forall b :: b in s.bufs ==>
              CloseAll(s.bufs, ids)[b] == if b in ids then s.bufs[b].(closed := true) else s.bufs[b]
  {
  }

  ghost predicate InSession(s: State, sid: Sid, b: BufId) {
    exists n :: IsPart(s, sid, n, b)
  }

  lemma FindsSealed(s: State, pid: Pid, sid: Sid, snap: seq<PartInfo>)
    requires Inv(s) && Finds(s, pid, sid, snap)
    ensures SnapOk(s, snap) && forall i :: 0 <= i < |snap| ==> snap[i].buf in s.bufs && InSession(s, sid, snap[i].buf)
  {
    hide SnapshotOf, UploadsOk, ProcsOk, PartsDistinct;
    SnapshotSealed(s, s.sessions[sid], s.procs[pid].nums);
    forall i | 0 <= i < |snap| ensures snap[i].buf in s.bufs && InSession(s, sid, snap[i].buf) {
      assert SealedPart(s, snap[i]);
      var n := SnapshotFromParts(s, sid, s.procs[pid].nums, i);
    }
  }

  lemma TakesSnapshot(steps: seq<Step>, pid: Pid, sid: Sid, snap: seq<PartInfo>)
    requires Finds(Run(steps), pid, sid, snap)
    ensures var s := Run(steps);
            Run(steps + [TakeSnapshot(pid)]) == Put(s, pid, Assembling(sid, snap, Content(s.bufs, snap), 0, []))
  {
    hide Run, Content, SnapshotOf;
    RunSnoc(steps, TakeSnapshot(pid));
  }

  /** Run on its own, a completion whose parts can all be read succeeds, and leaves every part of its session closed. */
  lemma CompletionWorks(steps: seq<Step>, pid: Pid, sid: Sid, snap: seq<PartInfo>)
    requires Finds(Run(steps), pid, sid, snap) && Deliverable(Run(steps).bufs, snap)
    ensures var s := Run(steps);
            var content := Content(s.bufs, snap);
            var t := Run(steps + WholeCompletion(pid, |content| + 1, |snap| + 1));
            && OnlyCloses(s, t, pid, Finished(Some(content)))
            && forall n, b :: IsPart(s, sid, n, b) && b in s.bufs ==> t.bufs[b].closed
  {
    hide Run, Content, Views, AssembledReadAt, SnapshotOf, Deliverable, CloseAll, Inv;
    var s := Run(steps);
    var content := Content(s.bufs, snap);
    var room, closes := |content| + 1, |snap| + 1;
    var one, two := steps + [TakeSnapshot(pid)], steps + [TakeSnapshot(pid)] + Work(pid, room);
    RunInv(steps);
    FindsSealed(s, pid, sid, snap);
    ReadsAll(s.bufs, snap, room);
    TakesSnapshot(steps, pid, sid, snap);
    WorkRuns(one, pid, room);
    ReleasesAll(two, pid, closes);
    assert two + seq(closes, i => CloseNext(pid)) == steps + WholeCompletion(pid, room, closes);
    ClosedOnly(s, PartBufs(s.sessions[sid]));
    forall n, b | IsPart(s, sid, n, b) && b in s.bufs
      ensures Run(two).bufs[b].closed
    {
      InPartBufs(s, sid, b);
    }
  }

  lemma BlockedIsHopeless(steps: seq<Step>, pid: Pid, sid: Sid, snap: seq<PartInfo>)
    requires Finds(Run(steps), pid, sid, snap) && !Deliverable(Run(steps).bufs, snap)
    ensures Hopeless(Run(steps + [TakeSnapshot(pid)]), pid)
  {
    hide Run, Content, SnapshotOf;
    TakesSnapshot(steps, pid, sid, snap);
    var t := Run(steps + [TakeSnapshot(pid)]);
    var i :| 0 <= i < |snap| && Blocks(Run(steps).bufs, snap, i);
    assert StuckAt(t, t.procs[pid], i);
  }

  lemma HopelessNeverSucceeds(s: State, pid: Pid, content: Bytes)
    requires Hopeless(s, pid)
    ensures !Succeeded(s, pid, content)
  {
  }

  /**
   A completion that finds all its parts, and takes its snapshot now, can still
   succeed in some continuation exactly if every part with content can be read.
   */
  lemma CompletesExactly(steps: seq<Step>, pid: Pid, sid: Sid, snap: seq<PartInfo>)
    requires Finds(Run(steps), pid, sid, snap)
    ensures var content := Content(Run(steps).bufs, snap);
            (exists more: seq<Step> :: Succeeded(Run(steps + [TakeSnapshot(pid)] + more), pid, content))
            <==> Deliverable(Run(steps).bufs, snap)
  {
    hide Run, Content, SnapshotOf, Deliverable, Hopeless;
    var content, one := Content(Run(steps).bufs, snap), steps + [TakeSnapshot(pid)];
    if Deliverable(Run(steps).bufs, snap) {
      CompletionWorks(steps, pid, sid, snap);
      var more := Work(pid, |content| + 1) + seq(|snap| + 1, i => CloseNext(pid));
      assert one + more == steps + WholeCompletion(pid, |content| + 1, |snap| + 1);
    } else {
      BlockedIsHopeless(steps, pid, sid, snap);
      forall more: seq<Step> ensures !Succeeded(Run(one + more), pid, content) {
        HopelessForever(one, more, pid);
        HopelessNeverSucceeds(Run(one + more), pid, content);
      }
    }
  }

  // --------------------------------------------------------- one upload, two completions

  // What the first completion does to the chances of the second.
  lemma SecondFinds(s: State, t: State, p: Pid, q: Pid, sid: Sid, mine: seq<PartInfo>, result: Option<Bytes>)
    requires Inv(s) && Inv(t) && p != q && Finds(s, q, sid, mine)
    requires OnlyCloses(s, t, p, Finished(result))
    requires forall n, b :: IsPart(s, sid, n, b) && b in s.bufs ==> t.bufs[b].closed
    ensures Finds(t, q, sid, mine) && Content(t.bufs, mine) == Content(s.bufs, mine)
    ensures Deliverable(t.bufs, mine) <==> InMemoryParts(s.bufs, mine)
  {
    hide Content, SnapshotOf, Inv;
    FindsSealed(s, q, sid, mine);
    ContentStays(s, t, mine);
    forall i | 0 <= i < |mine|
      ensures Blocks(t.bufs, mine, i) <==> s.bufs[mine[i].buf].onDisk && s.bufs[mine[i].buf].data != []
    {
      assert InSession(s, sid, mine[i].buf);
      var n :| IsPart(s, sid, n, mine[i].buf);
      assert t.bufs[mine[i].buf].closed;
    }
  }

  /**
   Two completions of one upload, both of which have listed parts that are all
   there: the second can succeed after the first, each with the content of its
   own parts, exactly if the first can read its parts and those of the second
   that have content all lie in memory.  (The first closes the files.)
   */
  lemma BothCompleteExactly(steps: seq<Step>, p: Pid, q: Pid, sid: Sid, theirs: seq<PartInfo>, mine: seq<PartInfo>)
    requires p != q && Finds(Run(steps), p, sid, theirs) && Finds(Run(steps), q, sid, mine)
    ensures var s := Run(steps);
            var a, b := Content(s.bufs, theirs), Content(s.bufs, mine);
            var first := steps + WholeCompletion(p, |a| + 1, |theirs| + 1);
            (exists more: seq<Step> ::
               var t := Run(first + [TakeSnapshot(q)] + more);
               Succeeded(t, p, a) && Succeeded(t, q, b))
            <==> Deliverable(s.bufs, theirs) && InMemoryParts(s.bufs, mine)
  {
    hide Run, Content, SnapshotOf, Deliverable, Hopeless, InMemoryParts, Inv, Finds, OnlyCloses, Succeeded;
    var s := Run(steps);
    var a, b := Content(s.bufs, theirs), Content(s.bufs, mine);
    var tail := Work(p, |a| + 1) + seq(|theirs| + 1, i => CloseNext(p));
    var first := steps + WholeCompletion(p, |a| + 1, |theirs| + 1);
    assert first == steps + [TakeSnapshot(p)] + tail;
    if Deliverable(s.bufs, theirs) {
      CompletionWorks(steps, p, sid, theirs);
      RunInv(steps);
      RunInv(first);
      SecondFinds(s, Run(first), p, q, sid, mine, Some(a));
      CompletesExactly(first, q, sid, mine);
      if InMemoryParts(s.bufs, mine) {
        CompletionWorks(first, q, sid, mine);
        var more := Work(q, |b| + 1) + seq(|mine| + 1, i => CloseNext(q));
        assert first + [TakeSnapshot(q)] + more == first + WholeCompletion(q, |b| + 1, |mine| + 1);
        BothSucceeded(s, Run(first), Run(first + [TakeSnapshot(q)] + more), p, q, a, b);
      }
    } else {
      BlockedIsHopeless(steps, p, sid, theirs);
      forall more: seq<Step> ensures !Succeeded(Run(first + [TakeSnapshot(q)] + more), p, a) {
        var rest := tail + [TakeSnapshot(q)] + more;
        assert first + [TakeSnapshot(q)] + more == steps + [TakeSnapshot(p)] + rest;
        HopelessForever(steps + [TakeSnapshot(p)], rest, p);
        HopelessNeverSucceeds(Run(steps + [TakeSnapshot(p)] + rest), p, a);
      }
    }
  }

  lemma BothSucceeded(s: State, t: State, u: State, p: Pid, q: Pid, a: Bytes, b: Bytes)
    requires p != q && OnlyCloses(s, t, p, Finished(Some(a))) && OnlyCloses(t, u, q, Finished(Some(b)))
    ensures Succeeded(u, p, a) && Succeeded(u, q, b)
  {
  }

  // ---------------------------------------------------------------- who may complete

  ghost predicate LooksUpAt(steps: seq<Step>, i: nat, pid: Pid, sid: Sid) {
    Happens(steps, i) && steps[i] == BeginComplete(pid, sid)
  }

  // A completion or an abort takes the session out of the table.
  ghost predicate RemovesAt(steps: seq<Step>, i: nat, sid: Sid) {
    Happens(steps, i) && steps[i].Unregister? && Run(steps[..i]).procs[steps[i].pid].sid == sid
  }

  ghost predicate CompletesAt(steps: seq<Step>, i: nat, pid: Pid, sid: Sid) {
    && Happens(steps, i) && steps[i] == Unregister(pid)
    && Run(steps[..i]).procs[pid].Stored? && Run(steps[..i]).procs[pid].sid == sid
  }

  // A completion on its way from lookup to success.
  predicate Completing(p: Proc, sid: Sid) {
    (p.Looking? || p.Listing? || p.Assembling? || p.Stored?) && p.sid == sid
  }

  lemma CompletingStep(s: State, step: Step, pid: Pid, sid: Sid)
    requires Enabled(s, step) && pid in Apply(s, step).procs && Completing(Apply(s, step).procs[pid], sid)
    ensures (pid in s.procs && Completing(s.procs[pid], sid)) || step == BeginComplete(pid, sid)
  {
    hide Requested, Views, SnapshotOf, AssembledReadAt, CloseAll;
    if Mover(step) != Some(pid) {
      OthersStay(s, step, pid);
    }
  }

  lemma {:induction false} CompletingLookedUp(steps: seq<Step>, pid: Pid, sid: Sid) returns (i: nat)
    requires pid in Run(steps).procs && Completing(Run(steps).procs[pid], sid)
    ensures LooksUpAt(steps, i, pid, sid)
  {
    hide Apply, Enabled, Completing;
    var n := |steps| - 1;
    var before, step := steps[..n], steps[n];
    var s := Run(before);
    if Enabled(s, step) {
      CompletingStep(s, step, pid, sid);
    }
    if pid in s.procs && Completing(s.procs[pid], sid) {
      i := CompletingLookedUp(before, pid, sid);
      Prefixes(steps, i);
    } else {
      i := n;
    }
  }

  // A session that was taken out of the table.
  predicate Gone(s: State, sid: Sid) {
    sid in s.sessions && sid !in s.registered
  }

  lemma GoneStep(s: State, step: Step, sid: Sid)
    requires Enabled(s, step) && Gone(s, sid)
    ensures Gone(Apply(s, step), sid)
  {
    hide Requested, Views, SnapshotOf, AssembledReadAt, CloseAll;
  }

  lemma RemovalStep(s: State, step: Step)
    requires Inv(s) && Enabled(s, step) && step.Unregister?
    ensures Gone(Apply(s, step), s.procs[step.pid].sid)
  {
    assert ProcOk(s, s.procs[step.pid]);
  }

  lemma {:induction false} GoneAfter(steps: seq<Step>, d: nat, sid: Sid)
    requires RemovesAt(steps, d, sid)
    ensures Gone(Run(steps), sid)
  {
    hide Apply, Enabled, Gone, Inv;
    var n := |steps| - 1;
    var before, step := steps[..n], steps[n];
    RunInv(before);
    if d == n {
      RemovalStep(Run(before), step);
    } else {
      Prefixes(steps, d);
      GoneAfter(before, d, sid);
      if Enabled(Run(before), step) {
        GoneStep(Run(before), step, sid);
      }
    }
  }

  lemma NotLookedUpAfter(steps: seq<Step>, d: nat, a: nat, pid: Pid, sid: Sid)
    requires RemovesAt(steps, d, sid) && LooksUpAt(steps, a, pid, sid)
    ensures a < d
  {
    hide Run, Apply, Gone;
    if d < a {
      assert steps[..a][..d] == steps[..d];
      GoneAfter(steps[..a], d, sid);
      LookupFindsSession(Run(steps[..a]), pid, sid);
    }
  }

  lemma LookupFindsSession(s: State, pid: Pid, sid: Sid)
    requires Enabled(s, BeginComplete(pid, sid))
    ensures !Gone(s, sid)
  {
  }

  /**
   Every completion that succeeds had looked its session up before any completion
   or abort took it out of the table.  So two completions of one upload both
   succeed only if both began before the first of them ended.
   */
  lemma CompletionsOverlap(steps: seq<Step>, i: nat, pid: Pid, d: nat, sid: Sid)
    requires CompletesAt(steps, i, pid, sid) && RemovesAt(steps, d, sid)
    ensures exists a: nat :: a < i && a < d && LooksUpAt(steps, a, pid, sid)
  {
    hide Run, Apply;
    var before := steps[..i];
    var a := CompletingLookedUp(before, pid, sid);
    assert before[..a] == steps[..a] && before[a] == steps[a];
    NotLookedUpAfter(steps, d, a, pid, sid);
  }
}
