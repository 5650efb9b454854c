/**
 The life of a part's buffer over whole runs: which events leave it open, and
 which open buffers nothing will ever close.
 */
module PartBuffers {
  import opened Base
  import opened Assembled
  import opened Multipart

  // ---------------------------------------------------------- one step, one buffer

  // A step closes buffer `b`, if it was open.
  ghost predicate Closes(s: State, step: Step, b: BufId)
    requires Enabled(s, step)
  {
    match step
    case DropPart(pid, copyFailed) => copyFailed && s.procs[pid].buf == b
    case PublishPart(pid) => IsPart(s, s.procs[pid].sid, s.procs[pid].number, b)
    case CloseParts(pid) => exists n :: IsPart(s, s.procs[pid].sid, n, b)
    case CloseNext(pid) => s.procs[pid].snap != [] && s.procs[pid].snap[0].buf == b
    case _ => false
  }

  lemma ClosedStep(s: State, step: Step, b: BufId)
    requires Inv(s) && Enabled(s, step) && b in s.bufs
    ensures var t := Apply(s, step);
            && b in t.bufs
            && t.bufs[b].closed == (s.bufs[b].closed || Closes(s, step, b))
            && (s.bufs[b].sealed ==> t.bufs[b].sealed)
  {
    hide AssembledReadAt, SnapshotOf, Requested, Views, ProcsOk, SessionsOk, PartsDistinct;
    if step.PublishPart? {
      PartNotFilled(s, s.procs[step.pid].sid, s.procs[step.pid].number, step.pid);
    }
    if step.CloseParts? {
      var p := s.procs[step.pid];
      if p.sid in s.sessions {
        InPartBufs(s, p.sid, b);
      }
    }
  }

  lemma InPartBufs(s: State, sid: Sid, b: BufId)
    requires sid in s.sessions
    ensures b in PartBufs(s.sessions[sid]) <==> exists n :: IsPart(s, sid, n, b)
  {
    if b in PartBufs(s.sessions[sid]) {
      var n :| n in s.sessions[sid].parts && s.sessions[sid].parts[n].buf == b;
      assert IsPart(s, sid, n, b);
    }
  }

  // ------------------------------------------------------------------- the events

  // Step `i` of the run took place.
  ghost predicate Happens(steps: seq<Step>, i: nat) {
    i < |steps| && Enabled(Run(steps[..i]), steps[i])
  }

  ghost predicate OpenedAt(steps: seq<Step>, i: nat, b: BufId) {
    Happens(steps, i) && steps[i].OpenBuffer? && steps[i].buf == b
  }

  // The request that filled `b` was refused for its content hash.
  ghost predicate RefusedAt(steps: seq<Step>, i: nat, b: BufId) {
    && Happens(steps, i) && steps[i].DropPart? && !steps[i].copyFailed
    && Run(steps[..i]).procs[steps[i].pid].buf == b
  }

  ghost predicate PublishedAt(steps: seq<Step>, i: nat, sid: Sid, n: int, b: BufId) {
    && Happens(steps, i) && steps[i].PublishPart?
    && Run(steps[..i]).procs[steps[i].pid] == Uploading(sid, n, b)
  }

  // A completion or an abort closes all parts of the session.
  ghost predicate SweptAt(steps: seq<Step>, j: nat, sid: Sid) {
    && Happens(steps, j) && steps[j].CloseParts?
    && Run(steps[..j]).procs[steps[j].pid].sid == sid
  }

  // The assembled reader of some completion closes this buffer.
  ghost predicate ReleasedAt(steps: seq<Step>, j: nat, b: BufId) {
    && Happens(steps, j) && steps[j].CloseNext?
    && var snap := Run(steps[..j]).procs[steps[j].pid].snap; snap != [] && snap[0].buf == b
  }

  ghost predicate Replaced(steps: seq<Step>, j: nat, sid: Sid, n: int) {
    exists b :: PublishedAt(steps, j, sid, n, b)
  }

  // Published at `i`, and since then neither replaced, nor swept, nor released.
  ghost predicate StandsSince(steps: seq<Step>, i: nat, sid: Sid, n: int, b: BufId) {
    && PublishedAt(steps, i, sid, n, b)
    && forall j :: i < j < |steps| ==>
         !Replaced(steps, j, sid, n) && !SweptAt(steps, j, sid) && !ReleasedAt(steps, j, b)
  }

  ghost predicate Refused(steps: seq<Step>, b: BufId) {
    exists i :: RefusedAt(steps, i, b)
  }

  /** The current part of a session, published after every closing that could have reached it. */
  ghost predicate Stands(steps: seq<Step>, sid: Sid, b: BufId) {
    exists i, n :: StandsSince(steps, i, sid, n, b)
  }

  // Still being filled.
  ghost predicate Filling(s: State, b: BufId) {
    exists p :: p in s.procs && Fills(s.procs[p], b)
  }

  // ------------------------------------------------- what the events do to a buffer

  // Neither filled nor published, and open.
  ghost predicate Abandoned(s: State, b: BufId) {
    b in s.bufs && !s.bufs[b].sealed && !s.bufs[b].closed && !Filling(s, b)
  }

  lemma AbandonedStays(s: State, step: Step, b: BufId)
    requires Inv(s) && Enabled(s, step) && Abandoned(s, b)
    ensures Abandoned(Apply(s, step), b)
  {
    hide Apply, Enabled, Inv;
    if Mover(step).Some? && step.pid in s.procs {
      assert !Fills(s.procs[step.pid], b);
    }
    UnsealedStays(s, step, b);
    var t := Apply(s, step);
    forall p | p in t.procs ensures !Fills(t.procs[p], b) {
      if Fills(t.procs[p], b) {
        FillStep(s, step, p, b);
      }
    }
  }

  lemma RefusingAbandons(s: State, step: Step, b: BufId)
    requires Inv(s) && Enabled(s, step) && step.DropPart? && !step.copyFailed && s.procs[step.pid].buf == b
    ensures Abandoned(Apply(s, step), b)
  {
    hide ProcsOk, SessionsOk, PartsDistinct, AssembledReadAt, SnapshotOf, Requested, Views;
    assert Fills(s.procs[step.pid], b);
    var t := Apply(s, step);
    forall p | p in t.procs ensures !Fills(t.procs[p], b) {
      assert p in s.procs && (p != step.pid ==> t.procs[p] == s.procs[p]);
    }
  }

  lemma Prefixes(steps: seq<Step>, i: nat)
    requires steps != [] && i < |steps| - 1
    ensures steps[..|steps| - 1][..i] == steps[..i] && steps[..|steps| - 1][i] == steps[i]
  {
  }

  lemma {:induction false} RefusedIsAbandoned(steps: seq<Step>, i: nat, b: BufId)
    requires RefusedAt(steps, i, b)
    ensures Abandoned(Run(steps), b)
  {
    hide Apply, Enabled, Abandoned, Inv;
    var n := |steps| - 1;
    var before, step := steps[..n], steps[n];
    RunInv(before);
    if i == n {
      RefusingAbandons(Run(before), step, b);
    } else {
      Prefixes(steps, i);
      RefusedIsAbandoned(before, i, b);
      if Enabled(Run(before), step) {
        AbandonedStays(Run(before), step, b);
      }
    }
  }

  // An open part.
  ghost predicate OpenPart(s: State, sid: Sid, n: int, b: BufId) {
    IsPart(s, sid, n, b) && b in s.bufs && s.bufs[b].sealed && !s.bufs[b].closed
  }

  lemma PublishingOpens(s: State, step: Step, sid: Sid, n: int, b: BufId)
    requires Inv(s) && Enabled(s, step) && step.PublishPart? && s.procs[step.pid] == Uploading(sid, n, b)
    ensures OpenPart(Apply(s, step), sid, n, b)
  {
    hide ProcsOk, SessionsOk, PartsDistinct, AssembledReadAt, SnapshotOf, Requested, Views, CloseAll;
    assert Fills(s.procs[step.pid], b);
    PartNotFilled(s, sid, n, step.pid);
    PartStep(s, step, sid, n, b);
  }

  lemma OpenPartStays(s: State, step: Step, sid: Sid, n: int, b: BufId)
    requires Inv(s) && Enabled(s, step) && OpenPart(s, sid, n, b)
    requires !Publishes(s, step, sid, n)
    requires !(step.CloseParts? && s.procs[step.pid].sid == sid)
    requires !(step.CloseNext? && Closes(s, step, b))
    ensures OpenPart(Apply(s, step), sid, n, b)
  {
    hide ProcsOk, SessionsOk, AssembledReadAt, SnapshotOf, Requested, Views, Apply;
    PartStep(s, step, sid, n, b);
    ClosedStep(s, step, b);
    if step.DropPart? {
      PartNotFilled(s, sid, n, step.pid);
    }
  }

  lemma LastIsPublish(steps: seq<Step>, sid: Sid, n: int)
    requires steps != [] && Happens(steps, |steps| - 1)
    requires Publishes(Run(steps[..|steps| - 1]), steps[|steps| - 1], sid, n)
    ensures Replaced(steps, |steps| - 1, sid, n)
  {
    var s, step := Run(steps[..|steps| - 1]), steps[|steps| - 1];
    assert PublishedAt(steps, |steps| - 1, sid, n, s.procs[step.pid].buf);
  }

  lemma {:induction false} StandingIsOpen(steps: seq<Step>, i: nat, sid: Sid, n: int, b: BufId)
    requires StandsSince(steps, i, sid, n, b)
    ensures OpenPart(Run(steps), sid, n, b)
  {
    hide Apply, Enabled, OpenPart, Inv, IsPart;
    var k := |steps| - 1;
    var before, step := steps[..k], steps[k];
    var s := Run(before);
    RunInv(before);
    if i == k {
      PublishingOpens(s, step, sid, n, b);
    } else {
      StandsBefore(steps, i, sid, n, b);
      StandingIsOpen(before, i, sid, n, b);
      if Enabled(s, step) {
        assert !Replaced(steps, k, sid, n) && !SweptAt(steps, k, sid) && !ReleasedAt(steps, k, b);
        if Publishes(s, step, sid, n) {
          LastIsPublish(steps, sid, n);
        }
        OpenPartStays(s, step, sid, n, b);
      }
    }
  }

  // The events of a run are those of its beginning and its last step.
  lemma EventsBefore(steps: seq<Step>, j: nat, sid: Sid, n: int, b: BufId)
    requires steps != [] && j < |steps| - 1
    ensures var before := steps[..|steps| - 1];
            && PublishedAt(before, j, sid, n, b) == PublishedAt(steps, j, sid, n, b)
            && SweptAt(before, j, sid) == SweptAt(steps, j, sid)
            && ReleasedAt(before, j, b) == ReleasedAt(steps, j, b)
            && RefusedAt(before, j, b) == RefusedAt(steps, j, b)
  {
    hide Run, Enabled;
    Prefixes(steps, j);
  }

  lemma StandsBefore(steps: seq<Step>, i: nat, sid: Sid, n: int, b: BufId)
    requires steps != [] && i < |steps| - 1 && StandsSince(steps, i, sid, n, b)
    ensures StandsSince(steps[..|steps| - 1], i, sid, n, b)
  {
    hide PublishedAt, SweptAt, ReleasedAt;
    var before := steps[..|steps| - 1];
    EventsBefore(steps, i, sid, n, b);
    forall j | i < j < |before|
      ensures !Replaced(before, j, sid, n) && !SweptAt(before, j, sid) && !ReleasedAt(before, j, b)
    {
      EventsBefore(steps, j, sid, n, b);
      assert !Replaced(steps, j, sid, n);
      forall b' ensures !PublishedAt(before, j, sid, n, b') {
        EventsBefore(steps, j, sid, n, b');
      }
    }
  }

  // A standing part still stands after a step that leaves it open.
  lemma StandsAfter(steps: seq<Step>, i: nat, sid: Sid, n: int, b: BufId)
    requires steps != [] && StandsSince(steps[..|steps| - 1], i, sid, n, b)
    requires Happens(steps, |steps| - 1) ==> !Closes(Run(steps[..|steps| - 1]), steps[|steps| - 1], b)
    ensures StandsSince(steps, i, sid, n, b)
  {
    hide Run, Enabled, Apply;
    var k := |steps| - 1;
    var before := steps[..k];
    StandingIsOpen(before, i, sid, n, b);
    EventsBefore(steps, i, sid, n, b);
    forall j | i < j < |steps|
      ensures !Replaced(steps, j, sid, n) && !SweptAt(steps, j, sid) && !ReleasedAt(steps, j, b)
    {
      if j < k {
        assert !Replaced(before, j, sid, n);
        EventsBefore(steps, j, sid, n, b);
        forall b' ensures !PublishedAt(steps, j, sid, n, b') {
          EventsBefore(steps, j, sid, n, b');
        }
      }
    }
  }

  // -------------------------------------------------- the reasons for being open

  // In one step: why a buffer that is open afterwards is open.
  lemma OpenStep(s: State, step: Step, b: BufId)
    requires Inv(s) && Enabled(s, step)
    requires b in Apply(s, step).bufs && !Apply(s, step).bufs[b].closed
    ensures || (b in s.bufs && !s.bufs[b].closed && !Closes(s, step, b))
            || Filling(Apply(s, step), b)
  {
    hide AssembledReadAt, SnapshotOf, Requested, Views, ProcsOk, SessionsOk, PartsDistinct, UploadsOk;
    if b in s.bufs {
      ClosedStep(s, step, b);
    } else {
      assert step.OpenBuffer?;
      assert Fills(Apply(s, step).procs[step.pid], b);
    }
  }

  // In one step: how a buffer ceases to be filled.
  lemma FilledStep(s: State, step: Step, b: BufId)
    requires Inv(s) && Enabled(s, step) && Filling(s, b) && !Closes(s, step, b)
    ensures || Filling(Apply(s, step), b)
            || (step.DropPart? && !step.copyFailed && s.procs[step.pid].buf == b)
            || (step.PublishPart? && s.procs[step.pid].buf == b)
  {
    hide AssembledReadAt, SnapshotOf, Requested, Views, ProcsOk, SessionsOk, PartsDistinct, UploadsOk, CloseAll;
    var p :| p in s.procs && Fills(s.procs[p], b);
    if Mover(step) != Some(p) {
      OthersStay(s, step, p);
      assert Fills(Apply(s, step).procs[p], b);
    } else if step.CopyChunk? {
      assert Fills(Apply(s, step).procs[p], b);
    }
  }

  lemma {:induction false} OpenHasReason(steps: seq<Step>, b: BufId)
    requires b in Run(steps).bufs && !Run(steps).bufs[b].closed
    ensures Filling(Run(steps), b) || Refused(steps, b) || exists sid :: Stands(steps, sid, b)
  {
    hide Apply, Enabled, Inv, Closes, Filling, StandsSince;
    if steps != [] {
      var k := |steps| - 1;
      var before, step := steps[..k], steps[k];
      var s := Run(before);
      RunInv(before);
      if Enabled(s, step) {
        OpenStep(s, step, b);
      }
      if !Filling(Run(steps), b) {
        OpenHasReason(before, b);
        if Filling(s, b) {
          FilledStep(s, step, b);
          LastOfFilling(steps, b);
        } else {
          ReasonStays(steps, before, b);
        }
      }
    }
  }

  lemma LastOfFilling(steps: seq<Step>, b: BufId)
    requires steps != [] && Happens(steps, |steps| - 1)
    requires var s, step := Run(steps[..|steps| - 1]), steps[|steps| - 1];
             ((step.DropPart? && !step.copyFailed) || step.PublishPart?) && s.procs[step.pid].buf == b
    ensures Refused(steps, b) || exists sid :: Stands(steps, sid, b)
  {
    hide Run, Apply;
    var k := |steps| - 1;
    var s, step := Run(steps[..k]), steps[k];
    if step.DropPart? {
      assert RefusedAt(steps, k, b);
    } else {
      var p := s.procs[step.pid];
      assert StandsSince(steps, k, p.sid, p.number, b);
      assert Stands(steps, p.sid, b);
    }
  }

  lemma ReasonStays(steps: seq<Step>, before: seq<Step>, b: BufId)
    requires steps != [] && before == steps[..|steps| - 1]
    requires Refused(before, b) || exists sid :: Stands(before, sid, b)
    requires Happens(steps, |before|) ==> !Closes(Run(before), steps[|before|], b)
    ensures Refused(steps, b) || exists sid :: Stands(steps, sid, b)
  {
    hide Run, Apply, Enabled, Closes, StandsSince, RefusedAt;
    if Refused(before, b) {
      var i :| RefusedAt(before, i, b);
      RefusedBefore(before, i, b);
      EventsBefore(steps, i, 0, 0, b);
      assert RefusedAt(steps, i, b);
    } else {
      var sid :| Stands(before, sid, b);
      var i, n :| StandsSince(before, i, sid, n, b);
      StandsAfter(steps, i, sid, n, b);
      assert Stands(steps, sid, b);
    }
  }

  lemma RefusedBefore(steps: seq<Step>, i: nat, b: BufId)
    requires RefusedAt(steps, i, b)
    ensures i < |steps|
  {
  }

  /**
   In every run an issued buffer is open exactly if it is still being filled, or
   its part was refused for its content hash, or it is the current part of a
   session and was published after every closing of that session's parts and
   after every release of an assembled reader that reached it.
   */
  lemma OpenExactly(steps: seq<Step>, b: BufId)
    requires b in Run(steps).bufs
    ensures !Run(steps).bufs[b].closed
            <==> Filling(Run(steps), b) || Refused(steps, b) || exists sid :: Stands(steps, sid, b)
  {
    hide Apply, Enabled, StandsSince, RefusedAt, Run;
    RunInv(steps);
    if !Run(steps).bufs[b].closed {
      OpenHasReason(steps, b);
    }
    if Refused(steps, b) {
      var i :| RefusedAt(steps, i, b);
      RefusedIsAbandoned(steps, i, b);
    }
    if sid :| Stands(steps, sid, b) {
      var i, n :| StandsSince(steps, i, sid, n, b);
      StandingIsOpen(steps, i, sid, n, b);
    }
  }

  // ----------------------------------------------------------- never closed again

  ghost predicate AllFinished(s: State) {
    forall p :: p in s.procs ==> s.procs[p].Finished?
  }

  // Whether a handler still has a way to the parts of a session, or to one buffer.
  predicate HoldsSession(p: Proc, sid: Sid) {
    !p.Closing? && !p.Finished? && p.sid == sid
  }

  ghost predicate HoldsBuffer(p: Proc, b: BufId) {
    || Fills(p, b)
    || (HasSnapshot(p) && exists i :: 0 <= i < |p.snap| && p.snap[i].buf == b)
  }

  // Open, and out of reach of every handler, present or future.
  ghost predicate Orphan(s: State, b: BufId) {
    && b in s.bufs && !s.bufs[b].closed
    && (forall p :: p in s.procs ==> !HoldsBuffer(s.procs[p], b))
    && (forall sid, n :: IsPart(s, sid, n, b) ==>
          sid !in s.registered && forall p :: p in s.procs ==> !HoldsSession(s.procs[p], sid))
  }

  lemma OrphanStays(s: State, step: Step, b: BufId)
    requires Inv(s) && Enabled(s, step) && Orphan(s, b)
    ensures Orphan(Apply(s, step), b)
  {
    hide Inv, Apply, Enabled;
    var t := Apply(s, step);
    OrphanNotClosed(s, step, b);
    forall p | p in t.procs ensures !HoldsBuffer(t.procs[p], b) {
      OrphanNotTaken(s, step, b, p);
    }
    forall sid, n | IsPart(t, sid, n, b)
      ensures sid !in t.registered && forall p :: p in t.procs ==> !HoldsSession(t.procs[p], sid)
    {
      OrphanPartStays(s, step, b, sid, n);
      forall p | p in t.procs ensures !HoldsSession(t.procs[p], sid) {
        OrphanNotHeld(s, step, sid, p);
      }
    }
  }

  lemma OrphanNotClosed(s: State, step: Step, b: BufId)
    requires Inv(s) && Enabled(s, step) && Orphan(s, b)
    ensures b in Apply(s, step).bufs && !Apply(s, step).bufs[b].closed
  {
    hide Inv, Apply;
    ClosedStep(s, step, b);
  }

  lemma OrphanNotTaken(s: State, step: Step, b: BufId, p: Pid)
    requires Inv(s) && Enabled(s, step) && Orphan(s, b) && p in Apply(s, step).procs
    ensures !HoldsBuffer(Apply(s, step).procs[p], b)
  {
    hide Inv, AssembledReadAt, SnapshotOf, Requested, Views, CloseAll, IsPart;
    var t := Apply(s, step);
    if Mover(step) != Some(p) {
      OthersStay(s, step, p);
    } else if step.TakeSnapshot? {
      var sid, nums := s.procs[p].sid, s.procs[p].nums;
      if SnapshotOf(s.sessions[sid], nums).Some? {
        forall i | 0 <= i < |SnapshotOf(s.sessions[sid], nums).value|
          ensures SnapshotOf(s.sessions[sid], nums).value[i].buf != b
        {
          var n := SnapshotFromParts(s, sid, nums, i);
          assert HoldsSession(s.procs[p], sid);
        }
      }
    } else if p in s.procs {
      assert !HoldsBuffer(s.procs[p], b);
      if step.CloseNext? && s.procs[p].snap != [] {
        forall i | 0 <= i < |t.procs[p].snap| ensures t.procs[p].snap[i].buf != b {
          assert t.procs[p].snap[i] == s.procs[p].snap[i + 1];
        }
      }
    }
  }

  lemma {:induction false} SnapshotFromParts(s: State, sid: Sid, nums: seq<int>, i: nat) returns (n: int)
    requires sid in s.sessions && SnapshotOf(s.sessions[sid], nums).Some?
    requires i < |SnapshotOf(s.sessions[sid], nums).value|
    ensures IsPart(s, sid, n, SnapshotOf(s.sessions[sid], nums).value[i].buf)
    decreases nums
  {
    if i == 0 {
      n := nums[0];
    } else {
      n := SnapshotFromParts(s, sid, nums[1..], i - 1);
    }
  }

  lemma OrphanPartStays(s: State, step: Step, b: BufId, sid: Sid, n: int)
    requires Inv(s) && Enabled(s, step) && Orphan(s, b) && IsPart(Apply(s, step), sid, n, b)
    ensures IsPart(s, sid, n, b) && sid !in Apply(s, step).registered
  {
    hide Inv, AssembledReadAt, SnapshotOf, Requested, Views, CloseAll;
    PartStep(s, step, sid, n, b);
    if step.PublishPart? {
      assert !HoldsBuffer(s.procs[step.pid], b);
    }
  }

  lemma OrphanNotHeld(s: State, step: Step, sid: Sid, p: Pid)
    requires Enabled(s, step) && sid !in s.registered && p in Apply(s, step).procs
    requires p in s.procs ==> !HoldsSession(s.procs[p], sid)
    ensures !HoldsSession(Apply(s, step).procs[p], sid)
  {
    hide AssembledReadAt, SnapshotOf, Requested, Views, CloseAll;
    if Mover(step) != Some(p) {
      OthersStay(s, step, p);
    }
  }

  lemma {:induction false} OrphanForever(steps: seq<Step>, more: seq<Step>, b: BufId)
    requires Orphan(Run(steps), b)
    ensures Orphan(Run(steps + more), b)
  {
    hide Apply, Enabled, Orphan, Inv;
    if more == [] {
      assert steps + more == steps;
    } else {
      var n := |more| - 1;
      OrphanForever(steps, more[..n], b);
      RunInv(steps + more[..n]);
      RunSnoc(steps + more[..n], more[n]);
      assert steps + more[..n] + [more[n]] == steps + more;
      if Enabled(Run(steps + more[..n]), more[n]) {
        OrphanStays(Run(steps + more[..n]), more[n], b);
      }
    }
  }

  // An abort, from its lookup to its end.
  function Abort(pid: Pid, sid: Sid): seq<Step> {
    [BeginAbort(pid, sid), Unregister(pid), CloseParts(pid)]
  }

  lemma FreshPid(pids: set<Pid>) returns (pid: Pid)
    ensures pid !in pids
  {
    pid := Above(pids);
  }

  lemma {:induction false} Above(pids: set<Pid>) returns (top: Pid)
    ensures forall p :: p in pids ==> p < top
  {
    if pids == {} {
      top := 0;
    } else {
      var p :| p in pids;
      var rest := Above(pids - {p});
      top := if p < rest then rest else p + 1;
      assert forall q :: q in pids ==> q == p || q in pids - {p};
    }
  }

  /** An abort closes the parts of a registered session. */
  lemma AbortCloses(steps: seq<Step>, pid: Pid, sid: Sid, n: int, b: BufId)
    requires pid !in Run(steps).procs && sid in Run(steps).registered && IsPart(Run(steps), sid, n, b)
    requires b in Run(steps).bufs
    ensures b in Run(steps + Abort(pid, sid)).bufs && Run(steps + Abort(pid, sid)).bufs[b].closed
  {
    hide Run, Apply, Enabled, CloseAll, Inv;
    var s := Run(steps);
    var one, two := steps + [BeginAbort(pid, sid)], steps + [BeginAbort(pid, sid), Unregister(pid)];
    assert one + [Unregister(pid)] == two && two + [CloseParts(pid)] == steps + Abort(pid, sid);
    RunSnoc(steps, BeginAbort(pid, sid));
    BeginsAbort(s, pid, sid);
    RunSnoc(one, Unregister(pid));
    Unregisters(Run(one), pid);
    RunSnoc(two, CloseParts(pid));
    Clears(Run(two), pid);
    InPartBufs(s, sid, b);
    ClosesOne(s.bufs, PartBufs(s.sessions[sid]), b);
  }

  lemma BeginsAbort(s: State, pid: Pid, sid: Sid)
    requires pid !in s.procs && sid in s.registered
    ensures Enabled(s, BeginAbort(pid, sid)) && Apply(s, BeginAbort(pid, sid)) == Put(s, pid, Aborting(sid))
  {
  }

  lemma ClosesOne(bufs: map<BufId, Buf>, ids: set<BufId>, b: BufId)
    requires b in bufs && b in ids
    ensures b in CloseAll(bufs, ids) && CloseAll(bufs, ids)[b].closed
  {
  }

  // No continuation of the run closes the buffer.
  ghost predicate Leaked(steps: seq<Step>, b: BufId) {
    forall more: seq<Step> :: b in Run(steps + more).bufs && !Run(steps + more).bufs[b].closed
  }

  /**
   Once all handlers are done, the buffers that nothing will ever close are
   exactly those refused for their content hash, and those published after the
   last closing of a session that is no longer registered.
   */
  lemma LeakedExactly(steps: seq<Step>, b: BufId)
    requires AllFinished(Run(steps)) && b in Run(steps).bufs
    ensures Leaked(steps, b)
            <==> Refused(steps, b) || exists sid :: Stands(steps, sid, b) && sid !in Run(steps).registered
  {
    hide Apply, Enabled, StandsSince, RefusedAt, Run;
    var s := Run(steps);
    if Leaked(steps, b) {
      assert steps + [] == steps;
      OpenHasReason(steps, b);
      if sid :| Stands(steps, sid, b) {
        var i, n :| StandsSince(steps, i, sid, n, b);
        StandingIsOpen(steps, i, sid, n, b);
        if sid in s.registered {
          var pid := FreshPid(s.procs.Keys);
          AbortCloses(steps, pid, sid, n, b);
        }
      }
    }
    if Refused(steps, b) || exists sid :: Stands(steps, sid, b) && sid !in s.registered {
      QuietOrphan(steps, b);
      forall more: seq<Step> ensures b in Run(steps + more).bufs && !Run(steps + more).bufs[b].closed {
        OrphanForever(steps, more, b);
      }
    }
  }

  lemma QuietOrphan(steps: seq<Step>, b: BufId)
    requires AllFinished(Run(steps)) && b in Run(steps).bufs
    requires Refused(steps, b) || exists sid :: Stands(steps, sid, b) && sid !in Run(steps).registered
    ensures Orphan(Run(steps), b)
  {
    hide Apply, Enabled, StandsSince, RefusedAt, Run;
    var s := Run(steps);
    RunInv(steps);
    OpenExactly(steps, b);
    forall sid, n | IsPart(s, sid, n, b) ensures sid !in s.registered {
      if Refused(steps, b) {
        var i :| RefusedAt(steps, i, b);
        RefusedIsAbandoned(steps, i, b);
      } else {
        var sid' :| Stands(steps, sid', b) && sid' !in s.registered;
        var i, n' :| StandsSince(steps, i, sid', n', b);
        StandingIsOpen(steps, i, sid', n', b);
        assert IsPart(s, sid', n', b);
      }
    }
  }

  /** The last upload to finish leaks its part exactly if its session was completed or aborted meanwhile. */
  lemma LatePartLeaksExactly(steps: seq<Step>, pid: Pid)
    requires Enabled(Run(steps), PublishPart(pid))
    requires forall q :: q in Run(steps).procs && q != pid ==> Run(steps).procs[q].Finished?
    ensures var p := Run(steps).procs[pid];
            Leaked(steps + [PublishPart(pid)], p.buf) <==> p.sid !in Run(steps).registered
  {
    hide Inv, StandsSince, RefusedAt, Run, Leaked, IsPart, Apply;
    var all, k, p := steps + [PublishPart(pid)], |steps|, Run(steps).procs[pid];
    assert all[..k] == steps;
    RunSnoc(steps, PublishPart(pid));
    RunInv(all);
    JustPublished(all, p.sid, p.number, p.buf);
    StandingIsOpen(all, k, p.sid, p.number, p.buf);
    assert Stands(all, p.sid, p.buf);
    PublishingEnds(Run(steps), pid);
    LeakedExactly(all, p.buf);
    if i :| RefusedAt(all, i, p.buf) {
      RefusedIsAbandoned(all, i, p.buf);
    }
    if sid :| Stands(all, sid, p.buf) && sid !in Run(all).registered {
      var i, n :| StandsSince(all, i, sid, n, p.buf);
      StandingIsOpen(all, i, sid, n, p.buf);
      OneHome(Run(all), sid, n, p.sid, p.number, p.buf);
    }
  }

  lemma PublishingEnds(s: State, pid: Pid)
    requires Enabled(s, PublishPart(pid))
    ensures var t := Apply(s, PublishPart(pid));
            t.registered == s.registered && t.procs == s.procs[pid := Finished(None)]
  {
  }

  lemma OneHome(s: State, sid: Sid, n: int, sid': Sid, n': int, b: BufId)
    requires Inv(s) && IsPart(s, sid, n, b) && IsPart(s, sid', n', b)
    ensures sid == sid' && n == n'
  {
  }

  lemma JustPublished(steps: seq<Step>, sid: Sid, n: int, b: BufId)
    requires steps != [] && PublishedAt(steps, |steps| - 1, sid, n, b)
    ensures StandsSince(steps, |steps| - 1, sid, n, b)
  {
  }
}
