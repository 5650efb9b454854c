/** A multipart upload that nobody disturbs: parts one after another, then a completion. */
module PlainUpload {
  import opened Base
  import opened Sorting
  import opened Assembled
  import opened Multipart
  import opened Completions

  /** One part: looked up, given a buffer, filled and published. */
  function PartSteps(k: nat, data: Bytes): seq<Step> {
    [BeginPart(k, 0, k + 1), OpenBuffer(k, k, true), CopyChunk(k, data), PublishPart(k)]
  }

  /** A new session and its parts, numbered from 1. */
  function UploadSteps(key: string, pieces: seq<Bytes>): seq<Step> {
    if pieces == [] then [Create(0, key)]
    else UploadSteps(key, pieces[..|pieces| - 1]) + PartSteps(|pieces| - 1, pieces[|pieces| - 1])
  }

  function UpTo(n: nat): seq<int> {
    seq(n, k => k + 1)
  }

  lemma InUpTo(n: nat)
    ensures forall k :: k in UpTo(n) <==> 1 <= k <= n
  {
    forall k | 1 <= k <= n ensures k in UpTo(n) {
      assert UpTo(n)[k - 1] == k;
    }
  }

  function Below(n: nat): (s: seq<nat>)
    ensures forall k: nat :: k in s <==> k < n
  {
    if n == 0 then [] else Below(n - 1) + [n - 1]
  }

  // The state after those parts.
  function Uploaded(key: string, pieces: seq<Bytes>): State {
    State(map[0 := Session(key, Parts(pieces))], {0}, Bufs(pieces), Done(|pieces|))
  }

  function Parts(pieces: seq<Bytes>): map<int, PartInfo> {
    InUpTo(|pieces|);
    map n | n in UpTo(|pieces|) :: PartInfo(|pieces[n - 1]|, n - 1)
  }

  function Bufs(pieces: seq<Bytes>): map<BufId, Buf> {
    map k | k in Below(|pieces|) :: Buf(true, pieces[k], false, true)
  }

  function Done(n: nat): map<Pid, Proc> {
    map k | k in Below(n) :: Finished(None)
  }

  lemma Creates(s: State, sid: Sid, key: string)
    requires sid !in s.sessions
    ensures Enabled(s, Create(sid, key))
    ensures Apply(s, Create(sid, key)) ==
            s.(sessions := s.sessions[sid := Session(key, map[])], registered := s.registered + {sid})
  {
  }

  lemma NothingUploaded(key: string)
    ensures Uploaded(key, []) == State(map[0 := Session(key, map[])], {0}, map[], map[])
  {
    var t := Uploaded(key, []);
    assert t.sessions[0].parts == map[];
    assert t.bufs == map[] && t.procs == map[];
  }

  // The four steps of one part, one by one.
  lemma BeginsPart(s: State, pid: Pid, sid: Sid, n: int)
    requires pid !in s.procs && sid in s.registered && n > 0
    ensures Enabled(s, BeginPart(pid, sid, n)) && Apply(s, BeginPart(pid, sid, n)) == Put(s, pid, Preparing(sid, n))
  {
  }

  lemma OpensBuffer(s: State, pid: Pid, sid: Sid, n: int, b: BufId)
    requires pid in s.procs && s.procs[pid] == Preparing(sid, n) && b !in s.bufs
    ensures Enabled(s, OpenBuffer(pid, b, true))
    ensures Apply(s, OpenBuffer(pid, b, true)) ==
            Put(s.(bufs := s.bufs[b := Buf(true, [], false, false)]), pid, Uploading(sid, n, b))
  {
  }

  lemma Copies(s: State, pid: Pid, sid: Sid, n: int, b: BufId, data: Bytes)
    requires pid in s.procs && s.procs[pid] == Uploading(sid, n, b)
    requires b in s.bufs && s.bufs[b] == Buf(true, [], false, false)
    ensures Enabled(s, CopyChunk(pid, data))
    ensures Apply(s, CopyChunk(pid, data)) == s.(bufs := s.bufs[b := Buf(true, data, false, false)])
  {
    assert [] + data == data;
  }

  lemma Publishing(s: State, pid: Pid, sid: Sid, n: int, b: BufId, data: Bytes)
    requires pid in s.procs && s.procs[pid] == Uploading(sid, n, b)
    requires b in s.bufs && s.bufs[b] == Buf(true, data, false, false)
    requires sid in s.sessions && n !in s.sessions[sid].parts
    ensures Enabled(s, PublishPart(pid))
    ensures var session := s.sessions[sid];
            Apply(s, PublishPart(pid)) ==
            s.(bufs := s.bufs[b := Buf(true, data, false, true)], procs := s.procs[pid := Finished(None)],
               sessions := s.sessions[sid := session.(parts := session.parts[n := PartInfo(|data|, b)])])
  {
  }

  // What the four steps make of the state.
  function WithPart(s: State, k: nat, data: Bytes): State
    requires 0 in s.sessions
  {
    var session := s.sessions[0];
    State(s.sessions[0 := session.(parts := session.parts[k + 1 := PartInfo(|data|, k)])], s.registered,
          s.bufs[k := Buf(true, data, false, true)], s.procs[k := Finished(None)])
  }

  // The states between the four steps.
  function Opened(s: State, k: nat): State {
    Put(s.(bufs := s.bufs[k := Buf(true, [], false, false)]), k, Uploading(0, k + 1, k))
  }

  function Filled(s: State, k: nat, data: Bytes): State {
    Put(s.(bufs := s.bufs[k := Buf(true, data, false, false)]), k, Uploading(0, k + 1, k))
  }

  lemma OpenedFrom(s: State, k: nat)
    requires k !in s.procs && k !in s.bufs && 0 in s.registered
    ensures Enabled(s, BeginPart(k, 0, k + 1))
    ensures var s1 := Apply(s, BeginPart(k, 0, k + 1));
            Enabled(s1, OpenBuffer(k, k, true)) && Apply(s1, OpenBuffer(k, k, true)) == Opened(s, k)
  {
    hide Apply, Enabled;
    BeginsPart(s, k, 0, k + 1);
    var s1 := Apply(s, BeginPart(k, 0, k + 1));
    OpensBuffer(s1, k, 0, k + 1, k);
    assert s1.procs[k := Uploading(0, k + 1, k)] == s.procs[k := Uploading(0, k + 1, k)];
  }

  lemma FilledFrom(s: State, k: nat, data: Bytes)
    ensures Enabled(Opened(s, k), CopyChunk(k, data)) && Apply(Opened(s, k), CopyChunk(k, data)) == Filled(s, k, data)
  {
    hide Apply, Enabled;
    Copies(Opened(s, k), k, 0, k + 1, k, data);
    assert Opened(s, k).bufs[k := Buf(true, data, false, false)] == s.bufs[k := Buf(true, data, false, false)];
  }

  lemma PublishedFrom(s: State, k: nat, data: Bytes)
    requires 0 in s.sessions && k + 1 !in s.sessions[0].parts
    ensures Enabled(Filled(s, k, data), PublishPart(k))
    ensures Apply(Filled(s, k, data), PublishPart(k)) == WithPart(s, k, data)
  {
    hide Apply, Enabled;
    var f := Filled(s, k, data);
    Publishing(f, k, 0, k + 1, k, data);
    assert f.bufs[k := Buf(true, data, false, true)] == s.bufs[k := Buf(true, data, false, true)];
    assert f.procs[k := Finished(None)] == s.procs[k := Finished(None)];
  }

  lemma PartRuns(steps: seq<Step>, k: nat, data: Bytes)
    requires var s := Run(steps);
             && k !in s.procs && k !in s.bufs && 0 in s.registered && 0 in s.sessions && k + 1 !in s.sessions[0].parts
    ensures Run(steps + PartSteps(k, data)) == WithPart(Run(steps), k, data)
  {
    hide Run, Apply, Enabled, WithPart, Opened, Filled;
    var s := Run(steps);
    var w := PartSteps(k, data);
    var one, two, three := steps + [w[0]], steps + [w[0], w[1]], steps + [w[0], w[1], w[2]];
    assert one + [w[1]] == two && two + [w[2]] == three && three + [w[3]] == steps + w;
    RunSnoc(steps, w[0]);
    OpenedFrom(s, k);
    RunSnoc(one, w[1]);
    FilledFrom(s, k, data);
    RunSnoc(two, w[2]);
    PublishedFrom(s, k, data);
    RunSnoc(three, w[3]);
  }

  lemma PartsSnoc(pieces: seq<Bytes>, data: Bytes)
    ensures Parts(pieces + [data]) == Parts(pieces)[|pieces| + 1 := PartInfo(|data|, |pieces|)]
  {
    InUpTo(|pieces|);
    InUpTo(|pieces| + 1);
  }

  lemma BufsSnoc(pieces: seq<Bytes>, data: Bytes)
    ensures Bufs(pieces + [data]) == Bufs(pieces)[|pieces| := Buf(true, data, false, true)]
  {
  }

  lemma DoneSnoc(n: nat)
    ensures Done(n + 1) == Done(n)[n := Finished(None)]
  {
  }

  lemma UploadedSnoc(key: string, pieces: seq<Bytes>, data: Bytes)
    ensures Uploaded(key, pieces + [data]) == WithPart(Uploaded(key, pieces), |pieces|, data)
  {
    hide Parts, Bufs, Done;
    PartsSnoc(pieces, data);
    BufsSnoc(pieces, data);
    DoneSnoc(|pieces|);
  }

  lemma {:induction false} UploadRuns(key: string, pieces: seq<Bytes>)
    ensures Run(UploadSteps(key, pieces)) == Uploaded(key, pieces)
    decreases |pieces|
  {
    hide Run, Apply, Enabled, Uploaded, WithPart;
    if pieces == [] {
      Creates(INIT, 0, key);
      NothingUploaded(key);
      assert Run([]) == INIT by {
        EmptyRun();
      }
      RunSnoc([], Create(0, key));
      assert [] + [Create(0, key)] == UploadSteps(key, pieces);
    } else {
      var n := |pieces| - 1;
      UploadRuns(key, pieces[..n]);
      NextPartIsNew(key, pieces[..n]);
      PartRuns(UploadSteps(key, pieces[..n]), n, pieces[n]);
      UploadedSnoc(key, pieces[..n], pieces[n]);
      assert pieces[..n] + [pieces[n]] == pieces;
    }
  }

  lemma EmptyRun()
    ensures Run([]) == INIT
  {
  }

  lemma NextPartIsNew(key: string, pieces: seq<Bytes>)
    ensures var s, k := Uploaded(key, pieces), |pieces|;
            && k !in s.procs && k !in s.bufs && 0 in s.registered && 0 in s.sessions && k + 1 !in s.sessions[0].parts
  {
    InUpTo(|pieces|);
  }

  /** A completion by handler `pid` that asks for all parts: lookup and list. */
  function CompletionBegins(pid: Pid, n: nat): seq<Step> {
    [BeginComplete(pid, 0), ListParts(pid, [], UpTo(n))]
  }

  lemma BeginsCompletion(s: State, pid: Pid, sid: Sid)
    requires pid !in s.procs && sid in s.registered
    ensures Enabled(s, BeginComplete(pid, sid)) && Apply(s, BeginComplete(pid, sid)) == Put(s, pid, Looking(sid))
  {
  }

  lemma Lists(s: State, pid: Pid, sid: Sid, nums: seq<int>)
    requires pid in s.procs && s.procs[pid] == Looking(sid) && sid in s.sessions
    requires Requested(s.sessions[sid], [], nums)
    ensures Enabled(s, ListParts(pid, [], nums))
    ensures Apply(s, ListParts(pid, [], nums)) == Put(s, pid, Listing(sid, nums))
  {
  }

  lemma AllNumbers(key: string, pieces: seq<Bytes>)
    ensures Requested(Uploaded(key, pieces).sessions[0], [], UpTo(|pieces|))
  {
    InUpTo(|pieces|);
  }

  lemma FindsAll(key: string, pieces: seq<Bytes>, s: State, pid: Pid) returns (snap: seq<PartInfo>)
    requires var t := Uploaded(key, pieces);
             s == t.(procs := s.procs) && pid in s.procs && s.procs[pid] == Listing(0, UpTo(|pieces|))
    ensures Finds(s, pid, 0, snap) && Deliverable(s.bufs, snap)
    ensures IsConcatenation(Content(s.bufs, snap), pieces)
  {
    hide SnapshotOf, Views, Concat, IsConcatenation;
    InUpTo(|pieces|);
    var nums := UpTo(|pieces|);
    SnapshotExactly(s.sessions[0], nums);
    assert forall k :: 0 <= k < |nums| ==> nums[k] == k + 1 && nums[k] in s.sessions[0].parts;
    snap := SnapshotOf(s.sessions[0], nums).value;
    forall k | 0 <= k < |snap| ensures snap[k].buf == k {
      assert snap[k] == s.sessions[0].parts[nums[k]];
    }
    var views := Views(s.bufs, snap);
    forall k | 0 <= k < |snap| ensures views[k].data == pieces[k] {
      ViewAt(s.bufs, snap, k);
    }
    ConcatLaysOut(views, pieces);
  }

  /**
   Undisturbed, an upload of any parts ends in success, with the parts one after
   another as the stored object: here in temporary files, created, filled,
   published, looked up, listed and completed step by step.
   */
  lemma UploadWorks(key: string, pieces: seq<Bytes>)
    ensures exists more: seq<Step>, content: Bytes ::
              Succeeded(Run(UploadSteps(key, pieces) + CompletionBegins(|pieces|, |pieces|) + more), |pieces|, content)
              && IsConcatenation(content, pieces)
  {
    hide Run, Apply, Enabled, Uploaded, Finds, Deliverable, IsConcatenation, Succeeded, Requested, Content;
    var n := |pieces|;
    var steps, w := UploadSteps(key, pieces), CompletionBegins(n, n);
    var one, two := steps + [w[0]], steps + w;
    assert one + [w[1]] == two;
    UploadRuns(key, pieces);
    NextPartIsNew(key, pieces);
    RunSnoc(steps, w[0]);
    BeginsCompletion(Run(steps), n, 0);
    AllNumbers(key, pieces);
    RunSnoc(one, w[1]);
    Lists(Run(one), n, 0, UpTo(n));
    var snap := FindsAll(key, pieces, Run(two), n);
    CompletesExactly(two, n, 0, snap);
    var content := Content(Run(two).bufs, snap);
    var rest: seq<Step> :| Succeeded(Run(two + [TakeSnapshot(n)] + rest), n, content);
    var more := [TakeSnapshot(n)] + rest;
    assert two + more == two + [TakeSnapshot(n)] + rest;
  }
}
