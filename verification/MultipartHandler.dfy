/** The multipart handler's own loops and critical sections, on the state they update in place. */
module MultipartHandler {
  import opened Base
  import opened Sorting
  import opened Multipart

  /** The handler's share of the state, updated under its mutexes. */
  class S3Handler {
    var sessions: map<Sid, Session>
    var registered: set<Sid>
    var bufs: map<BufId, Buf>

    constructor ()
      ensures sessions == map[] && registered == {} && bufs == map[]
    {
      sessions, registered, bufs := map[], {}, map[];
    }

    /** The end of `uploadPart`, under the session's mutex. */
    method StorePart(sid: Sid, number: int, buf: BufId, ghost s: State)
      requires s == State(sessions, registered, bufs, s.procs) && sid in sessions && buf in bufs
      modifies this
      ensures Replace(s, sid, number, buf) == State(sessions, registered, bufs, s.procs)
    {
      var session := sessions[sid];
      var size := |bufs[buf].data|;
      if number in session.parts {
        var previous := session.parts[number].buf;
        if previous in bufs {
          bufs := bufs[previous := bufs[previous].(closed := true)];
        }
      }
      bufs := bufs[buf := bufs[buf].(sealed := true)];
      sessions := sessions[sid := session.(parts := session.parts[number := PartInfo(size, buf)])];
    }

    /** `requestedPartNumbers`. */
    method RequestedPartNumbers(sid: Sid, requested: seq<int>) returns (nums: seq<int>)
      requires sid in sessions
      ensures Requested(sessions[sid], requested, nums)
      ensures forall j, k :: 0 <= j < k < |nums| ==> nums[j] <= nums[k]
      ensures requested != [] ==> multiset(nums) == multiset(requested)
      ensures requested == [] ==> forall n :: multiset(nums)[n] == if n in sessions[sid].parts then 1 else 0
    {
      nums := requested;
      if |requested| == 0 {
        var pending: set<int> := sessions[sid].parts.Keys;
        while pending != {}
          invariant pending <= sessions[sid].parts.Keys
          invariant |requested| == 0 && Distinct(nums)
          invariant forall n :: n in nums <==> n in sessions[sid].parts && n !in pending
          decreases pending
        {
          SomeMember(pending);
          var n: int :| n in pending;
          pending := pending - {n};
          nums := nums + [n];
        }
      }
      var sorted := Sort(nums, Ascending);
      SortedNumbers(nums, sorted);
      RequestedMeans(sessions[sid], requested, sorted);
      return sorted;
    }

    /** The snapshot loop of `completeMultipartUpload`, under the session's mutex. */
    method TakeParts(sid: Sid, nums: seq<int>) returns (snap: Option<seq<PartInfo>>, total: nat)
      requires sid in sessions
      ensures snap == SnapshotOf(sessions[sid], nums)
      ensures snap.None? <==> exists k :: 0 <= k < |nums| && nums[k] !in sessions[sid].parts
      ensures snap.Some? ==>
                |snap.value| == |nums|
                && forall k :: 0 <= k < |nums| ==>
                     nums[k] in sessions[sid].parts && snap.value[k] == sessions[sid].parts[nums[k]]
      ensures snap.Some? ==> total == TotalSize(snap.value)
    {
      var readers: seq<PartInfo> := [];
      total := 0;
      SnapshotExactly(sessions[sid], nums);
      assert nums[0..] == nums;
      PrependedNothing(SnapshotOf(sessions[sid], nums));
      for i := 0 to |nums|
        invariant total == TotalSize(readers)
        invariant SnapshotOf(sessions[sid], nums) == Prepended(readers, SnapshotOf(sessions[sid], nums[i..]))
      {
        assert nums[i..][1..] == nums[i + 1..];
        if nums[i] !in sessions[sid].parts {
          return None, 0;
        }
        var part := sessions[sid].parts[nums[i]];
        TotalSnoc(readers, part);
        PrependedSnoc(readers, part, SnapshotOf(sessions[sid], nums[i + 1..]));
        readers := readers + [part];
        total := total + part.size;
      }
      assert readers + [] == readers;
      return Some(readers), total;
    }

    /** `closeMultipartParts`, under the session's mutex. */
    method CloseMultipartParts(sid: Sid)
      requires sid in sessions
      modifies this`bufs
      ensures bufs == CloseAll(old(bufs), PartBufs(sessions[sid]))
      ensures forall b :: b in old(bufs) ==>
                && b in bufs
                && (bufs[b].closed <==> old(bufs)[b].closed
                                        || exists n :: n in sessions[sid].parts && sessions[sid].parts[n].buf == b)
    {
      var pending: set<int> := sessions[sid].parts.Keys;
      while pending != {}
        invariant pending <= sessions[sid].parts.Keys
        invariant bufs == CloseAll(old(bufs),
                                   set n | n in sessions[sid].parts && n !in pending :: sessions[sid].parts[n].buf)
        decreases pending
      {
        SomeMember(pending);
        var n: int :| n in pending;
        var b := sessions[sid].parts[n].buf;
        if b in bufs {
          bufs := bufs[b := bufs[b].(closed := true)];
        }
        pending := pending - {n};
      }
    }
  }

  function TotalSize(snap: seq<PartInfo>): nat {
    if snap == [] then 0 else snap[0].size + TotalSize(snap[1..])
  }

  lemma {:induction false} TotalSnoc(snap: seq<PartInfo>, p: PartInfo)
    ensures TotalSize(snap + [p]) == TotalSize(snap) + p.size
  {
    if snap == [] {
      assert snap + [p] == [p];
    } else {
      assert (snap + [p])[1..] == snap[1..] + [p];
      TotalSnoc(snap[1..], p);
    }
  }

  function Prepended(got: seq<PartInfo>, rest: Option<seq<PartInfo>>): Option<seq<PartInfo>> {
    if rest.None? then None else Some(got + rest.value)
  }

  lemma SomeMember(s: set<int>)
    requires s != {}
    ensures exists n :: n in s
  {
    assert (forall n: int :: n !in s) ==> s == {};
  }

  lemma PrependedNothing(rest: Option<seq<PartInfo>>)
    ensures Prepended([], rest) == rest
  {
    if rest.Some? {
      assert [] + rest.value == rest.value;
    }
  }

  lemma PrependedSnoc(got: seq<PartInfo>, p: PartInfo, rest: Option<seq<PartInfo>>)
    ensures Prepended(got, Prepended([p], rest)) == Prepended(got + [p], rest)
  {
    if rest.Some? {
      assert got + ([p] + rest.value) == (got + [p]) + rest.value;
    }
  }

  lemma SortedNumbers(nums: seq<int>, sorted: seq<int>)
    requires multiset(nums) == multiset(sorted)
    ensures forall n :: n in sorted <==> n in nums
    ensures Distinct(nums) ==> Distinct(sorted)
  {
    forall n ensures n in sorted <==> n in nums {
      assert n in nums <==> n in multiset(nums);
      assert n in sorted <==> n in multiset(sorted);
    }
    if Distinct(nums) {
      DistinctBag(nums);
      BagDistinct(sorted);
    }
  }

  /** The length announced to the pipeline is the length of the assembled content. */
  lemma {:induction false} TotalIsLength(s: State, snap: seq<PartInfo>)
    requires SnapOk(s, snap)
    ensures TotalSize(snap) == |Content(s.bufs, snap)|
  {
    if snap != [] {
      assert SealedPart(s, snap[0]);
      assert forall i :: 0 <= i < |snap| - 1 ==> snap[1..][i] == snap[i + 1];
      assert SnapOk(s, snap[1..]);
      TotalIsLength(s, snap[1..]);
    }
  }
}
