/**
 Backup rotation over one remote directory: which files go, in what order, and
 what an interrupted run leaves behind.
 */
module Rotation {
  import opened Base
  import opened Sorting
  import opened Timestamps
  import opened Transfer
  import opened Outside

  /** Limits on the number and the age (in nanoseconds) of backups; 0 means no limit. */
  datatype Policy = Policy(maxCount: int, maxAge: int)

  const MAX_DURATION: int := 0x7fff_ffff_ffff_ffff

  /** `now.Sub(ts)`, which saturates. */
  function Age(now: int, ts: int): int {
    Max(-MAX_DURATION - 1, Min(MAX_DURATION, now - ts))
  }

  predicate TooOld(policy: Policy, now: int, ts: int) {
    policy.maxAge > 0 && Age(now, ts) > policy.maxAge
  }

  /** Over age, on plain numbers: later than `maxAge` after its time, for any limit that a duration can exceed. */
  lemma TooOldExactly(policy: Policy, now: int, ts: int)
    ensures TooOld(policy, now, ts) <==>
            0 < policy.maxAge < 0x7fff_ffff_ffff_ffff && now - ts > policy.maxAge
  {
  }

  predicate Doomed(policy: Policy, now: int, i: nat, ts: int) {
    (policy.maxCount > 0 && i >= policy.maxCount) || TooOld(policy, now, ts)
  }

  predicate Eligible(name: string) {
    ParseTimestamp(name).Some?
  }

  function TimeOf(name: string): int {
    var t := ParseTimestamp(name);
    if t.Some? then t.value else 0
  }

  function Times(names: seq<string>): seq<int> {
    Map(TimeOf, names)
  }

  /** The sort order of rotation. */
  predicate AtLeastAsNew(a: string, b: string) {
    TimeOf(a) >= TimeOf(b)
  }

  predicate Descends(a: int, b: int) {
    a >= b
  }

  /** What the loop of `selectForDeletion` collects from position `i` on. */
  function Select(files: seq<string>, policy: Policy, now: int, i: nat): seq<string>
    requires i <= |files|
    decreases |files| - i
  {
    if i == |files| then []
    else (if Doomed(policy, now, i, TimeOf(files[i])) then [files[i]] else []) + Select(files, policy, now, i + 1)
  }

  lemma SelectFrom(files: seq<string>, policy: Policy, now: int, i: nat)
    requires i < |files|
    ensures var rest := Select(files, policy, now, i + 1);
            Select(files, policy, now, i) ==
              if Doomed(policy, now, i, TimeOf(files[i])) then [files[i]] + rest else rest
  {
  }

  lemma DoomedSplit(policy: Policy, now: int, i: nat, ts: int)
    ensures Doomed(policy, now, i, ts) ==
            ((policy.maxCount > 0 && i >= policy.maxCount) || (policy.maxAge > 0 && Age(now, ts) > policy.maxAge))
  {
  }

  lemma SelectEnd(files: seq<string>, policy: Policy, now: int)
    ensures Select(files, policy, now, |files|) == []
  {
  }

  /** Which files of the list are collected: those behind the first `maxCount`, and those over age. */
  lemma {:induction false} SelectExactly(files: seq<string>, policy: Policy, now: int, i: nat)
    requires i <= |files|
    ensures forall n :: n in Select(files, policy, now, i) <==>
              exists k :: i <= k < |files| && files[k] == n && Collected(policy, now, k, TimeOf(n))
    decreases |files| - i
  {
    hide TimeOf, Select, Doomed, TooOld;
    if i == |files| {
      SelectEnd(files, policy, now);
    } else {
      SelectFrom(files, policy, now, i);
      SelectExactly(files, policy, now, i + 1);
      CollectedIsDoomed(policy, now, i, TimeOf(files[i]));
    }
  }

  // By position or by age, on plain numbers.
  predicate Collected(policy: Policy, now: int, k: nat, ts: int) {
    || (policy.maxCount > 0 && k >= policy.maxCount)
    || (0 < policy.maxAge < 0x7fff_ffff_ffff_ffff && now - ts > policy.maxAge)
  }

  lemma CollectedIsDoomed(policy: Policy, now: int, k: nat, ts: int)
    ensures Collected(policy, now, k, ts) <==> Doomed(policy, now, k, ts)
  {
    TooOldExactly(policy, now, ts);
  }

  method SelectForDeletion(files: seq<string>, policy: Policy, now: int) returns (result: seq<string>)
    ensures result == Select(files, policy, now, 0)
    ensures forall n :: n in result <==>
              exists k :: 0 <= k < |files| && files[k] == n && Collected(policy, now, k, TimeOf(n))
  {
    hide TimeOf, Age, Doomed, Select, Collected;
    SelectExactly(files, policy, now, 0);
    result := [];
    SelectEnd(files, policy, now);
    for i := 0 to |files|
      invariant result + Select(files, policy, now, i) == Select(files, policy, now, 0)
    {
      ghost var rest := Select(files, policy, now, i + 1);
      var ts := TimeOf(files[i]);
      var byCount := policy.maxCount > 0 && i >= policy.maxCount;
      var byAge := policy.maxAge > 0 && Age(now, ts) > policy.maxAge;
      DoomedSplit(policy, now, i, ts);
      SelectFrom(files, policy, now, i);
      if byCount || byAge {
        assert result + ([files[i]] + rest) == (result + [files[i]]) + rest;
        result := result + [files[i]];
      }
    }
    assert result + [] == result;
  }

  /** How many leading files the policy keeps. */
  function Kept(times: seq<int>, policy: Policy, now: int): (n: nat)
    ensures n <= |times|
    ensures forall i :: 0 <= i < n ==> !Doomed(policy, now, i, times[i])
    ensures n < |times| ==> Doomed(policy, now, n, times[n])
  {
    KeptFrom(times, policy, now, 0)
  }

  function KeptFrom(times: seq<int>, policy: Policy, now: int, i: nat): (n: nat)
    requires i <= |times|
    ensures i <= n <= |times|
    ensures forall k :: i <= k < n ==> !Doomed(policy, now, k, times[k])
    ensures n < |times| ==> Doomed(policy, now, n, times[n])
    decreases |times| - i
  {
    if i == |times| || Doomed(policy, now, i, times[i]) then i else KeptFrom(times, policy, now, i + 1)
  }

  // ---------------------------------------------------------- the backend calls

  datatype Entry = Entry(name: string, isDir: bool)

  datatype Listing = Entries(entries: seq<Entry>) | NotFound | ListFailed

  // Exactly the files and directories directly in `dir`.
  ghost predicate Shows(entries: seq<Entry>, files: map<Path, Bytes>, dirs: set<Path>, dir: string) {
    && Distinct(entries)
    && (forall e :: e in entries && !e.isDir ==> Path(dir, e.name) in files)
    && (forall e :: e in entries && e.isDir ==> Path(dir, e.name) in dirs)
    && (forall p :: p in files && p.dir == dir ==> Entry(p.name, false) in entries)
    && (forall p :: p in dirs && p.dir == dir ==> Entry(p.name, true) in entries)
  }

  /** `List`, in any order.  A failing call may carry a text that reads like a missing directory. */
  method List(w: World, dir: string) returns (l: Listing)
    modifies w`plan
    ensures w.plan == Rest(old(w.plan))
    ensures var move := Next(old(w.plan));
            if move.Fail? then l == (if move.n == 0 then NotFound else ListFailed)
            else l.Entries? && Shows(l.entries, w.files, w.dirs, dir)
  {
    var move := w.Answer();
    if move.Fail? {
      return if move.n == 0 then NotFound else ListFailed;
    }
    var pending := set p | p in w.files && p.dir == dir :: Entry(p.name, false);
    pending := pending + set p | p in w.dirs && p.dir == dir :: Entry(p.name, true);
    ghost var all := pending;
    var entries: seq<Entry> := [];
    while pending != {}
      invariant forall e :: e in all <==> e in pending || e in entries
      invariant forall e :: e in entries ==> e !in pending
      invariant Distinct(entries)
      decreases pending
    {
      var e :| e in pending;
      entries := entries + [e];
      pending := pending - {e};
    }
    return Entries(entries);
  }

  /** `Delete` of one file; the file may be gone although the call reports an error. */
  method Delete(w: World, path: Path) returns (ok: bool)
    modifies w`files, w`plan
    ensures w.plan == Rest(old(w.plan))
    ensures var move := Next(old(w.plan));
            && ok == !move.Fail?
            && w.files == if move.Fail? && move.n == 0 then old(w.files) else old(w.files) - {path}
  {
    var move := w.Answer();
    if move.Fail? && move.n == 0 {
      return false;
    }
    w.files := w.files - {path};
    return !move.Fail?;
  }

  // ------------------------------------------------------------------ the policy

  // A list of the rotatable files of a directory that the sort may come up with.
  ghost predicate NewestFirst(order: seq<string>, files: map<Path, Bytes>, dir: string) {
    && Sorted(order, AtLeastAsNew)
    && Distinct(order)
    && (forall n :: n in order <==> Eligible(n) && Path(dir, n) in files)
  }

  function Paths(dir: string, names: seq<string>): set<Path> {
    set n | n in names :: Path(dir, n)
  }

  // `files'` is `files` after `deleted` of the surplus files were removed, the newest of them first.
  ghost predicate RotatedBy(files: map<Path, Bytes>, files': map<Path, Bytes>, dir: string, policy: Policy, now: int,
                            order: seq<string>, deleted: nat) {
    && NewestFirst(order, files, dir)
    && var cut := Kept(Times(order), policy, now);
       && cut + deleted <= |order|
       && files' == files - Paths(dir, order[cut..cut + deleted])
  }

  predicate Limited(policy: Policy) {
    policy.maxCount != 0 || policy.maxAge != 0
  }

  /** On a newest-first list the files to delete are exactly the tail behind the kept ones. */
  lemma {:induction false} SelectIsSuffix(files: seq<string>, policy: Policy, now: int, i: nat)
    requires Sorted(files, AtLeastAsNew) && i <= |files|
    ensures Select(files, policy, now, i) ==
            files[Max(i, Kept(Times(files), policy, now))..]
    decreases |files| - i
  {
    hide TimeOf, Doomed, Select, Kept, Sorted;
    var cut := Kept(Times(files), policy, now);
    if i < |files| {
      SelectIsSuffix(files, policy, now, i + 1);
      SelectFrom(files, policy, now, i);
      if i >= cut {
        DoomedFrom(files, policy, now, i);
        assert files[i..] == [files[i]] + files[i + 1..];
      }
    } else {
      SelectEnd(files, policy, now);
    }
  }

  // Behind the first surplus file every file is surplus.
  lemma DoomedFrom(files: seq<string>, policy: Policy, now: int, i: nat)
    requires Sorted(files, AtLeastAsNew) && Kept(Times(files), policy, now) <= i < |files|
    ensures Doomed(policy, now, i, TimeOf(files[i]))
  {
    hide TimeOf;
    var cut := Kept(Times(files), policy, now);
    assert i == cut || AtLeastAsNew(files[cut], files[i]);
  }

  lemma OrderIsPreorder()
    ensures TotalPreorder(AtLeastAsNew)
  {
  }

  // What `Apply` did to the files of the server, given the plan it started with.
  ghost predicate Applied(files: map<Path, Bytes>, plan: Plan, files': map<Path, Bytes>, ok: bool, dir: string,
                          policy: Policy, now: int, order: seq<string>, deleted: nat) {
    // no limits: nothing happens
    && (!Limited(policy) ==> ok && files' == files)
    // no listing: nothing happens, and a text like "not found" passes for an empty directory
    && (Limited(policy) && Next(plan).Fail? ==> files' == files && ok == (Next(plan).n == 0))
    // a listing: surplus files go, newest first, all of them unless a deletion fails
    && (Limited(policy) && !Next(plan).Fail? ==>
          && RotatedBy(files, files', dir, policy, now, order, deleted)
          && (ok ==> Kept(Times(order), policy, now) + deleted == |order|))
  }

  /** `Apply`. */
  method Apply(w: World, dir: string, policy: Policy, now: int)
    returns (ok: bool, ghost order: seq<string>, ghost deleted: nat)
    modifies w`files, w`plan
    ensures Applied(old(w.files), old(w.plan), w.files, ok, dir, policy, now, order, deleted)
    ensures Faults(old(w.plan)) == 0 ==> ok
  {
    hide Shows, NewestFirst, Sorted, TotalPreorder, Eligible, AtLeastAsNew, TimeOf, RotatedBy, Kept;
    order, deleted := [], 0;
    if policy.maxCount == 0 && policy.maxAge == 0 {
      return true, [], 0;
    }
    RestFaults(w.plan);
    var l := List(w, dir);
    if l.NotFound? {
      return true, [], 0;
    }
    if l.ListFailed? {
      return false, [], 0;
    }
    var files := CollectEligible(l.entries, w, dir);
    OrderIsPreorder();
    var sorted := Sort(files, AtLeastAsNew);
    SortKeepsListing(files, sorted, w.files, dir);
    order := sorted;
    ok, deleted := DeleteSurplus(w, dir, sorted, policy, now);
  }

  /** What `Apply` does with the sorted list. */
  method DeleteSurplus(w: World, dir: string, sorted: seq<string>, policy: Policy, now: int)
    returns (ok: bool, ghost deleted: nat)
    requires NewestFirst(sorted, w.files, dir)
    modifies w`files, w`plan
    ensures RotatedBy(old(w.files), w.files, dir, policy, now, sorted, deleted)
    ensures ok ==> Kept(Times(sorted), policy, now) + deleted == |sorted|
    ensures Faults(old(w.plan)) == 0 ==> ok
  {
    hide Sorted, Distinct, Select, Paths, Eligible, AtLeastAsNew, TimeOf, Doomed, Collected;
    SelectIsSuffix(sorted, policy, now, 0);
    var toDelete := SelectForDeletion(sorted, policy, now);
    ghost var cut := Kept(Times(sorted), policy, now);
    ok, deleted := DeleteAll(w, dir, toDelete);
    assert toDelete[..deleted] == sorted[cut..cut + deleted];
  }

  /** The filter loop: files only, and only those with a time prefix. */
  method CollectEligible(entries: seq<Entry>, w: World, dir: string) returns (files: seq<string>)
    requires Shows(entries, w.files, w.dirs, dir)
    ensures Distinct(files)
    ensures forall n :: n in files <==> Eligible(n) && Path(dir, n) in w.files
  {
    files := [];
    for i := 0 to |entries|
      invariant Distinct(files)
      invariant forall n :: n in files <==> Eligible(n) && Entry(n, false) in entries[..i]
    {
      var e := entries[i];
      assert entries[..i + 1] == entries[..i] + [e];
      if e.isDir {
        continue;
      }
      if Eligible(e.name) {
        files := files + [e.name];
      }
    }
    assert entries[..|entries|] == entries;
    forall n ensures Entry(n, false) in entries <==> Path(dir, n) in w.files {
      assert Path(dir, n) in w.files ==> Path(dir, n).dir == dir;
    }
  }

  // Distinctness and content survive the sort.
  lemma SortKeepsListing(files: seq<string>, sorted: seq<string>, at: map<Path, Bytes>, dir: string)
    requires multiset(sorted) == multiset(files) && Sorted(sorted, AtLeastAsNew)
    requires Distinct(files)
    requires forall n :: n in files <==> Eligible(n) && Path(dir, n) in at
    ensures NewestFirst(sorted, at, dir)
  {
    forall n ensures n in sorted <==> n in files {
      assert n in sorted <==> n in multiset(sorted);
      assert n in files <==> n in multiset(files);
    }
    DistinctBag(files);
    BagDistinct(sorted);
  }

  /** The deletion loop: stops at the first error. */
  method DeleteAll(w: World, dir: string, names: seq<string>) returns (ok: bool, ghost deleted: nat)
    modifies w`files, w`plan
    ensures deleted <= |names| && w.files == old(w.files) - Paths(dir, names[..deleted])
    ensures ok ==> deleted == |names|
    ensures Faults(old(w.plan)) == 0 ==> ok
  {
    deleted := 0;
    for i := 0 to |names|
      invariant deleted == i && w.files == old(w.files) - Paths(dir, names[..i])
      invariant Faults(old(w.plan)) == 0 ==> Faults(w.plan) == 0
    {
      RestFaults(w.plan);
      DeleteNext(old(w.files), dir, names, i);
      ghost var move := Next(w.plan);
      var done := Delete(w, Path(dir, names[i]));
      if !done {
        return false, if move.n == 0 then i else i + 1;
      }
      deleted := i + 1;
    }
    return true, |names|;
  }

  lemma DeleteNext(files: map<Path, Bytes>, dir: string, names: seq<string>, i: nat)
    requires i < |names|
    ensures files - Paths(dir, names[..i]) - {Path(dir, names[i])} == files - Paths(dir, names[..i + 1])
  {
    assert names[..i + 1] == names[..i] + [names[i]];
    assert Paths(dir, names[..i + 1]) == Paths(dir, names[..i]) + {Path(dir, names[i])};
  }

  // =============================================================== the results

  /**
   What a completed rotation leaves: at most `maxCount` rotatable files, none
   over age, none older than a deleted one; each deleted file broke a limit; and
   nothing that is not rotatable, or lies elsewhere, was touched.
   */
  lemma Survivors(files: map<Path, Bytes>, files': map<Path, Bytes>, dir: string, policy: Policy, now: int,
                  order: seq<string>, deleted: nat)
    requires RotatedBy(files, files', dir, policy, now, order, deleted)
    requires Kept(Times(order), policy, now) + deleted == |order|
    ensures var cut := Kept(Times(order), policy, now);
            && (policy.maxCount > 0 ==> cut <= policy.maxCount)
            && (forall n :: Eligible(n) && Path(dir, n) in files' <==> n in order[..cut])
            && (0 < policy.maxAge < 0x7fff_ffff_ffff_ffff ==>
                  forall n :: n in order[..cut] ==> now - TimeOf(n) <= policy.maxAge)
            && (forall n, d :: n in order[..cut] && d in order[cut..] ==> TimeOf(n) >= TimeOf(d))
            && (forall d :: d in order[cut..] ==>
                  || (0 < policy.maxAge < 0x7fff_ffff_ffff_ffff && now - TimeOf(d) > policy.maxAge)
                  || (policy.maxCount > 0 && cut == policy.maxCount))
            && (forall p :: p in files && (p.dir != dir || !Eligible(p.name)) ==> p in files' && files'[p] == files[p])
  {
    hide Doomed, Eligible, AtLeastAsNew, Sorted, TimeOf, TooOld;
    var cut := Kept(Times(order), policy, now);
    KeptBounds(order, policy, now);
    forall n ensures TooOld(policy, now, TimeOf(n)) <==>
                     0 < policy.maxAge < 0x7fff_ffff_ffff_ffff && now - TimeOf(n) > policy.maxAge
    {
      TooOldExactly(policy, now, TimeOf(n));
    }
    assert order[cut..cut + deleted] == order[cut..];
    DistinctHalves(order, cut);
    forall n ensures Eligible(n) && Path(dir, n) in files' <==> n in order[..cut] {
      RemovedPath(files, dir, order[cut..], n);
    }
    forall p | p in files && (p.dir != dir || !Eligible(p.name))
      ensures p in files'
    {
      assert p == Path(p.dir, p.name);
      if p.dir == dir {
        RemovedPath(files, dir, order[cut..], p.name);
      }
    }
  }

  lemma {:induction false} CardPaths(dir: string, names: seq<string>)
    ensures |Paths(dir, names)| <= |names|
  {
    if names == [] {
      assert Paths(dir, names) == {};
    } else {
      CardPaths(dir, names[1..]);
      assert names == [names[0]] + names[1..];
      assert Paths(dir, names) == Paths(dir, names[1..]) + {Path(dir, names[0])};
    }
  }

  /**
   A rotation that was asked for, got its listing and reports success has done its
   work: no more than `maxCount` rotatable files are left in the directory, none of
   them over age, and nothing else changed.  Without limits nothing changes at all.
   */
  lemma RotationDone(files: map<Path, Bytes>, plan: Plan, files': map<Path, Bytes>, dir: string, policy: Policy,
                     now: int, order: seq<string>, deleted: nat)
    requires Applied(files, plan, files', true, dir, policy, now, order, deleted) && !Next(plan).Fail?
    ensures policy.maxCount > 0 ==> |set p | p in files' && p.dir == dir && Eligible(p.name)| <= policy.maxCount
    ensures 0 < policy.maxAge < 0x7fff_ffff_ffff_ffff ==>
              forall p :: p in files' && p.dir == dir && Eligible(p.name) ==> now - TimeOf(p.name) <= policy.maxAge
    ensures forall p :: p in files' ==> p in files && files'[p] == files[p]
    ensures forall p :: p in files && (p.dir != dir || !Eligible(p.name)) ==> p in files'
    ensures policy.maxCount == 0 && policy.maxAge == 0 ==> files' == files
  {
    hide Eligible, TimeOf, Kept, NewestFirst;
    if Limited(policy) {
      Survivors(files, files', dir, policy, now, order, deleted);
      var kept := order[..Kept(Times(order), policy, now)];
      CardPaths(dir, kept);
      var left := set p | p in files' && p.dir == dir && Eligible(p.name);
      forall p | p in left ensures p in Paths(dir, kept) {
        assert p == Path(dir, p.name) && p.name in kept;
      }
      CardSubset(left, Paths(dir, kept));
      forall p | p in files' && p.dir == dir && Eligible(p.name) ensures p.name in kept {
        assert p == Path(dir, p.name);
      }
    }
  }

  lemma {:induction false} CardSubset(a: set<Path>, b: set<Path>)
    requires a <= b
    ensures |a| <= |b|
    decreases a
  {
    if a != {} {
      var p :| p in a;
      CardSubset(a - {p}, b - {p});
    }
  }

  // What the cut says about either side of it.
  lemma KeptBounds(order: seq<string>, policy: Policy, now: int)
    requires Sorted(order, AtLeastAsNew)
    ensures var cut := Kept(Times(order), policy, now);
            && (policy.maxCount > 0 ==> cut <= policy.maxCount)
            && (forall n :: n in order[..cut] ==> !TooOld(policy, now, TimeOf(n)))
            && (forall n, d :: n in order[..cut] && d in order[cut..] ==> TimeOf(n) >= TimeOf(d))
            && (forall d :: d in order[cut..] ==>
                  TooOld(policy, now, TimeOf(d)) || (policy.maxCount > 0 && cut == policy.maxCount))
  {
    hide TimeOf;
    var times := Times(order);
    var cut := Kept(times, policy, now);
    if cut > 0 {
      assert !Doomed(policy, now, cut - 1, times[cut - 1]);
    }
    forall d | d in order[cut..]
      ensures TooOld(policy, now, TimeOf(d)) || (policy.maxCount > 0 && cut == policy.maxCount)
    {
      var j :| cut <= j < |order| && order[j] == d;
      assert j == cut || AtLeastAsNew(order[cut], order[j]);
      assert Doomed(policy, now, cut, times[cut]);
    }
    forall n, d | n in order[..cut] && d in order[cut..]
      ensures TimeOf(n) >= TimeOf(d)
    {
      var i :| 0 <= i < cut && order[i] == n;
      var j :| cut <= j < |order| && order[j] == d;
      assert AtLeastAsNew(order[i], order[j]);
    }
  }

  lemma RemovedPath(files: map<Path, Bytes>, dir: string, gone: seq<string>, n: string)
    ensures Path(dir, n) in files - Paths(dir, gone) <==> Path(dir, n) in files && n !in gone
  {
    if n in gone {
      assert Path(dir, n) in Paths(dir, gone);
    }
  }

  lemma DistinctHalves(order: seq<string>, cut: nat)
    requires cut <= |order| && Distinct(order)
    ensures forall n :: n in order <==> n in order[..cut] || n in order[cut..]
    ensures forall n :: n in order[..cut] ==> n !in order[cut..]
  {
    assert order == order[..cut] + order[cut..];
  }

  /**
   Rotation restarts cleanly: let a run stop anywhere, and a second run at the
   same time list and sort what is left in any way of its own.  It keeps as many
   files as the first run meant to keep, with the same times, and everything the
   first run meant to keep is still there to choose from.
   */
  lemma RestartKeepsSameTimes(files: map<Path, Bytes>, files': map<Path, Bytes>, dir: string, policy: Policy, now: int,
                              order: seq<string>, deleted: nat, order': seq<string>)
    requires RotatedBy(files, files', dir, policy, now, order, deleted)
    requires NewestFirst(order', files', dir)
    ensures var cut, cut' := Kept(Times(order), policy, now), Kept(Times(order'), policy, now);
            && cut' == cut
            && Times(order'[..cut]) == Times(order[..cut])
            && forall n :: n in order[..cut] ==> n in order'
  {
    hide TimeOf, Age, Doomed, Eligible, AtLeastAsNew;
    var cut := Kept(Times(order), policy, now);
    var left := order[..cut] + order[cut + deleted..];
    LeftOver(files, files', dir, policy, now, order, deleted);
    SameListing(left, order', files', dir);
    assert Times(left) == Times(order');
    LeftOverKept(order, policy, now, deleted);
    assert Times(order'[..cut]) == Times(order')[..cut];
    assert Times(order[..cut]) == Times(left)[..cut];
    forall n | n in order[..cut] ensures n in order' {
      assert n in left;
    }
  }

  // The files left by an interrupted run, in the order of that run.
  lemma LeftOver(files: map<Path, Bytes>, files': map<Path, Bytes>, dir: string, policy: Policy, now: int,
                 order: seq<string>, deleted: nat)
    requires RotatedBy(files, files', dir, policy, now, order, deleted)
    ensures var cut := Kept(Times(order), policy, now);
            NewestFirst(order[..cut] + order[cut + deleted..], files', dir)
  {
    hide Eligible, AtLeastAsNew, TimeOf, Doomed, KeptFrom, Sorted;
    var cut := Kept(Times(order), policy, now);
    DropMiddle(order, cut, cut + deleted);
    forall n ensures n in order[..cut] + order[cut + deleted..] <==> Eligible(n) && Path(dir, n) in files' {
      RemovedPath(files, dir, order[cut..cut + deleted], n);
    }
  }

  lemma DropMiddle(order: seq<string>, a: nat, b: nat)
    requires a <= b <= |order| && Sorted(order, AtLeastAsNew)
    requires Distinct(order)
    ensures var left := order[..a] + order[b..];
            && Sorted(left, AtLeastAsNew)
            && Distinct(left)
            && forall n :: n in left <==> n in order && n !in order[a..b]
  {
    hide AtLeastAsNew, Sorted, Distinct;
    DropKeepsOrder(order, a, b);
    DropKeepsNames(order, a, b);
  }

  lemma DropKeepsOrder(order: seq<string>, a: nat, b: nat)
    requires a <= b <= |order| && Sorted(order, AtLeastAsNew) && Distinct(order)
    ensures Sorted(order[..a] + order[b..], AtLeastAsNew) && Distinct(order[..a] + order[b..])
  {
    hide AtLeastAsNew;
    var left := order[..a] + order[b..];
    forall i, j | 0 <= i < j < |left|
      ensures AtLeastAsNew(left[i], left[j]) && left[i] != left[j]
    {
      var i', j' := if i < a then i else i + b - a, if j < a then j else j + b - a;
      assert left[i] == order[i'] && left[j] == order[j'];
    }
  }

  lemma DropKeepsNames(order: seq<string>, a: nat, b: nat)
    requires a <= b <= |order| && Distinct(order)
    ensures forall n :: n in order[..a] + order[b..] <==> n in order && n !in order[a..b]
  {
    assert order == order[..a] + order[a..b] + order[b..];
    DistinctParts(order, a);
    DistinctParts(order[a..], b - a);
    assert order[a..][..b - a] == order[a..b] && order[a..][b - a..] == order[b..];
    forall n | n in order[a..b] ensures n !in order[..a] && n !in order[b..] {
      assert order[a..b] == order[a..][..b - a];
      assert n in order[a..];
    }
  }

  lemma DistinctParts(order: seq<string>, cut: nat)
    requires cut <= |order| && Distinct(order)
    ensures Distinct(order[cut..])
    ensures forall n :: n in order[..cut] ==> n !in order[cut..]
  {
    var tail := order[cut..];
    forall i, j | 0 <= i < j < |tail| ensures tail[i] != tail[j] {
      assert tail[i] == order[cut + i] && tail[j] == order[cut + j];
    }
  }

  // Two sorted listings of one directory show the same times.
  lemma SameListing(a: seq<string>, b: seq<string>, files: map<Path, Bytes>, dir: string)
    requires NewestFirst(a, files, dir) && NewestFirst(b, files, dir)
    ensures Times(a) == Times(b)
  {
    hide TimeOf, Eligible;
    DistinctBag(a);
    DistinctBag(b);
    forall n ensures multiset(a)[n] == multiset(b)[n] {
      assert n in multiset(a) <==> n in a;
      assert n in multiset(b) <==> n in b;
    }
    assert multiset(a) == multiset(b);
    MapBag(TimeOf, a, b);
    SortedTimes(a);
    SortedTimes(b);
    SortedUnique(Times(a), Times(b), Descends);
  }

  lemma SortedTimes(a: seq<string>)
    requires Sorted(a, AtLeastAsNew)
    ensures Sorted(Times(a), Descends)
  {
    hide TimeOf;
    forall i, j | 0 <= i < j < |a| ensures Descends(Times(a)[i], Times(a)[j]) {
      assert AtLeastAsNew(a[i], a[j]);
    }
  }

  // Removing surplus files does not change how many are kept.
  lemma LeftOverKept(order: seq<string>, policy: Policy, now: int, deleted: nat)
    requires Sorted(order, AtLeastAsNew)
    requires Kept(Times(order), policy, now) + deleted <= |order|
    ensures var cut := Kept(Times(order), policy, now);
            Kept(Times(order[..cut] + order[cut + deleted..]), policy, now) == cut
  {
    hide TimeOf;
    var times := Times(order);
    var cut := Kept(times, policy, now);
    var left := order[..cut] + order[cut + deleted..];
    var lt := Times(left);
    assert forall i :: 0 <= i < cut ==> lt[i] == times[i];
    if cut < |left| {
      assert left[cut] == order[cut + deleted];
      assert deleted == 0 || AtLeastAsNew(order[cut], order[cut + deleted]);
      assert Doomed(policy, now, cut, lt[cut]);
    }
    assert forall i :: 0 <= i < cut ==> !Doomed(policy, now, i, lt[i]);
  }

  // ------------------------------------------------- does a given file survive?

  /** How many of the times are `ts` or later. */
  function CountAsNew(times: seq<int>, ts: int): (n: nat)
    ensures n <= |times|
  {
    if times == [] then 0 else (if times[0] >= ts then 1 else 0) + CountAsNew(times[1..], ts)
  }

  lemma {:induction false} CountIsPrefix(times: seq<int>, ts: int)
    requires Sorted(times, Descends)
    ensures forall k :: 0 <= k < |times| ==> (k < CountAsNew(times, ts) <==> times[k] >= ts)
  {
    if times != [] {
      assert forall i, j :: 0 <= i < j < |times| - 1 ==> times[1..][i] == times[i + 1] && times[1..][j] == times[j + 1];
      CountIsPrefix(times[1..], ts);
      assert forall k :: 0 < k < |times| ==> Descends(times[0], times[k]) && times[k] == times[1..][k - 1];
      if times[0] < ts {
        assert CountAsNew(times[1..], ts) == 0 || times[1..][0] >= ts;
      }
    }
  }

  lemma IndexOf(order: seq<string>, name: string) returns (i: nat)
    requires name in order
    ensures i < |order| && order[i] == name
  {
    i :| 0 <= i < |order| && order[i] == name;
  }

  // Under one ordering: the file is kept exactly when its own position is.
  lemma KeptAt(order: seq<string>, policy: Policy, now: int, i: nat)
    requires Sorted(order, AtLeastAsNew) && i < |order|
    requires Distinct(order)
    ensures order[i] in order[..Kept(Times(order), policy, now)] <==> !Doomed(policy, now, i, TimeOf(order[i]))
  {
    hide TimeOf;
    var cut := Kept(Times(order), policy, now);
    if i < cut {
      assert order[..cut][i] == order[i];
    } else {
      assert i == cut || AtLeastAsNew(order[cut], order[i]);
      assert Doomed(policy, now, cut, TimeOf(order[cut]));
    }
  }

  // Among files of one second a sort may put any of them last.
  lemma MoveLast(order: seq<string>, i: nat, c: nat, files: map<Path, Bytes>, dir: string) returns (order': seq<string>)
    requires NewestFirst(order, files, dir) && i < c <= |order|
    requires forall k :: i <= k < c ==> TimeOf(order[k]) == TimeOf(order[i])
    ensures NewestFirst(order', files, dir) && |order'| == |order| && order'[c - 1] == order[i]
  {
    hide TimeOf, Eligible;
    order' := order[..i] + order[i + 1..c] + [order[i]] + order[c..];
    forall j, k | 0 <= j < k < |order'|
      ensures AtLeastAsNew(order'[j], order'[k]) && order'[j] != order'[k]
    {
      var j', k' := Moved(i, c, j), Moved(i, c, k);
      assert order'[j] == order[j'] && order'[k] == order[k'];
      assert j' < k' ==> AtLeastAsNew(order[j'], order[k']);
    }
    forall n ensures n in order' <==> n in order {
      assert order == order[..i] + [order[i]] + order[i + 1..c] + order[c..];
    }
  }

  function Moved(i: nat, c: nat, k: nat): nat {
    if i <= k < c - 1 then k + 1 else if k == c - 1 && i < c then i else k
  }

  /** The rotatable files of the directory that are of time `ts` or later. */
  ghost function AsNew(files: map<Path, Bytes>, dir: string, ts: int): set<Path> {
    set p | p in files && p.dir == dir && Eligible(p.name) && TimeOf(p.name) >= ts
  }

  function PathsAsNew(dir: string, order: seq<string>, ts: int): set<Path> {
    set n | n in order && TimeOf(n) >= ts :: Path(dir, n)
  }

  // The count over a listing is the number of files.
  lemma {:induction false} CountIsCard(dir: string, order: seq<string>, ts: int)
    requires Distinct(order)
    ensures |PathsAsNew(dir, order, ts)| == CountAsNew(Times(order), ts)
  {
    hide TimeOf, PathsAsNew, Times;
    CountFirst(order, ts);
    FirstAsNew(dir, order, ts);
    if order != [] {
      CountIsCard(dir, order[1..], ts);
    }
  }

  lemma CountFirst(order: seq<string>, ts: int)
    ensures CountAsNew(Times(order), ts) ==
            if order == [] then 0
            else (if TimeOf(order[0]) >= ts then 1 else 0) + CountAsNew(Times(order[1..]), ts)
  {
    hide TimeOf;
    if order != [] {
      assert Times(order)[1..] == Times(order[1..]) && Times(order)[0] == TimeOf(order[0]);
    }
  }

  lemma FirstAsNew(dir: string, order: seq<string>, ts: int)
    requires Distinct(order)
    ensures order == [] ==> PathsAsNew(dir, order, ts) == {}
    ensures order != [] ==>
              && Distinct(order[1..])
              && |PathsAsNew(dir, order, ts)| ==
                 |PathsAsNew(dir, order[1..], ts)| + (if TimeOf(order[0]) >= ts then 1 else 0)
  {
    hide TimeOf;
    if order != [] {
      var first, rest := order[0], order[1..];
      DistinctParts(order, 1);
      assert order[..1] == [first] && first !in rest && order == [first] + rest;
      var tail := PathsAsNew(dir, rest, ts);
      assert Path(dir, first) !in tail;
      assert PathsAsNew(dir, order, ts) == if TimeOf(first) >= ts then tail + {Path(dir, first)} else tail;
    }
  }

  lemma CountIsAsNew(files: map<Path, Bytes>, dir: string, order: seq<string>, ts: int)
    requires NewestFirst(order, files, dir)
    ensures CountAsNew(Times(order), ts) == |AsNew(files, dir, ts)|
  {
    hide TimeOf, Eligible;
    CountIsCard(dir, order, ts);
    forall p ensures p in AsNew(files, dir, ts) <==> p in PathsAsNew(dir, order, ts) {
      assert p == Path(p.dir, p.name);
    }
    assert AsNew(files, dir, ts) == PathsAsNew(dir, order, ts);
  }

  /**
   A file is safe from rotation, however the sort breaks ties, exactly when it is
   not over age and no more than `maxCount` rotatable files, itself included, are
   as new.
   */
  lemma SurvivesExactly(files: map<Path, Bytes>, dir: string, policy: Policy, now: int, order: seq<string>, name: string)
    requires NewestFirst(order, files, dir) && name in order
    ensures (forall o :: NewestFirst(o, files, dir) ==> name in o[..Kept(Times(o), policy, now)])
            <==> && (0 < policy.maxAge < 0x7fff_ffff_ffff_ffff ==> now - TimeOf(name) <= policy.maxAge)
                 && (policy.maxCount > 0 ==> |AsNew(files, dir, TimeOf(name))| <= policy.maxCount)
  {
    hide TimeOf, Eligible, TooOld, CountAsNew, Kept, AsNew;
    TooOldExactly(policy, now, TimeOf(name));
    CountIsAsNew(files, dir, order, TimeOf(name));
    var c := CountAsNew(Times(order), TimeOf(name));
    forall o | NewestFirst(o, files, dir)
      ensures !TooOld(policy, now, TimeOf(name)) && (policy.maxCount > 0 ==> c <= policy.maxCount) ==>
                name in o[..Kept(Times(o), policy, now)]
    {
      SameListing(order, o, files, dir);
      var i := IndexOf(o, name);
      SortedTimes(o);
      CountIsPrefix(Times(o), TimeOf(name));
      KeptAt(o, policy, now, i);
    }
    var i := IndexOf(order, name);
    LastOfItsSecond(order, i);
    var last := MoveLast(order, i, c, files, dir);
    KeptAt(last, policy, now, c - 1);
  }

  lemma LastOfItsSecond(order: seq<string>, i: nat)
    requires Sorted(order, AtLeastAsNew) && i < |order|
    ensures var c := CountAsNew(Times(order), TimeOf(order[i]));
            i < c <= |order| && forall k :: i <= k < c ==> TimeOf(order[k]) == TimeOf(order[i])
  {
    hide TimeOf;
    SortedTimes(order);
    var c := CountAsNew(Times(order), TimeOf(order[i]));
    CountIsPrefix(Times(order), TimeOf(order[i]));
    forall k | i <= k < c ensures TimeOf(order[k]) == TimeOf(order[i]) {
      assert Times(order)[k] == TimeOf(order[k]);
      assert k == i || AtLeastAsNew(order[i], order[k]);
    }
  }

  // No consistent sort lets rotation delete the file.
  ghost predicate Safe(files: map<Path, Bytes>, dir: string, policy: Policy, now: int, name: string) {
    && (0 < policy.maxAge < 0x7fff_ffff_ffff_ffff ==> now - TimeOf(name) <= policy.maxAge)
    && (policy.maxCount > 0 ==> |AsNew(files, dir, TimeOf(name))| <= policy.maxCount)
  }

  lemma SafeFileStays(files: map<Path, Bytes>, plan: Plan, files': map<Path, Bytes>, ok: bool, dir: string,
                      policy: Policy, now: int, order: seq<string>, deleted: nat, name: string)
    requires Applied(files, plan, files', ok, dir, policy, now, order, deleted)
    requires Eligible(name) && Path(dir, name) in files && Safe(files, dir, policy, now, name)
    ensures Path(dir, name) in files' && files'[Path(dir, name)] == files[Path(dir, name)]
  {
    hide Eligible, TimeOf, TooOld;
    if Limited(policy) && !Next(plan).Fail? {
      SurvivesExactly(files, dir, policy, now, order, name);
      DistinctHalves(order, Kept(Times(order), policy, now));
      var cut := Kept(Times(order), policy, now);
      assert order[cut..cut + deleted] <= order[cut..];
      RemovedPath(files, dir, order[cut..cut + deleted], name);
    }
  }
}
