/**
 Raw keys and normalised keys: locks, policy and authentication go by the key as
 it came, storage goes by its cleaned form.
 */
module RequestKeys {
  import opened Base
  import opened Strings
  import opened StoragePaths
  import opened KeyResolution
  import opened KeyLocks
  import Timestamps

  // --------------------------------------------- when two keys mean one place

  /** The segments of the storage path of a key with these segments. */
  function StoredSegments(segs: seq<string>, t: Timestamps.Stamp): seq<string> {
    if segs == [] then [Timestamps.StoredName(t, ".")]
    else segs[..|segs| - 1] + [Timestamps.StoredName(t, segs[|segs| - 1])]
  }

  lemma StoragePathSegments(key: string, t: Timestamps.Stamp)
    ensures AllPlain(StoredSegments(Segments(key), t)) && AllPlain(Segments(key))
    ensures StoragePath(key, t) == Join(StoredSegments(Segments(key), t), '/')
  {
    hide Dir, StoragePaths.Base, Clean, Plain, Join, Timestamps.StoredName, CleanKey, Segments;
    CleanKeySegments(key);
    CleanKeyIdempotent(key);
    PathOfSegments(Segments(key), t);
  }

  lemma PathOfSegments(segs: seq<string>, t: Timestamps.Stamp)
    requires AllPlain(segs)
    ensures var k := Join(segs, '/');
            var name := Timestamps.StoredName(t, StoragePaths.Base(k));
            && AllPlain(StoredSegments(segs, t))
            && Join(StoredSegments(segs, t), '/') == if Dir(k) == "." then name else Clean(Dir(k) + "/" + name)
  {
    hide Dir, StoragePaths.Base, Clean, Plain, Join, Timestamps.StoredName;
    if segs == [] {
      RootDirBase();
      StoredNamePlain(t, ".");
      JoinOne(Timestamps.StoredName(t, "."));
    } else {
      var n := |segs| - 1;
      DirBaseJoined(segs);
      PlainNoSlash(segs[n]);
      var name := Timestamps.StoredName(t, segs[n]);
      StoredNamePlain(t, segs[n]);
      JoinOne(name);
      var stored := segs[..n] + [name];
      if n == 0 {
        assert stored == [name];
      } else {
        DirIsNotDot(segs[..n]);
        JoinAppend(segs[..n], [name], '/');
        CleanJoined(stored);
      }
    }
  }

  /** Where an upload goes, by the segments of its key: all but the last name the directory, the last one the file. */
  lemma PlacedBySegments(key: string, t: Timestamps.Stamp)
    ensures var segs, n := Segments(key), |Segments(key)| - 1;
            && StoragePath(key, t) == Join(StoredSegments(segs, t), '/')
            && CleanKey(key) == Join(segs, '/')
            && RotationDir(key) == if n < 1 then "." else Join(segs[..n], '/')
  {
    hide StoragePath, StoredSegments, Segments, Dir, Join, CleanKey;
    StoragePathSegments(key, t);
    CleanKeySegments(key);
    if Segments(key) == [] {
      RootDirBase();
    } else {
      DirBaseJoined(Segments(key));
    }
  }

  lemma StoredSegmentsInjective(a: seq<string>, b: seq<string>, t: Timestamps.Stamp)
    requires AllPlain(a) && AllPlain(b) && StoredSegments(a, t) == StoredSegments(b, t)
    ensures a == b
  {
    var s := StoredSegments(a, t);
    var x, y := if a == [] then "." else a[|a| - 1], if b == [] then "." else b[|b| - 1];
    assert s[|s| - 1] == Timestamps.StoredName(t, x) == Timestamps.StoredName(t, y);
    assert Timestamps.StoredName(t, x)[17..] == x && Timestamps.StoredName(t, y)[17..] == y;
    if a != [] && b != [] {
      assert s[..|s| - 1] == a[..|a| - 1] == b[..|b| - 1];
      assert a == a[..|a| - 1] + [x] && b == b[..|b| - 1] + [y];
    }
  }

  lemma JoinInjective(a: seq<string>, b: seq<string>)
    requires AllPlain(a) && AllPlain(b) && Join(a, '/') == Join(b, '/')
    ensures a == b
  {
    SegmentsOfJoined(a);
    SegmentsOfJoined(b);
  }

  /** Two keys stored at one moment collide exactly if they have the same normalised form. */
  lemma SamePathExactly(k: string, l: string, t: Timestamps.Stamp)
    ensures StoragePath(k, t) == StoragePath(l, t) <==> CleanKey(k) == CleanKey(l)
  {
    hide StoragePath, CleanKey, StoredSegments, Segments, Join, AllPlain;
    StoragePathSegments(k, t);
    StoragePathSegments(l, t);
    CleanKeySegments(k);
    CleanKeySegments(l);
    if StoragePath(k, t) == StoragePath(l, t) {
      JoinInjective(StoredSegments(Segments(k), t), StoredSegments(Segments(l), t));
      StoredSegmentsInjective(Segments(k), Segments(l), t);
    }
    if CleanKey(k) == CleanKey(l) {
      JoinInjective(Segments(k), Segments(l));
    }
  }

  // ------------------------------------------------- the lock and the storage path

  // The requests of a run ask for these keys only.
  predicate KeysFrom(steps: seq<Step>, keys: set<string>) {
    forall i :: 0 <= i < |steps| && steps[i].Arrive? ==> steps[i].key in keys
  }

  predicate KeysIn(s: State, keys: set<string>) {
    forall p :: p in s.reqs ==> s.reqs[p].key in keys
  }

  lemma {:induction false} RunKeys(s: State, steps: seq<Step>, keys: set<string>)
    requires KeysIn(s, keys) && KeysFrom(steps, keys)
    ensures KeysIn(KeyLocks.Run(s, steps), keys)
    decreases steps
  {
    if steps != [] {
      assert forall i :: 0 <= i < |steps| - 1 ==> steps[1..][i] == steps[i + 1];
      RunKeys(if Enabled(s, steps[0]) then Apply(s, steps[0]) else s, steps[1..], keys);
    }
  }

  predicate BothInside(s: State, p: Pid, q: Pid) {
    p != q && p in s.reqs && q in s.reqs && s.reqs[p].phase.Inside? && s.reqs[q].phase.Inside?
  }

  // At most one request per storage path is inside `Process`, in every interleaving of requests for `keys`.
  ghost predicate PathsExclusive(keys: set<string>, t: Timestamps.Stamp) {
    forall steps: seq<Step>, p: Pid, q: Pid :: KeysFrom(steps, keys) && BothInside(KeyLocks.Run(INIT, steps), p, q) ==>
      var s := KeyLocks.Run(INIT, steps);
      StoragePath(s.reqs[p].key, t) != StoragePath(s.reqs[q].key, t)
  }

  function TwoEnter(k: string, l: string): seq<Step> {
    [Arrive(0, HttpPost, k), Arrive(1, HttpPost, l), LoadOrStore(0, 0), LoadOrStore(1, 1), Lock(0), Lock(1)]
  }

  lemma RunCons(s: State, step: Step, rest: seq<Step>)
    requires Enabled(s, step)
    ensures KeyLocks.Run(s, [step] + rest) == KeyLocks.Run(Apply(s, step), rest)
  {
    assert ([step] + rest)[1..] == rest;
  }

  lemma BothEnter(k: string, l: string)
    requires k != l
    ensures var s := KeyLocks.Run(INIT, TwoEnter(k, l));
            BothInside(s, 0, 1) && s.reqs[0].key == k && s.reqs[1].key == l
  {
    hide KeyLocks.Run;
    var steps := TwoEnter(k, l);
    var s1 := Apply(INIT, steps[0]);
    var s2 := Apply(s1, steps[1]);
    var s3 := Apply(s2, steps[2]);
    var s4 := Apply(s3, steps[3]);
    var s5 := Apply(s4, steps[4]);
    RunCons(INIT, steps[0], steps[1..]);
    RunCons(s1, steps[1], steps[2..]);
    RunCons(s2, steps[2], steps[3..]);
    RunCons(s3, steps[3], steps[4..]);
    RunCons(s4, steps[4], steps[5..]);
    RunCons(s5, steps[5], []);
    assert steps == [steps[0]] + steps[1..] && steps[1..] == [steps[1]] + steps[2..];
    assert steps[2..] == [steps[2]] + steps[3..] && steps[3..] == [steps[3]] + steps[4..];
    assert steps[4..] == [steps[4]] + steps[5..] && steps[5..] == [steps[5]] + [];
    EmptyRun(Apply(s5, steps[5]));
  }

  lemma EmptyRun(s: State)
    ensures KeyLocks.Run(s, []) == s
  {
  }

  /**
   The lock goes by the raw key, so it keeps uploads to one storage path apart
   exactly if no two of the keys in play have the same normalised form.
   */
  lemma PathExclusionExactly(keys: set<string>, t: Timestamps.Stamp)
    ensures PathsExclusive(keys, t) <==> forall k, l :: k in keys && l in keys && CleanKey(k) == CleanKey(l) ==> k == l
  {
    hide StoragePath, CleanKey, KeyLocks.Run;
    if k, l :| k in keys && l in keys && CleanKey(k) == CleanKey(l) && k != l {
      BothEnter(k, l);
      SamePathExactly(k, l, t);
      assert KeysFrom(TwoEnter(k, l), keys);
    } else {
      forall steps: seq<Step>, p: Pid, q: Pid | KeysFrom(steps, keys) && BothInside(KeyLocks.Run(INIT, steps), p, q)
        ensures var s := KeyLocks.Run(INIT, steps);
                StoragePath(s.reqs[p].key, t) != StoragePath(s.reqs[q].key, t)
      {
        var s := KeyLocks.Run(INIT, steps);
        RunKeys(INIT, steps, keys);
        OneInsidePerKey([], steps, p, q);
        EmptyRun(INIT);
        SamePathExactly(s.reqs[p].key, s.reqs[q].key, t);
      }
    }
  }

  // ------------------------------------------------- the policy and the storage path

  // A request for the default key itself has no candidates, and any other exact match is the longest one.
  lemma ChosenIsLongest(keys: set<string>, key: string, choice: Option<string>)
    requires Chosen(keys, key, choice)
    ensures if exists c :: Candidate(keys, c, key) then
              && choice.Some? && Candidate(keys, choice.value, key)
              && forall c :: Candidate(keys, c, key) ==> |c| <= |choice.value|
            else choice == if DEFAULT in keys then Some(DEFAULT) else None
  {
    if key in keys {
      if key == DEFAULT {
        forall c ensures !Candidate(keys, c, key) {
          assert '/' !in DEFAULT;
        }
      } else {
        assert Candidate(keys, key, key);
      }
    }
  }

  /**
   Two requests are governed by the same configured key exactly if every key that
   governs only one of them is outdone by a longer one that governs both.
   */
  lemma SameChoiceExactly(keys: set<string>, x: string, y: string, a: Option<string>, b: Option<string>)
    requires Chosen(keys, x, a) && Chosen(keys, y, b)
    ensures a == b <==>
            forall c :: Candidate(keys, c, x) != Candidate(keys, c, y) ==>
              exists d :: Candidate(keys, d, x) && Candidate(keys, d, y) && |d| > |c|
  {
    ChosenIsLongest(keys, x, a);
    ChosenIsLongest(keys, y, b);
    hide Chosen, IsPathPrefix;
    if a == b {
      forall c | Candidate(keys, c, x) != Candidate(keys, c, y)
        ensures exists d :: Candidate(keys, d, x) && Candidate(keys, d, y) && |d| > |c|
      {
        var key := if Candidate(keys, c, x) then x else y;
        var other := if Candidate(keys, c, x) then y else x;
        assert Candidate(keys, a.value, key) && a.value != DEFAULT && Candidate(keys, a.value, other);
        if |c| == |a.value| {
          SameLengthCandidates(keys, c, a.value, key);
        }
      }
    } else {
      Outdone(keys, x, y, a, b);
    }
  }

  lemma SameLengthCandidates(keys: set<string>, c: string, d: string, key: string)
    requires Candidate(keys, c, key) && Candidate(keys, d, key) && |c| == |d|
    ensures c == d
  {
    assert key[..|c|] == c && key[..|d|] == d;
  }

  // The longer of two different choices governs only one of the requests, and nothing outdoes it.
  lemma Outdone(keys: set<string>, x: string, y: string, a: Option<string>, b: Option<string>)
    requires Chosen(keys, x, a) && Chosen(keys, y, b) && a != b
    ensures exists c :: Candidate(keys, c, x) != Candidate(keys, c, y) &&
              forall d :: Candidate(keys, d, x) && Candidate(keys, d, y) ==> |d| <= |c|
  {
    ChosenIsLongest(keys, x, a);
    ChosenIsLongest(keys, y, b);
    hide Chosen, IsPathPrefix;
    if a.Some? && Candidate(keys, a.value, y) && b.Some? && Candidate(keys, b.value, x) {
      if |a.value| == |b.value| && Candidate(keys, a.value, x) {
        SameLengthCandidates(keys, a.value, b.value, x);
      }
    }
  }

  lemma SplitPrefix(a: string, rest: string)
    ensures Split(a + "/" + rest, '/') == Split(a, '/') + Split(rest, '/')
  {
    var parts := Split(a, '/') + Split(rest, '/');
    JoinSplit(a);
    JoinSplit(rest);
    JoinAppend(Split(a, '/'), Split(rest, '/'), '/');
    SplitJoin(parts, '/');
  }

  /** A configured key governs a request key exactly if its segments are the first ones of that key. */
  lemma GovernsBySegments(c: string, key: string)
    ensures IsPathPrefix(c, key) <==> Split(c, '/') <= Split(key, '/')
  {
    hide Split, Join;
    JoinSplit(c);
    JoinSplit(key);
    var front, all := Split(c, '/'), Split(key, '/');
    if c <= key && |c| < |key| && key[|c|] == '/' {
      var rest := key[|c| + 1..];
      assert key == c + "/" + rest;
      SplitPrefix(c, rest);
    } else if c <= key && |c| == |key| {
      assert c == key;
    }
    if front <= all && |front| < |all| {
      var tail := all[|front|..];
      assert all == front + tail;
      JoinAppend(front, tail, '/');
      assert key == c + ['/'] + Join(tail, '/');
    } else if front <= all {
      assert front == all;
    }
  }

  // A key made of plain segments is its own normalised form.
  lemma PlainKeyIsClean(key: string)
    requires AllPlain(Split(key, '/'))
    ensures CleanKey(key) == key
  {
    hide CleanKey, Segments, Join, Split, AllPlain;
    JoinSplit(key);
    SegmentsOfJoined(Split(key, '/'));
    CleanKeySegments(key);
  }

  // No key is a proper path prefix of its own normalised form.
  lemma CleanKeyNotLonger(key: string)
    requires IsPathPrefix(key, CleanKey(key))
    ensures CleanKey(key) == key
  {
    hide CleanKey, Split;
    var ck := CleanKey(key);
    if |ck| > |key| {
      var rest := ck[|key| + 1..];
      assert ck == key + "/" + rest;
      SplitPrefix(key, rest);
      CleanKeyIsPlain(key);
      assert forall i :: 0 <= i < |Split(key, '/')| ==> Split(key, '/')[i] == Split(ck, '/')[i];
      PlainKeyIsClean(key);
    }
  }

  /**
   Policy and authentication look at the raw key, storage at the normalised one.
   They speak of the same configured key, whatever is configured, exactly for
   the keys that are in normalised form already.
   */
  lemma CleanKeysAreGovernedAlike(key: string)
    ensures (forall keys: set<string>, a: Option<string>, b: Option<string> ::
               Chosen(keys, key, a) && Chosen(keys, CleanKey(key), b) ==> a == b)
            <==> CleanKey(key) == key
  {
    hide CleanKey;
    if CleanKey(key) == key {
      forall keys: set<string>, a: Option<string>, b: Option<string>
        | Chosen(keys, key, a) && Chosen(keys, CleanKey(key), b)
        ensures a == b
      {
        ChosenUnique(keys, key, a, b);
      }
    } else {
      DefaultIsClean();
      var keys := {key};
      if Candidate(keys, key, CleanKey(key)) {
        CleanKeyNotLonger(key);
      }
      assert forall c :: !Candidate(keys, c, CleanKey(key));
      assert Chosen(keys, key, Some(key)) && Chosen(keys, CleanKey(key), None);
    }
  }

  lemma DefaultIsClean()
    ensures CleanKey(DEFAULT) == DEFAULT
  {
    assert '/' !in DEFAULT;
    assert Plain(DEFAULT);
    JoinOne(DEFAULT);
    SplitJoin([DEFAULT], '/');
    PlainKeyIsClean(DEFAULT);
  }
}
