/**
 The per-key upload lock: requests of any kind race for one mutex per key string,
 taken from a map that only ever gains entries.
 */
module KeyLocks {
  import opened Base

  type Pid = nat
  type Mutex = nat

  /** How a request enters; each takes the same lock, a completion under its session's key. */
  datatype Entry = HttpPost | S3Put | MultipartComplete

  /** Where a request is: not yet at the lock, holding a reference to its mutex, inside `Process`, or gone. */
  datatype Phase = Arrived | Waiting(m: Mutex) | Inside(m: Mutex) | Left

  datatype Req = Req(entry: Entry, key: string, phase: Phase)

  /** `keyMu`, the owner of each mutex ever made, and the requests. */
  datatype State = State(mutexes: map<string, Mutex>, owner: map<Mutex, Option<Pid>>, reqs: map<Pid, Req>)

  datatype Step =
    | Arrive(pid: Pid, entry: Entry, key: string)
    | LoadOrStore(pid: Pid, candidate: Mutex)   // with a newly made mutex to offer
    | Lock(pid: Pid)
    | Unlock(pid: Pid)

  const INIT := State(map[], map[], map[])

  predicate Enabled(s: State, step: Step) {
    match step
    case Arrive(pid, _, _) => pid !in s.reqs
    case LoadOrStore(pid, candidate) => pid in s.reqs && s.reqs[pid].phase.Arrived? && candidate !in s.owner
    case Lock(pid) =>
      && pid in s.reqs && s.reqs[pid].phase.Waiting?
      && s.reqs[pid].phase.m in s.owner && s.owner[s.reqs[pid].phase.m].None?
    case Unlock(pid) => pid in s.reqs && s.reqs[pid].phase.Inside?
  }

  function At(s: State, pid: Pid, phase: Phase): map<Pid, Req>
    requires pid in s.reqs
  {
    s.reqs[pid := s.reqs[pid].(phase := phase)]
  }

  function Apply(s: State, step: Step): State
    requires Enabled(s, step)
  {
    match step
    case Arrive(pid, entry, key) => s.(reqs := s.reqs[pid := Req(entry, key, Arrived)])
    case LoadOrStore(pid, candidate) =>
      var key := s.reqs[pid].key;
      // the offered mutex is allocated either way and dropped if the key has one
      var owner := s.owner[candidate := None];
      if key in s.mutexes then s.(owner := owner, reqs := At(s, pid, Waiting(s.mutexes[key])))
      else State(s.mutexes[key := candidate], owner, At(s, pid, Waiting(candidate)))
    case Lock(pid) =>
      var m := s.reqs[pid].phase.m;
      s.(owner := s.owner[m := Some(pid)], reqs := At(s, pid, Inside(m)))
    case Unlock(pid) =>
      var m := s.reqs[pid].phase.m;
      s.(owner := s.owner[m := None], reqs := At(s, pid, Left))
  }

  /** Any interleaving: steps taken one after another, disabled ones skipped. */
  function Run(s: State, steps: seq<Step>): State
    decreases steps
  {
    if steps == [] then s
    else Run(if Enabled(s, steps[0]) then Apply(s, steps[0]) else s, steps[1..])
  }

  /** The handler's share of the state, as its atomic calls update it. */
  class Handler {
    var keyMu: map<string, Mutex>
    var owner: map<Mutex, Option<Pid>>
    ghost var reqs: map<Pid, Req>

    ghost function Now(): State
      reads this
    {
      State(keyMu, owner, reqs)
    }

    constructor ()
      ensures Now() == INIT
    {
      keyMu, owner, reqs := map[], map[], map[];
    }

    /** `keyMu.LoadOrStore(key, &sync.Mutex{})`. */
    method LoadOrStoreMutex(key: string, candidate: Mutex, ghost pid: Pid) returns (m: Mutex)
      requires Enabled(Now(), LoadOrStore(pid, candidate)) && reqs[pid].key == key
      modifies this
      ensures Now() == Apply(old(Now()), LoadOrStore(pid, candidate))
      ensures reqs[pid].phase == Waiting(m)
    {
      owner := owner[candidate := None];
      if key in keyMu {
        m := keyMu[key];
      } else {
        keyMu := keyMu[key := candidate];
        m := candidate;
      }
      reqs := reqs[pid := reqs[pid].(phase := Waiting(m))];
    }

    /** `mu.Lock()`, at the moment it succeeds: from here on this request has its key for itself. */
    method LockMutex(m: Mutex, pid: Pid)
      requires Inv(Now()) && Enabled(Now(), Lock(pid)) && reqs[pid].phase == Waiting(m)
      modifies this
      ensures Inv(Now()) && Now() == Apply(old(Now()), Lock(pid))
      ensures reqs[pid] == old(reqs[pid]).(phase := Inside(m))
      ensures forall q :: q in reqs && q != pid && reqs[q].phase.Inside? ==> reqs[q].key != reqs[pid].key
      ensures forall q :: q in reqs && Enabled(Now(), Lock(q)) ==> reqs[q].key != reqs[pid].key
    {
      StepInv(Now(), Lock(pid));
      owner := owner[m := Some(pid)];
      reqs := reqs[pid := reqs[pid].(phase := Inside(m))];
    }

    /** The deferred `mu.Unlock()`: the key is free, and every request waiting for it may be the next. */
    method UnlockMutex(m: Mutex, ghost pid: Pid)
      requires Inv(Now()) && Enabled(Now(), Unlock(pid)) && reqs[pid].phase == Inside(m)
      modifies this
      ensures Inv(Now()) && Now() == Apply(old(Now()), Unlock(pid))
      ensures reqs[pid] == old(reqs[pid]).(phase := Left)
      ensures forall q :: q in reqs && reqs[q].key == reqs[pid].key ==> !reqs[q].phase.Inside?
      ensures forall q :: q in reqs && reqs[q].key == reqs[pid].key && reqs[q].phase.Waiting? ==> Enabled(Now(), Lock(q))
    {
      StepInv(Now(), Unlock(pid));
      owner := owner[m := None];
      reqs := reqs[pid := reqs[pid].(phase := Left)];
    }
  }

  predicate Holds(r: Req) {
    r.phase.Waiting? || r.phase.Inside?
  }

  // Every key has its own mutex, and whoever waits or is inside refers to the one of its key.
  ghost predicate MutexesOk(s: State) {
    && (forall k :: k in s.mutexes ==> s.mutexes[k] in s.owner)
    && (forall k, l :: k in s.mutexes && l in s.mutexes && s.mutexes[k] == s.mutexes[l] ==> k == l)
    && (forall p :: p in s.reqs && Holds(s.reqs[p]) ==>
          s.reqs[p].key in s.mutexes && s.reqs[p].phase.m == s.mutexes[s.reqs[p].key])
  }

  // The owner of a mutex is the request inside with it.
  ghost predicate OwnersOk(s: State) {
    && (forall p :: p in s.reqs && s.reqs[p].phase.Inside? ==>
          s.reqs[p].phase.m in s.owner && s.owner[s.reqs[p].phase.m] == Some(p))
    && (forall m :: m in s.owner && s.owner[m].Some? ==>
          s.owner[m].value in s.reqs && s.reqs[s.owner[m].value].phase == Inside(m))
  }

  ghost predicate Inv(s: State) {
    MutexesOk(s) && OwnersOk(s)
  }

  lemma StepMutexes(s: State, step: Step)
    requires MutexesOk(s) && Enabled(s, step)
    ensures MutexesOk(Apply(s, step))
  {
  }

  lemma StepOwners(s: State, step: Step)
    requires MutexesOk(s) && OwnersOk(s) && Enabled(s, step)
    ensures OwnersOk(Apply(s, step))
  {
  }

  lemma StepInv(s: State, step: Step)
    requires Inv(s) && Enabled(s, step)
    ensures Inv(Apply(s, step))
    ensures forall k :: k in s.mutexes ==> k in Apply(s, step).mutexes && Apply(s, step).mutexes[k] == s.mutexes[k]
  {
    hide MutexesOk, OwnersOk;
    StepMutexes(s, step);
    StepOwners(s, step);
  }

  lemma {:induction false} RunInv(s: State, steps: seq<Step>)
    requires Inv(s)
    ensures Inv(Run(s, steps))
    ensures forall k :: k in s.mutexes ==> k in Run(s, steps).mutexes && Run(s, steps).mutexes[k] == s.mutexes[k]
    decreases steps
  {
    if steps != [] {
      if Enabled(s, steps[0]) {
        StepInv(s, steps[0]);
        RunInv(Apply(s, steps[0]), steps[1..]);
      } else {
        RunInv(s, steps[1..]);
      }
    }
  }

  /**
   In every interleaving at most one request per key string is inside `Process`;
   the mutex of a key, once there, is the same for the whole run; and requests
   for different keys never wait for one another.
   */
  lemma OneInsidePerKey(before: seq<Step>, after: seq<Step>, p: Pid, q: Pid)
    ensures var t := Run(Run(INIT, before), after);
            p in t.reqs && q in t.reqs && p != q && t.reqs[p].phase.Inside? ==>
              && (t.reqs[q].phase.Inside? ==> t.reqs[p].key != t.reqs[q].key)
              && (t.reqs[q] == t.reqs[q].(phase := Waiting(t.reqs[p].phase.m)) ==> t.reqs[p].key == t.reqs[q].key)
    ensures var s, t := Run(INIT, before), Run(Run(INIT, before), after);
            forall k :: k in s.mutexes ==> k in t.mutexes && t.mutexes[k] == s.mutexes[k]
  {
    RunInv(INIT, before);
    RunInv(Run(INIT, before), after);
  }

  /** A waiting request can always be let in: its mutex is free or its owner is inside and may leave. */
  lemma NoDeadlock(steps: seq<Step>, p: Pid)
    requires p in Run(INIT, steps).reqs && Run(INIT, steps).reqs[p].phase.Waiting?
    ensures var s := Run(INIT, steps);
            || Enabled(s, Lock(p))
            || exists q :: q in s.reqs && s.reqs[q].key == s.reqs[p].key && Enabled(s, Unlock(q))
                           && Enabled(Apply(s, Unlock(q)), Lock(p))
  {
    RunInv(INIT, steps);
    var s := Run(INIT, steps);
    var m := s.reqs[p].phase.m;
    if s.owner[m].Some? {
      var q := s.owner[m].value;
      assert Enabled(s, Unlock(q)) && Enabled(Apply(s, Unlock(q)), Lock(p));
    }
  }
}
