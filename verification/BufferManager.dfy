/** The memory budget: who gets a memory buffer, and when the memory comes back. */
module BufferManager {
  import opened Buffers

  const MAX_INT64: int := 0x7fff_ffff_ffff_ffff

  /** The value a 64-bit signed sum ends up with. */
  function Wrap64(x: int): int {
    (x + MAX_INT64 + 1) % 0x1_0000_0000_0000_0000 - MAX_INT64 - 1
  }

  /** It is the one 64-bit value that differs from the sum by a multiple of 2 to the 64. */
  lemma WrapExactly(x: int, w: int)
    ensures w == Wrap64(x) <==>
            -0x8000_0000_0000_0000 <= w < 0x8000_0000_0000_0000 && (w - x) % 0x1_0000_0000_0000_0000 == 0
  {
  }

  /** Limits after defaulting, so neither is 0; validation rejects negative ones. */
  datatype Config = Config(memory: int, maxMemory: int, forceFile: bool) {
    predicate Valid() {
      0 < memory <= MAX_INT64 && 0 < maxMemory <= MAX_INT64
    }
  }

  datatype Reservation = Reservation(size: nat, live: bool)

  /** The counter, and every reservation ever made: ticket `t` is `ledger[t]`. */
  datatype Books = Books(inUse: int, ledger: seq<Reservation>)

  function LiveSum(ledger: seq<Reservation>): nat {
    if ledger == [] then 0 else (if ledger[0].live then ledger[0].size else 0) + LiveSum(ledger[1..])
  }

  datatype Event = Request(size: int) | CloseTicket(t: nat)

  predicate Grants(cfg: Config, inUse: int, size: int) {
    !cfg.forceFile && 0 < size <= cfg.memory && Wrap64(inUse + size) <= cfg.maxMemory
  }

  /** `releaseMemory` with its clamp. */
  function Released(inUse: int, size: int): int {
    var left := Wrap64(inUse - size);
    if left < 0 then 0 else left
  }

  /** One `NewFullBuffer` or one `Close` of a managed buffer. */
  function BudgetStep(cfg: Config, b: Books, e: Event): Books {
    match e
    case Request(size) =>
      if Grants(cfg, b.inUse, size) then Books(Wrap64(b.inUse + size), b.ledger + [Reservation(size, true)]) else b
    case CloseTicket(t) =>
      if t < |b.ledger| && b.ledger[t].live then
        Books(Released(b.inUse, b.ledger[t].size), b.ledger[t := b.ledger[t].(live := false)])
      else b
  }

  function Run(cfg: Config, b: Books, events: seq<Event>): Books
    decreases events
  {
    if events == [] then b else Run(cfg, BudgetStep(cfg, b, events[0]), events[1..])
  }

  // ------------------------------------------------------------- the two classes

  class Manager {
    const cfg: Config
    var memoryInUse: int
    ghost var ledger: seq<Reservation>

    ghost function Account(): Books
      reads this
    {
      Books(memoryInUse, ledger)
    }

    constructor (memory: int, maxMemory: int, forceFile: bool)
      ensures Account() == Books(0, [])
      ensures cfg == Config(if memory == 0 then 67108864 else memory,
                            if maxMemory == 0 then 1073741824 else maxMemory, forceFile)
    {
      cfg := Config(if memory == 0 then 64 * 1024 * 1024 else memory,
                    if maxMemory == 0 then 1024 * 1024 * 1024 else maxMemory, forceFile);
      memoryInUse, ledger := 0, [];
    }

    method TryReserveMemory(size: int) returns (ok: bool)
      modifies this
      ensures ok == (size > 0 && Wrap64(old(memoryInUse) + size) <= cfg.maxMemory)
      ensures Account() == if ok then Books(Wrap64(old(memoryInUse) + size),
                                                                 old(ledger) + [Reservation(size, true)])
                          else old(Account())
    {
      if size <= 0 {
        return false;
      }
      if Wrap64(memoryInUse + size) > cfg.maxMemory {
        return false;
      }
      memoryInUse := Wrap64(memoryInUse + size);
      ledger := ledger + [Reservation(size, true)];
      return true;
    }

    method ReleaseMemory(size: nat, ghost ticket: nat)
      requires ticket < |ledger| && ledger[ticket] == Reservation(size, true)
      modifies this
      ensures Account() == BudgetStep(cfg, old(Account()), CloseTicket(ticket))
      ensures memoryInUse == if Wrap64(old(memoryInUse) - size) < 0 then 0 else Wrap64(old(memoryInUse) - size)
    {
      memoryInUse := Wrap64(memoryInUse - size);
      if memoryInUse < 0 {
        memoryInUse := 0;
      }
      ledger := ledger[ticket := Reservation(size, false)];
    }

    /**
     `NewFullBuffer`: in memory if the size is announced, small enough and within
     the budget; otherwise a temporary file, or nothing if the disk has no room for one.
     */
    method NewFullBuffer(expectedSize: int, disk: Disk) returns (b: FullBuffer)
      modifies this
      ensures Account() == BudgetStep(cfg, old(Account()), Request(expectedSize))
      ensures b.Managed? == Grants(cfg, old(memoryInUse), expectedSize)
      ensures old(memoryInUse) + expectedSize <= MAX_INT64 && -MAX_INT64 <= old(memoryInUse) ==>
                (b.Managed? <==> !cfg.forceFile && 0 < expectedSize <= cfg.memory
                                 && old(memoryInUse) + expectedSize <= cfg.maxMemory)
      ensures b.Managed? ==> fresh(b.m) && b.m.manager == this && b.m.Issued() && !b.m.done
                             && b.m.ticket == |old(ledger)| && b.m.size == expectedSize && b.m.inner.View().data == []
      ensures b.NotCreated? <==> !b.Managed? && disk.NoFile?
      ensures b.TempFile? ==> fresh(b.f) && b.f.Valid() && b.f.View().data == []
    {
      if cfg.forceFile {
        b := NewFileBuffer(disk);
        return;
      }
      if expectedSize > 0 && expectedSize <= cfg.memory {
        ghost var ticket := |ledger|;
        var reserved := TryReserveMemory(expectedSize);
        if reserved {
          var m := new ManagedMemoryBuffer(this, expectedSize, ticket);
          return Managed(m);
        }
      }
      b := NewFileBuffer(disk);
    }
  }

  method NewFileBuffer(disk: Disk) returns (b: FullBuffer)
    ensures b.NotCreated? == disk.NoFile? && !b.Managed?
    ensures b.TempFile? ==> fresh(b.f) && b.f.Valid() && b.f.View().data == []
  {
    if disk.NoFile? {
      return NotCreated;
    }
    var f := new FileBuffer(disk.removable);
    return TempFile(f);
  }

  /** What the temporary directory allows: no file at all, or one that can or cannot be removed later. */
  datatype Disk = NoFile | File(removable: bool)

  datatype FullBuffer = Managed(m: ManagedMemoryBuffer) | TempFile(f: FileBuffer) | NotCreated

  /** A memory buffer that gives its reservation back the first time it is closed. */
  class ManagedMemoryBuffer {
    const inner: MemoryBuffer
    const manager: Manager
    const size: nat
    ghost const ticket: nat
    var done: bool   // the `sync.Once`

    // The ledger knows this buffer: live exactly until its first close.
    ghost predicate Issued()
      reads this, manager
    {
      ticket < |manager.ledger| && manager.ledger[ticket] == Reservation(size, !done)
    }

    constructor (manager: Manager, size: nat, ghost ticket: nat)
      requires ticket < |manager.ledger| && manager.ledger[ticket] == Reservation(size, true)
      ensures this.manager == manager && this.size == size && this.ticket == ticket
      ensures Issued() && !done && fresh(inner) && inner.View().data == []
    {
      inner := new MemoryBuffer();
      this.manager, this.size, this.ticket, done := manager, size, ticket, false;
    }

    /** Closing again changes nothing. */
    method Close()
      requires Issued()
      modifies this, inner, manager
      ensures Issued() && done && inner.closed && inner.buf == old(inner.buf)
      ensures manager.Account() == BudgetStep(manager.cfg, old(manager.Account()), CloseTicket(ticket))
    {
      inner.Close();
      if !done {
        done := true;
        manager.ReleaseMemory(size, ticket);
      }
    }
  }

  // =============================================================== the results

  // The counter is the sum of the live reservations, and within the limit.
  ghost predicate Balanced(cfg: Config, b: Books) {
    b.inUse == LiveSum(b.ledger) && b.inUse <= cfg.maxMemory
  }

  lemma {:induction false} LiveSumAppend(ledger: seq<Reservation>, size: nat)
    ensures LiveSum(ledger + [Reservation(size, true)]) == LiveSum(ledger) + size
  {
    if ledger == [] {
      assert ledger + [Reservation(size, true)] == [Reservation(size, true)];
    } else {
      assert (ledger + [Reservation(size, true)])[1..] == ledger[1..] + [Reservation(size, true)];
      LiveSumAppend(ledger[1..], size);
    }
  }

  lemma {:induction false} LiveSumClose(ledger: seq<Reservation>, t: nat)
    requires t < |ledger| && ledger[t].live
    ensures LiveSum(ledger[t := ledger[t].(live := false)]) == LiveSum(ledger) - ledger[t].size
  {
    var ledger' := ledger[t := ledger[t].(live := false)];
    if t == 0 {
      assert ledger'[1..] == ledger[1..];
    } else {
      LiveSumClose(ledger[1..], t - 1);
      assert ledger'[1..] == ledger[1..][t - 1 := ledger[t].(live := false)];
    }
  }

  lemma WrapFits(x: int)
    requires -MAX_INT64 - 1 <= x <= MAX_INT64
    ensures Wrap64(x) == x
  {
  }

  /** If the limits add up within 64 bits, no request or close unbalances the books, and the clamp stays idle. */
  lemma StepBalanced(cfg: Config, b: Books, e: Event)
    requires cfg.Valid() && cfg.memory + cfg.maxMemory <= MAX_INT64
    requires Balanced(cfg, b)
    ensures Balanced(cfg, BudgetStep(cfg, b, e))
    ensures e.CloseTicket? && e.t < |b.ledger| && b.ledger[e.t].live ==> Wrap64(b.inUse - b.ledger[e.t].size) >= 0
  {
    match e
    case Request(size) =>
      if 0 < size <= cfg.memory {
        WrapFits(b.inUse + size);
        LiveSumAppend(b.ledger, size);
      }
    case CloseTicket(t) =>
      if t < |b.ledger| && b.ledger[t].live {
        LiveSumClose(b.ledger, t);
        WrapFits(b.inUse - b.ledger[t].size);
      }
  }

  lemma {:induction false} RunBalanced(cfg: Config, b: Books, events: seq<Event>)
    requires cfg.Valid() && cfg.memory + cfg.maxMemory <= MAX_INT64
    requires Balanced(cfg, b)
    ensures Balanced(cfg, Run(cfg, b, events))
    decreases events
  {
    if events != [] {
      StepBalanced(cfg, b, events[0]);
      RunBalanced(cfg, BudgetStep(cfg, b, events[0]), events[1..]);
    }
  }

  // Requests that use up the budget to the last byte.
  function Fill(cfg: Config, inUse: nat): (events: seq<Event>)
    requires cfg.Valid() && inUse <= cfg.maxMemory
    decreases cfg.maxMemory - inUse
  {
    if inUse == cfg.maxMemory then []
    else
      var size := if cfg.memory <= cfg.maxMemory - inUse then cfg.memory else cfg.maxMemory - inUse;
      [Request(size)] + Fill(cfg, inUse + size)
  }

  // One request of the filling run: granted, and the books stay balanced.
  lemma FillOnce(cfg: Config, b: Books)
    requires cfg.Valid() && !cfg.forceFile && Balanced(cfg, b) && b.inUse < cfg.maxMemory
    ensures var size := if cfg.memory <= cfg.maxMemory - b.inUse then cfg.memory else cfg.maxMemory - b.inUse;
            var b' := BudgetStep(cfg, b, Request(size));
            Balanced(cfg, b') && b'.inUse == b.inUse + size
  {
    hide Wrap64, LiveSum;
    var size := if cfg.memory <= cfg.maxMemory - b.inUse then cfg.memory else cfg.maxMemory - b.inUse;
    WrapFits(b.inUse + size);
    LiveSumAppend(b.ledger, size);
  }

  // One request too many: the sum wraps around and passes the test.
  lemma OneTooMany(cfg: Config, b: Books)
    requires cfg.Valid() && !cfg.forceFile && b.inUse == cfg.maxMemory
    requires cfg.memory + cfg.maxMemory > MAX_INT64
    ensures BudgetStep(cfg, b, Request(cfg.memory)).inUse < 0
  {
    hide LiveSum;
  }

  lemma RunFirst(cfg: Config, b: Books, e: Event, rest: seq<Event>)
    ensures Run(cfg, b, [e] + rest) == Run(cfg, BudgetStep(cfg, b, e), rest)
  {
    hide BudgetStep;
    assert ([e] + rest)[1..] == rest;
  }

  lemma {:induction false} FillThenOne(cfg: Config, b: Books)
    requires cfg.Valid() && !cfg.forceFile && Balanced(cfg, b)
    requires cfg.memory + cfg.maxMemory > MAX_INT64
    ensures Run(cfg, b, Fill(cfg, b.inUse) + [Request(cfg.memory)]).inUse < 0
    decreases cfg.maxMemory - b.inUse
  {
    hide BudgetStep, LiveSum;
    var events := Fill(cfg, b.inUse);
    var one := [Request(cfg.memory)];
    if b.inUse == cfg.maxMemory {
      assert events + one == one == one + [];
      RunFirst(cfg, b, one[0], []);
      OneTooMany(cfg, b);
    } else {
      FillOnce(cfg, b);
      var b' := BudgetStep(cfg, b, events[0]);
      assert events + one == [events[0]] + (Fill(cfg, b'.inUse) + one);
      RunFirst(cfg, b, events[0], Fill(cfg, b'.inUse) + one);
      FillThenOne(cfg, b');
    }
  }

  /**
   The counter is the sum of the live reservations and at most the limit, over
   every run of requests and closes, exactly when the two limits add up within
   64 bits (or memory buffers are switched off).
   */
  lemma BudgetExactly(cfg: Config)
    requires 0 < cfg.memory < 0x8000_0000_0000_0000 && 0 < cfg.maxMemory < 0x8000_0000_0000_0000
    ensures (forall events :: Balanced(cfg, Run(cfg, Books(0, []), events)))
            <==> cfg.forceFile || cfg.memory + cfg.maxMemory <= MAX_INT64
  {
    if cfg.forceFile {
      forall events {
        NothingForced(cfg, Books(0, []), events);
      }
    } else if cfg.memory + cfg.maxMemory <= MAX_INT64 {
      forall events {
        RunBalanced(cfg, Books(0, []), events);
      }
    } else {
      FillThenOne(cfg, Books(0, []));
    }
  }

  lemma {:induction false} NothingForced(cfg: Config, b: Books, events: seq<Event>)
    requires cfg.forceFile && b == Books(0, [])
    ensures Run(cfg, b, events) == b
    decreases events
  {
    if events != [] {
      NothingForced(cfg, b, events[1..]);
    }
  }
}
