/**
 The upload path on plain values: what each storage call and each pipeline
 stage does to one remote file when the outside world answers according to a
 given plan.  The imperative modules are proved equal to these functions; the
 safety and recovery results are proved about them, for every plan.
 */
module Transfer {
  import opened Base

  // ---------------------------------------------------------------- the world

  /** The world's answer to one external call. */
  datatype Move =
    | Proceed           // the call works
    | Short(n: nat)     // a streamed body hands over at most n bytes now
    | Fail(n: nat)      // the call reports an error after n units of its effect
    | Tamper(b: Bytes)  // the stored bytes are replaced before they are read back

  /** The answers still to come.  Past its end every call works. */
  type Plan = seq<Move>

  function Next(plan: Plan): Move {
    if plan == [] then Proceed else plan[0]
  }

  function Rest(plan: Plan): Plan {
    if plan == [] then [] else plan[1..]
  }

  /** How many failures a plan still holds. */
  function Faults(plan: Plan): nat {
    if plan == [] then 0 else (if plan[0].Fail? then 1 else 0) + Faults(plan[1..])
  }

  /** How many silent replacements of stored bytes a plan still holds. */
  function Tampers(plan: Plan): nat {
    if plan == [] then 0 else (if plan[0].Tamper? then 1 else 0) + Tampers(plan[1..])
  }

  /** One backend call, as an observer of the storage server records it. */
  datatype Call = UploadCall | ResumeCall(offset: nat) | SizeCall | DownloadCall

  /** One remote file, the answers to come, and the backend calls made so far. */
  datatype Net = Net(file: Option<Bytes>, plan: Plan, calls: seq<Call>)

  // ------------------------------------------------------------------ readers

  datatype Kind = MemoryKind | FileKind | AssembledKind | StreamKind(eager: bool)

  /** What an upload reader holds and where its cursor is. */
  datatype Reader = Reader(data: Bytes, pos: nat, seekable: bool, kind: Kind) {
    /** The bytes a complete drain from the cursor delivers. */
    function Left(): Bytes {
      if pos <= |data| then data[pos..] else []
    }

    function Rewound(): Reader {
      if seekable then this.(pos := 0) else this
    }
  }

  datatype ReadResult = ReadResult(chunk: Bytes, status: Status, r: Reader, plan: Plan)

  /** Whether delivering `n` of `left` remaining bytes into `cap` bytes of room reports EOF. */
  predicate EofNow(kind: Kind, n: nat, left: nat, cap: nat) {
    match kind
    case MemoryKind => left == 0
    case FileKind => n < cap
    case AssembledKind => n < cap
    case StreamKind(eager) => n == left && (eager || n == 0)
  }

  /** The room a read may use: a failing read stops early, a streamed body may deliver less. */
  function Room(kind: Kind, cap: nat, move: Move): nat {
    match move
    case Fail(n) => if kind.MemoryKind? then cap else Min(n, cap)
    case Short(n) => if kind.StreamKind? then Max(1, Min(n, cap)) else cap
    case _ => cap
  }

  /** One `Read` into a buffer of `cap` bytes.  Memory never fails; the other kinds may. */
  function ReadStep(r: Reader, cap: nat, plan: Plan): ReadResult
    requires cap > 0
  {
    var move := Next(plan);
    var room := Room(r.kind, cap, move);
    var left := r.Left();
    var n := Min(room, |left|);
    var status :=
      if move.Fail? && !r.kind.MemoryKind? then Broken
      else if EofNow(r.kind, n, |left|, room) then Eof
      else More;
    ReadResult(left[..n], status, r.(pos := r.pos + n), Rest(plan))
  }

  lemma ReadStepProgress(r: Reader, cap: nat, plan: Plan)
    requires cap > 0
    ensures var rr := ReadStep(r, cap, plan);
            && r.Left() == rr.chunk + rr.r.Left()
            && (rr.status == More ==> rr.chunk != [])
            && (rr.status == Eof ==> rr.r.Left() == [])
            && (rr.status == Broken ==> Next(plan).Fail?)
  {
  }

  // ---------------------------------------------------------- the remote file

  function Zeros(n: nat): Bytes {
    seq(n, _ => 0 as byte)
  }

  /** A positioned write: overwrite from `at`, keep what lies behind, fill a gap with zeros. */
  function WriteAt(file: Bytes, at: nat, data: Bytes): Bytes {
    if at > |file| then file + Zeros(at - |file|) + data
    else file[..at] + data + (if at + |data| <= |file| then file[at + |data|..] else [])
  }

  const COPY_CHUNK: nat := 131072
  const IO_COPY_CHUNK: nat := 32768

  /** The copy loop's variables: source, remote file, position in it, answers to come. */
  datatype Copying = Copying(r: Reader, file: Bytes, at: nat, plan: Plan)

  datatype Turn = Turn(done: bool, ok: bool, s: Copying)

  /** One turn of the copy loop: check for cancellation, read, write what was read. */
  function CopyTurn(s: Copying): Turn {
    if Next(s.plan).Fail? then
      Turn(true, false, s.(plan := Rest(s.plan)))
    else
      var rr := ReadStep(s.r, COPY_CHUNK, Rest(s.plan));
      var wrote := WriteStep(s.file, s.at, rr.chunk, rr.plan);
      Turn(!wrote.ok || rr.status != More, wrote.ok && rr.status == Eof,
           Copying(rr.r, wrote.file, s.at + |rr.chunk|, wrote.plan))
  }

  datatype Write = Write(ok: bool, file: Bytes, plan: Plan)

  /** Writing a chunk; nothing is sent for an empty one. */
  function WriteStep(file: Bytes, at: nat, chunk: Bytes, plan: Plan): Write {
    if chunk == [] then Write(true, file, plan)
    else match Next(plan)
      case Fail(n) => Write(false, WriteAt(file, at, chunk[..Min(n, |chunk|)]), Rest(plan))
      case _ => Write(true, WriteAt(file, at, chunk), Rest(plan))
  }

  lemma TurnShrinks(s: Copying)
    ensures var t := CopyTurn(s); !t.done ==> |t.s.r.Left()| < |s.r.Left()|
  {
    ReadStepProgress(s.r, COPY_CHUNK, Rest(s.plan));
  }

  /** The copy loop: turns until one ends it. */
  function CopyRun(s: Copying): Turn
    decreases |s.r.Left()|
  {
    TurnShrinks(s);
    var t := CopyTurn(s);
    if t.done then t else CopyRun(t.s)
  }

  datatype Attempt = Attempt(ok: bool, r: Reader, net: Net)

  function FileOrEmpty(file: Option<Bytes>): Bytes {
    if file.Some? then file.value else []
  }

  /** What opening leaves at the path: nothing is kept under truncation, a missing file is created. */
  function OpenedFile(file: Option<Bytes>, truncate: bool): Bytes {
    if truncate then [] else FileOrEmpty(file)
  }

  /** Connect, open, copy from the reader's cursor to position `at`. */
  function SendRun(r: Reader, net: Net, at: nat, truncate: bool): Attempt {
    var move := Next(net.plan);
    if move.Fail? then
      Attempt(false, r, net.(file := if move.n == 0 then net.file else Some(OpenedFile(net.file, truncate)),
                             plan := Rest(net.plan)))
    else
      var t := CopyRun(Copying(r, OpenedFile(net.file, truncate), at, Rest(net.plan)));
      Attempt(t.ok, t.s.r, Net(Some(t.s.file), t.s.plan, net.calls))
  }

  /** `Upload`: rewind if possible, open with truncation, copy. */
  function UploadRun(r: Reader, net: Net): Attempt {
    SendRun(r.Rewound(), net.(calls := net.calls + [UploadCall]), 0, true)
  }

  /** `ResumeUpload`: seek the reader, open without truncation, copy from `offset` on. */
  function ResumeRun(r: Reader, net: Net, offset: nat): Attempt {
    var net' := net.(calls := net.calls + [ResumeCall(offset)]);
    if !r.seekable && offset != 0 then Attempt(false, r, net')
    else SendRun(if r.seekable then r.(pos := offset) else r, net', offset, false)
  }

  datatype SizeResult = SizeResult(size: Option<nat>, net: Net)

  function SizeRun(net: Net): SizeResult {
    var net' := net.(plan := Rest(net.plan), calls := net.calls + [SizeCall]);
    if Next(net.plan).Fail? || net.file.None? then SizeResult(None, net')
    else SizeResult(Some(|net.file.value|), net')
  }

  /** The offset a retry resumes at: the queried size, or 0 if it is unknown or too large. */
  function ResumeOffset(queried: Option<nat>, size: nat): nat {
    if queried.None? || queried.value > size then 0 else queried.value
  }

  /** Attempt number `attempt`: a full upload first, resumed uploads after that. */
  function AttemptRun(r: Reader, net: Net, size: nat, attempt: nat): Attempt {
    if attempt == 0 then UploadRun(r, net)
    else
      var queried := SizeRun(net);
      ResumeRun(r, queried.net, ResumeOffset(queried.size, size))
  }

  /** Attempts `attempt .. maxRetries` of `uploadWithRetry`. */
  function RetryRun(r: Reader, net: Net, size: nat, attempt: nat, maxRetries: nat): Attempt
    requires attempt <= maxRetries
    decreases maxRetries - attempt
  {
    var a := AttemptRun(r, net, size, attempt);
    if a.ok || attempt == maxRetries then a
    else RetryRun(a.r, a.net, size, attempt + 1, maxRetries)
  }

  // ============================================================== the results

  lemma RestFaults(plan: Plan)
    ensures Faults(plan) == Faults(Rest(plan)) + (if Next(plan).Fail? then 1 else 0)
    ensures Tampers(plan) == Tampers(Rest(plan)) + (if Next(plan).Tamper? then 1 else 0)
  {
  }

  // The remote file is missing or holds the beginning of what is to be stored.
  ghost predicate Partial(file: Option<Bytes>, want: Bytes) {
    file.None? || file.value <= want
  }

  /** A positioned write, byte by byte: its own bytes where it writes, zeros in a gap, the old bytes elsewhere. */
  lemma WriteAtExactly(file: Bytes, at: nat, data: Bytes)
    ensures var f := WriteAt(file, at, data);
            && |f| == Max(|file|, at + |data|)
            && forall i :: 0 <= i < |f| ==>
                 f[i] == if at <= i < at + |data| then data[i - at] else if i < |file| then file[i] else 0
  {
  }

  lemma WriteKeepsPrefix(file: Bytes, at: nat, chunk: Bytes, want: Bytes)
    requires file <= want && at <= |file| && at + |chunk| <= |want|
    requires chunk == want[at..at + |chunk|]
    ensures var f := WriteAt(file, at, chunk);
            f <= want && |f| == Max(|file|, at + |chunk|)
  {
  }

  lemma WriteStepSafe(file: Bytes, at: nat, chunk: Bytes, plan: Plan, want: Bytes)
    requires file <= want && at <= |file| && at + |chunk| <= |want|
    requires chunk == want[at..at + |chunk|]
    ensures var w := WriteStep(file, at, chunk, plan);
            && w.file <= want && |file| <= |w.file|
            && (w.ok ==> at + |chunk| <= |w.file|)
            && Faults(w.plan) + (if w.ok then 0 else 1) <= Faults(plan)
            && Tampers(w.plan) <= Tampers(plan)
  {
    RestFaults(plan);
    var k := if Next(plan).Fail? then Min(Next(plan).n, |chunk|) else |chunk|;
    assert chunk[..k] == want[at..at + k];
    assert chunk[..|chunk|] == chunk;
    WriteKeepsPrefix(file, at, chunk[..k], want);
  }

  // What holds at the head of the copy loop: the file is a beginning of `want`,
  // and the reader still has exactly the bytes of `want` from the write position on.
  ghost predicate CopyInv(s: Copying, want: Bytes) {
    s.file <= want && s.at <= |s.file| && want[s.at..] == s.r.Left()
  }

  lemma TurnSafe(s: Copying, want: Bytes)
    requires CopyInv(s, want)
    ensures var t := CopyTurn(s);
            && t.s.file <= want && |s.file| <= |t.s.file|
            && (!t.done ==> CopyInv(t.s, want))
            && (t.done && t.ok ==> t.s.file == want && t.s.r.Left() == [])
  {
    if !Next(s.plan).Fail? {
      var rr := ReadStep(s.r, COPY_CHUNK, Rest(s.plan));
      ReadStepProgress(s.r, COPY_CHUNK, Rest(s.plan));
      assert rr.chunk == want[s.at..s.at + |rr.chunk|];
      assert rr.r.Left() == want[s.at + |rr.chunk|..];
      WriteStepSafe(s.file, s.at, rr.chunk, rr.plan, want);
    }
  }

  /** The copy loop never leaves the prefix order, and when it succeeds it has written everything. */
  lemma {:induction false} CopySafe(s: Copying, want: Bytes)
    requires CopyInv(s, want)
    ensures var t := CopyRun(s);
            && t.s.file <= want
            && |s.file| <= |t.s.file|
            && (t.ok ==> t.s.file == want && t.s.r.Left() == [])
    decreases |s.r.Left()|
  {
    TurnSafe(s, want);
    TurnShrinks(s);
    if !CopyTurn(s).done {
      CopySafe(CopyTurn(s).s, want);
    }
  }

  lemma TurnFrame(s: Copying)
    ensures var t := CopyTurn(s);
            && t.s.r == s.r.(pos := t.s.r.pos) && s.r.pos <= t.s.r.pos
            && (s.r.pos <= |s.r.data| ==> t.s.r.pos <= |s.r.data|)
            && Faults(t.s.plan) + (if t.done && !t.ok then 1 else 0) <= Faults(s.plan)
            && Tampers(t.s.plan) <= Tampers(s.plan)
  {
    RestFaults(s.plan);
    if !Next(s.plan).Fail? {
      var rr := ReadStep(s.r, COPY_CHUNK, Rest(s.plan));
      RestFaults(Rest(s.plan));
      RestFaults(rr.plan);
    }
  }

  /** A reader only moves forward over fixed data, and a copy fails only by using up a fault. */
  lemma {:induction false} CopyFrame(s: Copying)
    ensures var t := CopyRun(s);
            && t.s.r == s.r.(pos := t.s.r.pos) && s.r.pos <= t.s.r.pos
            && (s.r.pos <= |s.r.data| ==> t.s.r.pos <= |s.r.data|)
            && Faults(t.s.plan) + (if t.ok then 0 else 1) <= Faults(s.plan)
            && Tampers(t.s.plan) <= Tampers(s.plan)
    decreases |s.r.Left()|
  {
    TurnFrame(s);
    TurnShrinks(s);
    if !CopyTurn(s).done {
      CopyFrame(CopyTurn(s).s);
    }
  }

  // What a reader is expected to store: everything, unless it cannot be rewound.
  function Payload(r: Reader): Bytes {
    r.Rewound().Left()
  }

  // What an attempt may do to the world: it moves the cursor, uses up answers,
  // and uses up a fault if it fails.
  ghost predicate Consumes(r: Reader, net: Net, a: Attempt, cost: nat) {
    && a.r == r.(pos := a.r.pos)
    && Faults(a.net.plan) + (if a.ok then 0 else cost) <= Faults(net.plan)
    && Tampers(a.net.plan) <= Tampers(net.plan)
  }

  /** Sending keeps the remote file a beginning of `want`, and success completes it. */
  lemma SendSafe(r: Reader, net: Net, at: nat, truncate: bool, want: Bytes)
    requires CopyInv(Copying(r, OpenedFile(net.file, truncate), at, Rest(net.plan)), want)
    ensures var a := SendRun(r, net, at, truncate);
            && (Partial(net.file, want) ==> Partial(a.net.file, want))
            && (!truncate ==> |FileOrEmpty(net.file)| <= |FileOrEmpty(a.net.file)|)
            && (a.ok ==> a.net.file == Some(want) && a.r.Left() == [])
            && Consumes(r, net, a, 1) && r.pos <= a.r.pos
            && (r.pos <= |r.data| ==> a.r.pos <= |r.data|)
            && a.net.calls == net.calls
  {
    RestFaults(net.plan);
    var s := Copying(r, OpenedFile(net.file, truncate), at, Rest(net.plan));
    CopySafe(s, want);
    CopyFrame(s);
  }

  lemma UploadSafe(r: Reader, net: Net)
    ensures var a := UploadRun(r, net);
            && (Partial(net.file, Payload(r)) ==> Partial(a.net.file, Payload(r)))
            && (a.ok ==> a.net.file == Some(Payload(r)) && a.r.Left() == [])
            && Consumes(r, net, a, 1) && (!r.seekable ==> r.pos <= a.r.pos)
            && a.net.calls == net.calls + [UploadCall]
  {
    SendSafe(r.Rewound(), net.(calls := net.calls + [UploadCall]), 0, true, Payload(r));
  }

  lemma ResumeSafe(r: Reader, net: Net, offset: nat)
    requires r.seekable
    requires Partial(net.file, r.data)
    requires offset <= |FileOrEmpty(net.file)|
    ensures var a := ResumeRun(r, net, offset);
            && Partial(a.net.file, r.data)
            && |FileOrEmpty(net.file)| <= |FileOrEmpty(a.net.file)|
            && (a.ok ==> a.net.file == Some(r.data))
            && Consumes(r, net, a, 1)
  {
    SendSafe(r.(pos := offset), net.(calls := net.calls + [ResumeCall(offset)]), offset, false, r.data);
  }

  /** A reader that cannot seek cannot be resumed anywhere but at the start; the call is made and nothing else. */
  lemma ResumeNeedsSeek(r: Reader, net: Net, offset: nat)
    requires !r.seekable && offset != 0
    ensures ResumeRun(r, net, offset) == Attempt(false, r, Net(net.file, net.plan, net.calls + [ResumeCall(offset)]))
  {
  }

  lemma AttemptSafe(r: Reader, net: Net, size: nat, attempt: nat)
    requires r.seekable && Partial(net.file, r.data)
    ensures var a := AttemptRun(r, net, size, attempt);
            && Partial(a.net.file, r.data)
            && (a.ok ==> a.net.file == Some(r.data))
            && Consumes(r, net, a, 1)
  {
    if attempt == 0 {
      UploadSafe(r, net);
    } else {
      RestFaults(net.plan);
      var q := SizeRun(net);
      ResumeSafe(r, q.net, ResumeOffset(q.size, size));
    }
  }

  /**
   The calls of one attempt: the first one uploads; a later one asks for the
   stored length and resumes there, or at 0 if the length is unknown or too large.
   */
  lemma AttemptCalls(r: Reader, net: Net, size: nat, attempt: nat)
    ensures var known := !Next(net.plan).Fail? && net.file.Some? && |net.file.value| <= size;
            AttemptRun(r, net, size, attempt).net.calls == net.calls +
              if attempt == 0 then [UploadCall] else [SizeCall, ResumeCall(if known then |net.file.value| else 0)]
  {
    hide CopyRun;
    var q := SizeRun(net);
    var offset := ResumeOffset(q.size, size);
    assert net.calls + [SizeCall] + [ResumeCall(offset)] == net.calls + [SizeCall, ResumeCall(offset)];
  }

  /**
   Upload with retries, for every plan and any number of retries: the remote
   file stays missing or a beginning of the payload through every failure, and
   success means it is the payload.  Giving up takes one fault per attempt.
   */
  lemma {:induction false} RetrySafe(r: Reader, net: Net, size: nat, attempt: nat, maxRetries: nat)
    requires r.seekable && attempt <= maxRetries
    requires Partial(net.file, r.data)
    ensures var a := RetryRun(r, net, size, attempt, maxRetries);
            && Partial(a.net.file, r.data)
            && (a.ok ==> a.net.file == Some(r.data))
            && Consumes(r, net, a, maxRetries - attempt + 1)
    decreases maxRetries - attempt
  {
    AttemptSafe(r, net, size, attempt);
    var a := AttemptRun(r, net, size, attempt);
    if !a.ok && attempt < maxRetries {
      RetrySafe(a.r, a.net, size, attempt + 1, maxRetries);
    }
  }

  // ------------------------------------------------- how many faults it takes

  // A first attempt that cannot connect, and `n` retries that cannot either.
  function DeadPlan(n: nat): Plan {
    if n == 0 then [Fail(0)] else DeadPlan(n - 1) + [Proceed, Fail(0)]
  }

  // The same, without the first attempt.
  function DeadRetries(n: nat): Plan {
    if n == 0 then [] else [Proceed, Fail(0)] + DeadRetries(n - 1)
  }

  lemma {:induction false} DeadPlanSplit(n: nat)
    ensures DeadPlan(n) == [Fail(0)] + DeadRetries(n)
    ensures Faults(DeadPlan(n)) == n + 1
  {
    DeadRetriesSnoc(n);
    if n > 0 {
      DeadPlanSplit(n - 1);
      assert [Fail(0)] + DeadRetries(n - 1) + [Proceed, Fail(0)] == [Fail(0)] + (DeadRetries(n - 1) + [Proceed, Fail(0)]);
    }
    assert DeadPlan(n)[1..] == DeadRetries(n);
  }

  lemma {:induction false} DeadRetriesSnoc(n: nat)
    ensures Faults(DeadRetries(n)) == n
    ensures n > 0 ==> DeadRetries(n) == DeadRetries(n - 1) + [Proceed, Fail(0)]
  {
    if n > 0 {
      DeadRetriesSnoc(n - 1);
      var d := DeadRetries(n);
      assert d[1..] == [Fail(0)] + DeadRetries(n - 1) && d[1..][1..] == DeadRetries(n - 1);
      if n > 1 {
        assert [Proceed, Fail(0)] + (DeadRetries(n - 2) + [Proceed, Fail(0)])
            == [Proceed, Fail(0)] + DeadRetries(n - 2) + [Proceed, Fail(0)];
      }
    }
  }

  lemma {:induction false} DeadRetriesFail(r: Reader, calls: seq<Call>, size: nat, attempt: nat, maxRetries: nat)
    requires r.seekable && 1 <= attempt <= maxRetries
    ensures !RetryRun(r, Net(None, DeadRetries(maxRetries - attempt + 1), calls), size, attempt, maxRetries).ok
    decreases maxRetries - attempt
  {
    var n := maxRetries - attempt;
    var net := Net(None, DeadRetries(n + 1), calls);
    assert Rest(net.plan) == [Fail(0)] + DeadRetries(n) && Rest(Rest(net.plan)) == DeadRetries(n);
    var a := AttemptRun(r, net, size, attempt);
    assert !a.ok && a.net == Net(None, DeadRetries(n), a.net.calls);
    if n > 0 {
      DeadRetriesFail(a.r, a.net.calls, size, attempt + 1, maxRetries);
    }
  }

  /** Onto a missing file the upload survives any `n` faults exactly when it may retry `n` times. */
  lemma ToleratesExactly(r: Reader, size: nat, maxRetries: nat, n: nat)
    requires r.seekable
    ensures (forall plan: Plan :: Faults(plan) <= n ==> RetryRun(r, Net(None, plan, []), size, 0, maxRetries).ok)
            <==> n <= maxRetries
  {
    forall plan: Plan | Faults(plan) <= n && n <= maxRetries
      ensures RetryRun(r, Net(None, plan, []), size, 0, maxRetries).ok
    {
      RetrySafe(r, Net(None, plan, []), size, 0, maxRetries);
    }
    var plan := DeadPlan(maxRetries);
    DeadPlanSplit(maxRetries);
    assert Rest(plan) == DeadRetries(maxRetries);
    var net := Net(None, plan, []);
    var a := UploadRun(r, net);
    assert !a.ok && a.net == Net(None, DeadRetries(maxRetries), a.net.calls);
    if maxRetries > 0 {
      DeadRetriesFail(a.r, a.net.calls, size, 1, maxRetries);
    }
    assert !RetryRun(r, net, size, 0, maxRetries).ok;
  }

  // -------------------------------------------- when the starting file is stale

  lemma WritesCompose(file: Bytes, at: nat, a: Bytes, b: Bytes)
    requires at <= |file|
    ensures WriteAt(WriteAt(file, at, a), at + |a|, b) == WriteAt(file, at, a + b)
  {
  }

  lemma WriteNothingAt(file: Bytes, at: nat)
    requires at <= |file|
    ensures WriteAt(file, at, []) == file
  {
  }

  lemma TurnUndisturbed(s: Copying)
    requires s.at <= |s.file| && s.plan == []
    ensures var t := CopyTurn(s);
            && (t.done ==> t.ok && t.s.r.Left() == [])
            && t.s.plan == [] && t.s.at <= |t.s.file|
            && WriteAt(t.s.file, t.s.at, t.s.r.Left()) == WriteAt(s.file, s.at, s.r.Left())
  {
    var rr := ReadStep(s.r, COPY_CHUNK, []);
    ReadStepProgress(s.r, COPY_CHUNK, []);
    WritesCompose(s.file, s.at, rr.chunk, rr.r.Left());
    if rr.chunk == [] {
      assert WriteAt(s.file, s.at, rr.chunk) == s.file;
    }
  }

  /** Without faults a copy lays the remaining bytes over the file. */
  lemma {:induction false} CopyUndisturbed(s: Copying)
    requires s.at <= |s.file| && s.plan == []
    ensures CopyRun(s).ok
    ensures CopyRun(s).s.file == WriteAt(s.file, s.at, s.r.Left())
    decreases |s.r.Left()|
  {
    hide CopyTurn, WriteAt;
    TurnUndisturbed(s);
    TurnShrinks(s);
    var t := CopyTurn(s);
    if t.done {
      WriteNothingAt(t.s.file, t.s.at);
    } else {
      CopyUndisturbed(t.s);
    }
  }

  /** A first attempt that dies before its truncating open resumes whatever is there. */
  lemma StaleFileResumed(r: Reader, stale: Bytes, size: nat, calls: seq<Call>)
    requires r.seekable && |r.data| <= size
    ensures var a := RetryRun(r, Net(Some(stale), [Fail(0)], calls), size, 0, 1);
            && a.ok
            && (a.net.file == Some(r.data) <==> stale <= r.data)
  {
    var net := Net(Some(stale), [Fail(0)], calls);
    var first := UploadRun(r, net);
    var q := SizeRun(first.net);
    var offset := ResumeOffset(q.size, size);
    var r' := first.r.(pos := offset);
    assert RetryRun(r, net, size, 0, 1) == RetryRun(first.r, first.net, size, 1, 1)
        == ResumeRun(first.r, q.net, offset);
    CopyUndisturbed(Copying(r', stale, offset, []));
    var stored := WriteAt(stale, offset, r'.Left());
    if |stale| <= |r.data| {
      assert stored == stale + r.data[|stale|..];
      assert stored[..|stale|] == stale;
      assert stale <= r.data ==> stored == r.data;
    } else {
      assert |stored| == |stale|;
    }
  }

  /**
   A file may lie at the storage path already, since paths repeat within a
   second.  The retrying upload is correct for every plan exactly when that
   file is a beginning of the payload.
   */
  lemma StaleFileExactly(r: Reader, file: Option<Bytes>, size: nat, calls: seq<Call>)
    requires r.seekable && |r.data| <= size
    ensures (forall plan: Plan :: RetryRun(r, Net(file, plan, calls), size, 0, 1).ok ==>
               RetryRun(r, Net(file, plan, calls), size, 0, 1).net.file == Some(r.data))
            <==> Partial(file, r.data)
  {
    if Partial(file, r.data) {
      forall plan: Plan {
        RetrySafe(r, Net(file, plan, calls), size, 0, 1);
      }
    } else {
      StaleFileResumed(r, file.value, size, calls);
    }
  }
}
