/**
 One request through the pipeline on plain values: hash, upload with retries,
 verify, retransmit.  Rotation comes after this and is specified in `Rotation`.
 */
module PipelineSpec {
  import opened Base
  import opened Transfer

  /** The two digests, printed in hex.  Nothing is assumed about them. */
  datatype Hashes = Hashes(sha256: Bytes -> string, md5: Bytes -> string)

  datatype Failure =
    | ReadFailed
    | UploadFailed
    | DownloadFailed
    | RetransmitFailed
    | VerificationFailed
    | RotationFailed
    | UnknownKey

  datatype Result<+T> = Ok(value: T) | Err(error: Failure)

  datatype Digests = Digests(sha256: string, md5: string)

  /** `ContentLength` is negative when the request did not announce one. */
  datatype Metadata = Metadata(contentLength: int, expectedSha256: string)

  datatype UploadResult = UploadResult(size: nat, digests: Digests, verified: bool)

  function Lower(c: char): char {
    if 'A' <= c <= 'Z' then c - 'A' + 'a' else c
  }

  /** `strings.EqualFold`, on ASCII. */
  predicate EqualFold(a: string, b: string) {
    |a| == |b| && forall i :: 0 <= i < |a| ==> Lower(a[i]) == Lower(b[i])
  }

  // The two cases of one letter.
  predicate CasesOfOneLetter(c: char, d: char) {
    ('A' <= c <= 'Z' && d as int - c as int == 32) || ('A' <= d <= 'Z' && c as int - d as int == 32)
  }

  // Letter for letter the same, but for case.
  predicate SpelledAlike(a: string, b: string) {
    |a| == |b| && forall i :: 0 <= i < |a| ==> a[i] == b[i] || CasesOfOneLetter(a[i], b[i])
  }

  /** The comparison fails at the first position with two characters that are not the two cases of one letter. */
  lemma EqualFoldExactly(a: string, b: string)
    ensures EqualFold(a, b) <==> SpelledAlike(a, b)
  {
  }

  predicate IsHex(s: string) {
    |s| % 2 == 0 && forall i :: 0 <= i < |s| ==> '0' <= s[i] <= '9' || 'a' <= s[i] <= 'f' || 'A' <= s[i] <= 'F'
  }

  function Nibble(c: char): nat {
    if '0' <= c <= '9' then c as nat - 48
    else if 'a' <= c <= 'f' then c as nat - 87
    else if 'A' <= c <= 'F' then c as nat - 55
    else 0
  }

  /** The bytes a hex string prints. */
  function HexBytes(s: string): seq<nat> {
    if |s| < 2 then [] else [16 * Nibble(s[0]) + Nibble(s[1])] + HexBytes(s[2..])
  }

  function HexChar(n: nat): char
    requires n < 16
  {
    "0123456789abcdef"[n]
  }

  function HexPair(b: byte): string {
    [HexChar(b as nat / 16), HexChar(b as nat % 16)]
  }

  /** Bytes printed in hex, with small letters. */
  function PrintHex(bytes: Bytes): string {
    if bytes == [] then "" else HexPair(bytes[0]) + PrintHex(bytes[1..])
  }

  function Numbers(bytes: Bytes): seq<nat> {
    if bytes == [] then [] else [bytes[0] as nat] + Numbers(bytes[1..])
  }

  lemma HexCharReads(n: nat)
    requires n < 16
    ensures Nibble(HexChar(n)) == n && ('0' <= HexChar(n) <= '9' || 'a' <= HexChar(n) <= 'f')
  {
  }

  lemma PairReads(b: byte)
    ensures |HexPair(b)| == 2 && IsHex(HexPair(b)) && 16 * Nibble(HexPair(b)[0]) + Nibble(HexPair(b)[1]) == b as nat
  {
    hide HexChar, Nibble;
    HexCharReads(b as nat / 16);
    HexCharReads(b as nat % 16);
  }

  lemma PairAhead(pair: string, rest: string)
    requires |pair| == 2 && IsHex(pair) && IsHex(rest)
    ensures IsHex(pair + rest)
    ensures HexBytes(pair + rest) == [16 * Nibble(pair[0]) + Nibble(pair[1])] + HexBytes(rest)
  {
    hide Nibble;
    var s := pair + rest;
    assert s[2..] == rest;
    assert forall i :: 0 <= i < |s| ==> s[i] == if i < 2 then pair[i] else rest[i - 2];
  }

  /** Every print is a hex string and stands for the bytes printed. */
  lemma {:induction false} PrintHexReads(bytes: Bytes)
    ensures IsHex(PrintHex(bytes)) && HexBytes(PrintHex(bytes)) == Numbers(bytes)
  {
    hide HexPair, Nibble;
    if bytes != [] {
      PrintHexReads(bytes[1..]);
      PairReads(bytes[0]);
      PairAhead(HexPair(bytes[0]), PrintHex(bytes[1..]));
    }
  }

  lemma NibbleAlike(c: char, d: char)
    requires IsHex([c, c]) && IsHex([d, d])
    ensures Nibble(c) == Nibble(d) <==> c == d || CasesOfOneLetter(c, d)
    ensures Nibble(c) < 16
  {
    assert [c, c][0] == c && [d, d][0] == d;
  }

  /** On hex strings the comparison asks whether they print the same bytes. */
  lemma {:induction false} SpelledAlikeHex(a: string, b: string)
    requires IsHex(a) && IsHex(b)
    ensures SpelledAlike(a, b) <==> HexBytes(a) == HexBytes(b)
  {
    if a == "" || b == "" {
      assert a == "" <==> HexBytes(a) == [];
      assert b == "" <==> HexBytes(b) == [];
    } else {
      SpelledAlikeHex(a[2..], b[2..]);
      NibbleAlike(a[0], b[0]);
      NibbleAlike(a[1], b[1]);
      assert HexBytes(a) == [16 * Nibble(a[0]) + Nibble(a[1])] + HexBytes(a[2..]);
      assert HexBytes(b) == [16 * Nibble(b[0]) + Nibble(b[1])] + HexBytes(b[2..]);
      assert HexBytes(a)[1..] == HexBytes(a[2..]) && HexBytes(b)[1..] == HexBytes(b[2..]);
      HeadAndTail(a, b);
    }
  }

  lemma HeadAndTail(a: string, b: string)
    requires |a| >= 2 && |b| >= 2
    ensures SpelledAlike(a, b) <==>
            && (a[0] == b[0] || CasesOfOneLetter(a[0], b[0])) && (a[1] == b[1] || CasesOfOneLetter(a[1], b[1]))
            && SpelledAlike(a[2..], b[2..])
  {
    hide CasesOfOneLetter;
    if SpelledAlike(a[2..], b[2..]) {
      assert forall i :: 2 <= i < |a| ==> a[i] == a[2..][i - 2];
      assert forall i :: 2 <= i < |b| ==> b[i] == b[2..][i - 2];
    }
  }

  // ------------------------------------------------------------------ hashing

  datatype Drain = Drain(status: Status, absorbed: Bytes, r: Reader, plan: Plan)

  /** Reading to the end, as `io.Copy` does, collecting what the hashers absorb. */
  function DrainRun(r: Reader, plan: Plan): Drain
    decreases |r.Left()|
  {
    ReadStepProgress(r, IO_COPY_CHUNK, plan);
    var rr := ReadStep(r, IO_COPY_CHUNK, plan);
    if rr.status != More then
      Drain(rr.status, rr.chunk, rr.r, rr.plan)
    else
      var d := DrainRun(rr.r, rr.plan);
      d.(absorbed := rr.chunk + d.absorbed)
  }

  function DigestsOf(h: Hashes, b: Bytes): Digests {
    Digests(h.sha256(b), h.md5(b))
  }

  // ------------------------------------------------------------- verification

  datatype Verdict = Matches | Differs | Unreadable

  datatype Verification = Verification(verdict: Verdict, net: Net)

  /** `Verify`: open the stored file, read it, compare the hash exactly. */
  function VerifyRun(h: Hashes, net: Net, expected: string): Verification {
    var open := Next(net.plan);
    var file := if open.Tamper? then Some(open.b) else net.file;
    var net' := Net(file, Rest(net.plan), net.calls + [DownloadCall]);
    if open.Fail? || file.None? then Verification(Unreadable, net')
    else
      var net'' := net'.(plan := Rest(net'.plan));
      if Next(net'.plan).Fail? then Verification(Unreadable, net'')
      else if h.sha256(file.value) == expected then Verification(Matches, net'')
      else Verification(Differs, net'')
  }

  datatype Checked = Checked(verified: Result<bool>, r: Reader, net: Net)

  /** `verifyAndRetransmit`. */
  function VerifyRetransmitRun(h: Hashes, r: Reader, net: Net, expected: string): Checked {
    if expected == "" then Checked(Ok(false), r, net)
    else
      var v := VerifyRun(h, net, expected);
      match v.verdict
      case Matches => Checked(Ok(true), r, v.net)
      case Unreadable => Checked(Err(DownloadFailed), r, v.net)
      case Differs =>
        if !r.seekable then Checked(Err(VerificationFailed), r, v.net)
        else RetransmitRun(h, r, v.net, expected)
  }

  /** The second half of `verifyAndRetransmit`: send everything again, check once more. */
  function RetransmitRun(h: Hashes, r: Reader, net: Net, expected: string): Checked {
    var a := UploadRun(r, net);
    if !a.ok then Checked(Err(RetransmitFailed), a.r, a.net)
    else
      var v := VerifyRun(h, a.net, expected);
      Checked(match v.verdict
              case Matches => Ok(true)
              case Unreadable => Err(DownloadFailed)
              case Differs => Err(VerificationFailed), a.r, v.net)
  }

  // ------------------------------------------------------------ the two modes

  datatype Run = Run(result: Result<UploadResult>, r: Reader, net: Net)

  /** The hash to verify against: the client's, or else the computed one. */
  function Expected(meta: Metadata, digests: Digests): string {
    if meta.expectedSha256 == "" then digests.sha256 else meta.expectedSha256
  }

  predicate Mismatched(meta: Metadata, digests: Digests) {
    meta.expectedSha256 != "" && !EqualFold(meta.expectedSha256, digests.sha256)
  }

  /** `Size()` of a reader: what was written to it, or what was read from a stream so far. */
  function SizeOf(r: Reader): nat {
    if r.kind.StreamKind? then r.pos else |r.data|
  }

  function UploadSize(r: Reader, meta: Metadata): nat {
    Max(SizeOf(r), meta.contentLength)
  }

  /** The end of both modes: optional verification, then the report. */
  function FinishRun(h: Hashes, r: Reader, net: Net, verification: bool, meta: Metadata, size: nat, d: Digests): Run {
    if !verification then Run(Ok(UploadResult(size, d, false)), r, net)
    else
      var c := VerifyRetransmitRun(h, r, net, Expected(meta, d));
      match c.verified
      case Err(e) => Run(Err(e), c.r, c.net)
      case Ok(verified) => Run(Ok(UploadResult(size, d, verified)), c.r, c.net)
  }

  /** `processBuffered` up to rotation. */
  function BufferedRun(h: Hashes, r: Reader, net: Net, verification: bool, meta: Metadata, rejectMismatch: bool,
                       maxRetries: nat): Run {
    var d := DrainRun(r.Rewound(), net.plan);
    if d.status != Eof then
      Run(Err(ReadFailed), d.r, net.(plan := d.plan))
    else
      var body := d.r.Rewound();
      var digests := DigestsOf(h, d.absorbed);
      if Mismatched(meta, digests) && rejectMismatch then
        Run(Err(VerificationFailed), body, net.(plan := d.plan))
      else SendBuffered(h, body, net.(plan := d.plan), verification, meta, digests, maxRetries)
  }

  /** What follows the hashing: the attempts, then the optional verification. */
  function SendBuffered(h: Hashes, body: Reader, net: Net, verification: bool, meta: Metadata, digests: Digests,
                        maxRetries: nat): Run {
    var size := UploadSize(body, meta);
    var a := RetryRun(body, net, size, 0, maxRetries);
    if !a.ok then Run(Err(UploadFailed), a.r, a.net)
    else FinishRun(h, a.r, a.net, verification, meta, size, digests)
  }

  /** What the hashing wrapper has absorbed after its reader moved from `r` to `r'`. */
  function Absorbed(r: Reader, r': Reader): Bytes {
    if r.pos <= r'.pos <= |r.data| then r.data[r.pos..r'.pos] else []
  }

  /** `processOff` up to rotation: the wrapper hides the body's `Seek` from the backend. */
  function OffRun(h: Hashes, r: Reader, net: Net, verification: bool, meta: Metadata): Run {
    var a := UploadRun(r.(seekable := false), net);
    var body := a.r.(seekable := r.seekable);
    if !a.ok then Run(Err(UploadFailed), body, a.net)
    else
      var absorbed := Absorbed(r, a.r);
      var digests := DigestsOf(h, absorbed);
      if Mismatched(meta, digests) then Run(Err(VerificationFailed), body, a.net)
      else FinishRun(h, body, a.net, verification, meta, |absorbed|, digests)
  }

  // ============================================================== the results

  lemma {:induction false} DrainAll(r: Reader, plan: Plan)
    ensures var d := DrainRun(r, plan);
            && (d.status == Eof ==> d.absorbed == r.Left() && d.r.Left() == [])
            && d.r == r.(pos := d.r.pos)
            && (r.pos <= |r.data| ==> d.r.pos <= |r.data|)
            && Faults(d.plan) + (if d.status == Eof then 0 else 1) <= Faults(plan)
            && Tampers(d.plan) <= Tampers(plan)
    decreases |r.Left()|
  {
    RestFaults(plan);
    ReadStepProgress(r, IO_COPY_CHUNK, plan);
    var rr := ReadStep(r, IO_COPY_CHUNK, plan);
    if rr.status == More {
      DrainAll(rr.r, rr.plan);
    }
  }

  /** A verdict of `Matches` is about the bytes stored at that moment, tampered with or not. */
  lemma VerifySound(h: Hashes, net: Net, expected: string)
    ensures var v := VerifyRun(h, net, expected);
            && (v.verdict == Matches ==> v.net.file.Some? && h.sha256(v.net.file.value) == expected)
            && (v.verdict == Unreadable ==> Faults(v.net.plan) < Faults(net.plan) || v.net.file.None?)
            && (Tampers(net.plan) == Tampers(v.net.plan) ==> v.net.file == net.file)
            && Faults(v.net.plan) <= Faults(net.plan) && Tampers(v.net.plan) <= Tampers(net.plan)
            && v.net.calls == net.calls + [DownloadCall]
  {
    RestFaults(net.plan);
    RestFaults(Rest(net.plan));
  }

  lemma VerifyUndisturbed(h: Hashes, net: Net, expected: string)
    requires Faults(net.plan) == 0 && net.file.Some?
    ensures var v := VerifyRun(h, net, expected);
            && v.net.file.Some?
            && v.verdict == (if h.sha256(v.net.file.value) == expected then Matches else Differs)
  {
    RestFaults(net.plan);
    RestFaults(Rest(net.plan));
  }

  // The backend calls a verification may make: one check, or a check, one
  // retransmission and possibly a second check.
  ghost predicate CheckCalls(calls: seq<Call>, retransmits: bool) {
    || calls == []
    || calls == [DownloadCall]
    || (retransmits && (calls == [DownloadCall, UploadCall] || calls == [DownloadCall, UploadCall, DownloadCall]))
  }

  lemma RetransmitSound(h: Hashes, r: Reader, net: Net, expected: string)
    requires r.seekable
    ensures var c := RetransmitRun(h, r, net, expected);
            && (c.verified.Ok? ==> c.verified.value && c.net.file.Some? && h.sha256(c.net.file.value) == expected)
            && (c.verified.Ok? && Tampers(net.plan) == 0 ==> c.net.file == Some(r.data))
            && (c.net.calls == net.calls + [UploadCall] || c.net.calls == net.calls + [UploadCall, DownloadCall])
            && c.r == r.(pos := c.r.pos)
            && Faults(c.net.plan) <= Faults(net.plan) && Tampers(c.net.plan) <= Tampers(net.plan)
  {
    UploadSafe(r, net);
    var a := UploadRun(r, net);
    VerifySound(h, a.net, expected);
    assert (net.calls + [UploadCall]) + [DownloadCall] == net.calls + [UploadCall, DownloadCall];
  }

  /**
   Verification reports true only for stored bytes with the expected hash, even
   when they were tampered with; it retransmits at most once, and never from a
   reader that cannot seek.
   */
  lemma VerifyRetransmitSound(h: Hashes, r: Reader, net: Net, expected: string)
    ensures var c := VerifyRetransmitRun(h, r, net, expected);
            && (c.verified == Ok(true) ==> c.net.file.Some? && h.sha256(c.net.file.value) == expected)
            && (c.verified.Ok? ==> c.verified.value == (expected != ""))
            && net.calls <= c.net.calls && CheckCalls(c.net.calls[|net.calls|..], r.seekable)
            && c.r == r.(pos := c.r.pos)
            && Faults(c.net.plan) <= Faults(net.plan)
            && Tampers(c.net.plan) <= Tampers(net.plan)
  {
    VerifySound(h, net, expected);
    var v := VerifyRun(h, net, expected);
    if expected != "" && v.verdict == Differs && r.seekable {
      RetransmitSound(h, r, v.net, expected);
    }
  }

  // What the first read-back finds: the stored bytes, if the file is there and both calls work.
  function ReadBack(net: Net): Option<Bytes> {
    var open, read := Next(net.plan), Next(Rest(net.plan));
    if open.Fail? || read.Fail? then None else if open.Tamper? then Some(open.b) else net.file
  }

  // The stored file after the opening of a read-back, which is when it may be tampered with.
  function Opened(net: Net): Option<Bytes> {
    if Next(net.plan).Tamper? then Some(Next(net.plan).b) else net.file
  }

  /**
   What verification does, case by case.  It retransmits exactly when the first
   read-back delivered the stored bytes, their hash differs, and the reader can
   seek.  A read-back that fails, in opening or in reading, or finds no file, is
   reported as such, with no further call and the file as it is.
   */
  lemma RetransmitsExactly(h: Hashes, r: Reader, net: Net, expected: string)
    ensures var c, back := VerifyRetransmitRun(h, r, net, expected), ReadBack(net);
            if expected == "" then c == Checked(Ok(false), r, net)
            else
              && net.calls + [DownloadCall] <= c.net.calls
              && (UploadCall in c.net.calls[|net.calls|..]
                  <==> back.Some? && h.sha256(back.value) != expected && r.seekable)
              && (UploadCall !in c.net.calls[|net.calls|..] ==>
                    && c.verified == (if back.None? then Err(DownloadFailed)
                                      else if h.sha256(back.value) == expected then Ok(true)
                                      else Err(VerificationFailed))
                    && c.net.calls == net.calls + [DownloadCall] && c.net.file == Opened(net) && c.r == r)
  {
    hide UploadRun;
    if ReadBack(net).Some? && r.seekable && expected != "" && h.sha256(ReadBack(net).value) != expected {
      RetransmittedExactly(h, r, net, expected);
    }
  }

  /** The retransmission: the whole upload again, then one more check, and no third try. */
  lemma RetransmittedExactly(h: Hashes, r: Reader, net: Net, expected: string)
    requires expected != "" && ReadBack(net).Some? && h.sha256(ReadBack(net).value) != expected && r.seekable
    ensures var c := VerifyRetransmitRun(h, r, net, expected);
            var a := UploadRun(r, Net(Opened(net), Rest(Rest(net.plan)), net.calls + [DownloadCall]));
            var back := ReadBack(a.net);
            && c.verified == (if !a.ok then Err(RetransmitFailed)
                              else if back.None? then Err(DownloadFailed)
                              else if h.sha256(back.value) == expected then Ok(true)
                              else Err(VerificationFailed))
            && c.net.calls == net.calls + (if a.ok then [DownloadCall, UploadCall, DownloadCall]
                                           else [DownloadCall, UploadCall])
            && c.net.file == (if a.ok then Opened(a.net) else a.net.file)
            && c.r == a.r
  {
    var net' := Net(Opened(net), Rest(Rest(net.plan)), net.calls + [DownloadCall]);
    UploadSafe(r, net');
    hide UploadRun;
    assert net.calls + [DownloadCall] + [UploadCall] == net.calls + [DownloadCall, UploadCall];
    assert net.calls + [DownloadCall, UploadCall] + [DownloadCall]
           == net.calls + [DownloadCall, UploadCall, DownloadCall];
  }

  /** With nobody tampering, verification leaves a correctly stored payload in place. */
  lemma VerifyRetransmitKeeps(h: Hashes, r: Reader, net: Net, expected: string)
    requires Tampers(net.plan) == 0
    requires net.file.Some? && (r.seekable ==> net.file == Some(r.data))
    ensures var c := VerifyRetransmitRun(h, r, net, expected);
            c.verified.Ok? ==> c.net.file == net.file
  {
    VerifySound(h, net, expected);
    var v := VerifyRun(h, net, expected);
    if expected != "" && v.verdict == Differs && r.seekable {
      RetransmitSound(h, r, v.net, expected);
    }
  }

  // What a successful report says about the payload and the verification.
  ghost predicate Reports(h: Hashes, result: UploadResult, payload: Bytes, verification: bool, meta: Metadata) {
    && result.digests.sha256 == h.sha256(payload) && result.digests.md5 == h.md5(payload)
    && result.verified == (verification && Expected(meta, result.digests) != "")
  }

  lemma FinishSound(h: Hashes, r: Reader, net: Net, verification: bool, meta: Metadata, size: nat, d: Digests)
    requires net.file.Some?
    ensures var run := FinishRun(h, r, net, verification, meta, size, d);
            run.result.Ok? ==>
              && run.result.value.size == size && run.result.value.digests == d
              && run.result.value.verified == (verification && Expected(meta, d) != "")
              && run.net.file.Some?
              && (run.result.value.verified ==> h.sha256(run.net.file.value) == Expected(meta, d))
              && (!verification ==> run.net.file == net.file)
              && (Tampers(net.plan) == 0 && (r.seekable ==> net.file == Some(r.data)) ==> run.net.file == net.file)
  {
    if verification {
      VerifyRetransmitSound(h, r, net, Expected(meta, d));
      if Tampers(net.plan) == 0 && (r.seekable ==> net.file == Some(r.data)) {
        VerifyRetransmitKeeps(h, r, net, Expected(meta, d));
      }
    }
  }

  /**
   The buffered modes, for every payload, reader kind that can seek, and plan:
   success means the report carries the payload's digests and, unless someone
   tampers after the upload, that the stored file is the payload; a verified
   report means the stored file has the expected hash in any case.
   */
  lemma BufferedStoresPayload(h: Hashes, r: Reader, net: Net, verification: bool, meta: Metadata, reject: bool,
                              maxRetries: nat)
    requires r.seekable && Partial(net.file, r.data)
    ensures var run := BufferedRun(h, r, net, verification, meta, reject, maxRetries);
            run.result.Ok? ==>
              && Reports(h, run.result.value, r.data, verification, meta)
              && run.net.file.Some?
              && (Tampers(net.plan) == 0 || !verification ==> run.net.file == Some(r.data))
              && (run.result.value.verified ==>
                    h.sha256(run.net.file.value) == Expected(meta, run.result.value.digests))
  {
    DrainAll(r.Rewound(), net.plan);
    var d := DrainRun(r.Rewound(), net.plan);
    if d.status == Eof {
      var body, net' := d.r.Rewound(), net.(plan := d.plan);
      var size, digests := UploadSize(body, meta), DigestsOf(h, d.absorbed);
      RetrySafe(body, net', size, 0, maxRetries);
      var a := RetryRun(body, net', size, 0, maxRetries);
      if a.ok {
        FinishSound(h, a.r, a.net, verification, meta, size, digests);
      }
    }
  }

  /**
   A verified report stands on the stored bytes alone: whatever file lay at the
   path before, and whatever went wrong on the way, their hash is the expected one.
   */
  lemma VerifiedWhateverWasThere(h: Hashes, r: Reader, net: Net, meta: Metadata, reject: bool, maxRetries: nat)
    ensures var run := BufferedRun(h, r, net, true, meta, reject, maxRetries);
            run.result.Ok? && run.result.value.verified ==>
              && run.net.file.Some?
              && h.sha256(run.net.file.value) == Expected(meta, run.result.value.digests)
  {
    hide DrainRun, RetryRun, UploadSize, Mismatched;
    var d := DrainRun(r.Rewound(), net.plan);
    if d.status == Eof {
      var body, net' := d.r.Rewound(), net.(plan := d.plan);
      var digests := DigestsOf(h, d.absorbed);
      var a := RetryRun(body, net', UploadSize(body, meta), 0, maxRetries);
      if a.ok {
        VerifyRetransmitSound(h, a.r, a.net, Expected(meta, digests));
      }
    }
  }

  /**
   An announced hash that does not spell the payload's is refused before the
   backend hears of the request; for hex strings, one that prints other bytes.
   */
  lemma MismatchMakesNoCall(h: Hashes, r: Reader, net: Net, verification: bool, meta: Metadata, maxRetries: nat)
    requires var announced, sha := meta.expectedSha256, h.sha256(Payload(r));
             && announced != ""
             && (|| !SpelledAlike(announced, sha)
                 || (IsHex(announced) && IsHex(sha) && HexBytes(announced) != HexBytes(sha)))
    ensures var run := BufferedRun(h, r, net, verification, meta, true, maxRetries);
            && run.net.file == net.file && run.net.calls == net.calls
            && run.result ==
               Err(if DrainRun(r.Rewound(), net.plan).status == Eof then VerificationFailed else ReadFailed)
            && (Faults(net.plan) == 0 ==> run.result == Err(VerificationFailed))
  {
    hide SpelledAlike, EqualFold, IsHex, HexBytes;
    var announced, sha := meta.expectedSha256, h.sha256(Payload(r));
    if IsHex(announced) && IsHex(sha) {
      SpelledAlikeHex(announced, sha);
    }
    EqualFoldExactly(announced, sha);
    DrainAll(r.Rewound(), net.plan);
  }

  /**
   On a day without faults or tampering a buffered upload succeeds exactly when
   the early check, if made, accepts the announced hash up to letter case and
   the verification, if made, finds it equal letter for letter.
   */
  lemma BufferedAccepts(h: Hashes, r: Reader, net: Net, verification: bool, meta: Metadata, reject: bool,
                        maxRetries: nat)
    requires r.seekable && Partial(net.file, r.data)
    requires Faults(net.plan) == 0 && Tampers(net.plan) == 0
    ensures var run := BufferedRun(h, r, net, verification, meta, reject, maxRetries);
            var sha := h.sha256(r.data);
            run.result.Ok? <==>
              && (reject ==> meta.expectedSha256 == "" || SpelledAlike(meta.expectedSha256, sha))
              && (verification ==> meta.expectedSha256 == "" || meta.expectedSha256 == sha)
    ensures var run := BufferedRun(h, r, net, verification, meta, reject, maxRetries);
            var sha := h.sha256(r.data);
            reject && !verification && meta.expectedSha256 != "" && IsHex(meta.expectedSha256) && IsHex(sha) ==>
              (run.result.Ok? <==> HexBytes(meta.expectedSha256) == HexBytes(sha))
  {
    hide SpelledAlike, EqualFold, IsHex, HexBytes, BufferedRun;
    AcceptsUpToCase(h, r, net, verification, meta, reject, maxRetries);
    EqualFoldExactly(meta.expectedSha256, h.sha256(r.data));
    if IsHex(meta.expectedSha256) && IsHex(h.sha256(r.data)) {
      SpelledAlikeHex(meta.expectedSha256, h.sha256(r.data));
    }
  }

  lemma AcceptsUpToCase(h: Hashes, r: Reader, net: Net, verification: bool, meta: Metadata, reject: bool,
                        maxRetries: nat)
    requires r.seekable && Partial(net.file, r.data)
    requires Faults(net.plan) == 0 && Tampers(net.plan) == 0
    ensures var run := BufferedRun(h, r, net, verification, meta, reject, maxRetries);
            var sha := h.sha256(r.data);
            run.result.Ok? <==>
              && (reject ==> meta.expectedSha256 == "" || EqualFold(meta.expectedSha256, sha))
              && (verification ==> meta.expectedSha256 == "" || meta.expectedSha256 == sha)
  {
    hide EqualFold;
    DrainAll(r.Rewound(), net.plan);
    var d := DrainRun(r.Rewound(), net.plan);
    var body, net' := d.r.Rewound(), net.(plan := d.plan);
    var size, digests := UploadSize(body, meta), DigestsOf(h, d.absorbed);
    RetrySafe(body, net', size, 0, maxRetries);
    var a := RetryRun(body, net', size, 0, maxRetries);
    if verification && !(Mismatched(meta, digests) && reject) {
      VerifyUndisturbed(h, a.net, Expected(meta, digests));
      VerifySound(h, a.net, Expected(meta, digests));
      VerifyRetransmitSound(h, a.r, a.net, Expected(meta, digests));
      VerifyRetransmitKeeps(h, a.r, a.net, Expected(meta, digests));
    }
  }

  /** OFF mode stores and reports what the body still had to deliver; a body that could seek must start at 0. */
  lemma OffStoresPayload(h: Hashes, r: Reader, net: Net, verification: bool, meta: Metadata)
    requires r.pos <= |r.data| && (r.seekable ==> r.pos == 0)
    ensures var run := OffRun(h, r, net, verification, meta);
            run.result.Ok? ==>
              && Reports(h, run.result.value, r.data[r.pos..], verification, meta)
              && run.result.value.size == |r.data| - r.pos
              && run.net.file.Some?
              && (Tampers(net.plan) == 0 || !verification ==> run.net.file == Some(r.data[r.pos..]))
              && (run.result.value.verified ==>
                    h.sha256(run.net.file.value) == Expected(meta, run.result.value.digests))
  {
    var hidden := r.(seekable := false);
    SendSafe(hidden, net.(calls := net.calls + [UploadCall]), 0, true, hidden.Left());
    var a := UploadRun(hidden, net);
    if a.ok {
      var absorbed := Absorbed(r, a.r);
      assert absorbed == r.data[r.pos..];
      FinishSound(h, a.r.(seekable := r.seekable), a.net, verification, meta, |absorbed|, DigestsOf(h, absorbed));
    }
  }

  /**
   OFF mode without faults or tampering: the payload is stored in any case, and
   the request succeeds exactly when the announced hash, if there is one, spells
   the payload's, letter for letter if verification is on.
   */
  lemma OffAccepts(h: Hashes, r: Reader, net: Net, verification: bool, meta: Metadata)
    requires r.pos == 0 && Faults(net.plan) == 0 && Tampers(net.plan) == 0
    ensures var run := OffRun(h, r, net, verification, meta);
            var announced, sha := meta.expectedSha256, h.sha256(r.data);
            && run.net.file == Some(r.data)
            && (run.result.Ok? <==>
                  announced == "" || (SpelledAlike(announced, sha) && (verification ==> announced == sha)))
            && (announced != "" && !SpelledAlike(announced, sha) ==> run.result == Err(VerificationFailed))
  {
    hide SpelledAlike, EqualFold;
    EqualFoldExactly(meta.expectedSha256, h.sha256(r.data));
    assert r.data[0..] == r.data;
    var hidden := r.(seekable := false);
    SendSafe(hidden, net.(calls := net.calls + [UploadCall]), 0, true, r.data);
    var a := UploadRun(hidden, net);
    var absorbed, body := Absorbed(r, a.r), a.r.(seekable := r.seekable);
    assert absorbed == r.data;
    var digests := DigestsOf(h, absorbed);
    if verification && !Mismatched(meta, digests) {
      CheckUndisturbed(h, body, a.net, Expected(meta, digests));
    }
  }

  // On a day without faults or tampering the check stands or falls with the stored bytes.
  lemma CheckUndisturbed(h: Hashes, r: Reader, net: Net, expected: string)
    requires net.file == Some(r.data) && Faults(net.plan) == 0 && Tampers(net.plan) == 0
    ensures var c := VerifyRetransmitRun(h, r, net, expected);
            && (c.verified.Ok? <==> expected == "" || h.sha256(r.data) == expected)
            && c.net.file == Some(r.data)
  {
    VerifyUndisturbed(h, net, expected);
    VerifySound(h, net, expected);
    VerifyRetransmitSound(h, r, net, expected);
    var v := VerifyRun(h, net, expected);
    if expected != "" && v.verdict == Differs && r.seekable {
      UploadSafe(r, v.net);
      var a := UploadRun(r, v.net);
      VerifyUndisturbed(h, a.net, expected);
      VerifySound(h, a.net, expected);
    }
  }

  /**
   One silent corruption heals: with verification against the payload's own hash,
   announced or computed, a plan without faults that tampers at most once still
   ends in success, with stored bytes that carry that hash.
   */
  lemma OneCorruptionHeals(h: Hashes, r: Reader, net: Net, meta: Metadata, reject: bool, maxRetries: nat)
    requires r.seekable && Partial(net.file, r.data)
    requires Faults(net.plan) == 0 && Tampers(net.plan) <= 1
    requires Expected(meta, DigestsOf(h, r.data)) == h.sha256(r.data) != ""
    ensures var run := BufferedRun(h, r, net, true, meta, reject, maxRetries);
            && run.result.Ok? && run.result.value.verified
            && run.net.file.Some? && h.sha256(run.net.file.value) == h.sha256(r.data)
  {
    DrainAll(r.Rewound(), net.plan);
    var d := DrainRun(r.Rewound(), net.plan);
    var body, net' := d.r.Rewound(), net.(plan := d.plan);
    var size := UploadSize(body, meta);
    RetrySafe(body, net', size, 0, maxRetries);
    var a := RetryRun(body, net', size, 0, maxRetries);
    CorruptionHealsOnce(h, a.r, a.net);
    FinishSound(h, a.r, a.net, true, meta, size, DigestsOf(h, d.absorbed));
  }

  lemma CorruptionHealsOnce(h: Hashes, r: Reader, net: Net)
    requires r.seekable && net.file == Some(r.data)
    requires Faults(net.plan) == 0 && Tampers(net.plan) <= 1
    ensures VerifyRetransmitRun(h, r, net, h.sha256(r.data)).verified.Ok?
  {
    var expected := h.sha256(r.data);
    VerifyUndisturbed(h, net, expected);
    VerifySound(h, net, expected);
    var v := VerifyRun(h, net, expected);
    if v.verdict == Differs {
      UploadSafe(r, v.net);
      var a := UploadRun(r, v.net);
      VerifyUndisturbed(h, a.net, expected);
      VerifySound(h, a.net, expected);
    }
  }

  /**
   Hashing drains a reader that cannot be rewound, so a buffered upload of one
   stores the empty file: the buffered modes keep the payload exactly for
   readers that can seek, or that have nothing to deliver.
   */
  lemma BufferedNeedsSeek(h: Hashes, r: Reader, reject: bool, maxRetries: nat)
    ensures (forall plan: Plan :: NetAfter(h, r, plan, reject, maxRetries).result.Ok? ==>
               NetAfter(h, r, plan, reject, maxRetries).net.file == Some(Payload(r)))
            <==> r.seekable || r.Left() == []
  {
    if r.seekable {
      forall plan: Plan {
        BufferedStoresPayload(h, r, Net(None, plan, []), false, Metadata(-1, ""), reject, maxRetries);
      }
    } else {
      forall plan: Plan
        ensures var run := NetAfter(h, r, plan, reject, maxRetries); run.result.Ok? ==> run.net.file == Some([])
      {
        DrainAll(r, plan);
        var d := DrainRun(r, plan);
        if d.status == Eof {
          RetryDrained(d.r, Net(None, d.plan, []), UploadSize(d.r, Metadata(-1, "")), 0, maxRetries);
        }
      }
      DrainAll(r, []);
      var d := DrainRun(r, []);
      UploadSafe(d.r, Net(None, d.plan, []));
      assert NetAfter(h, r, [], reject, maxRetries).result.Ok?;
    }
  }

  // A buffered run without verification or announced hash, onto a missing file.
  function NetAfter(h: Hashes, r: Reader, plan: Plan, reject: bool, maxRetries: nat): Run {
    BufferedRun(h, r, Net(None, plan, []), false, Metadata(-1, ""), reject, maxRetries)
  }

  lemma AttemptDrained(r: Reader, net: Net, size: nat, attempt: nat)
    requires !r.seekable && r.Left() == [] && Partial(net.file, [])
    ensures var a := AttemptRun(r, net, size, attempt);
            && a.r.Left() == [] && !a.r.seekable && Partial(a.net.file, [])
            && (a.ok ==> a.net.file == Some([]))
  {
    if attempt == 0 {
      UploadSafe(r, net);
      DrainedStays(r, UploadRun(r, net).r);
    } else {
      var q := SizeRun(net);
      var offset := ResumeOffset(q.size, size);
      SendSafe(r, q.net.(calls := q.net.calls + [ResumeCall(offset)]), offset, false, []);
      DrainedStays(r, ResumeRun(r, q.net, offset).r);
    }
  }

  lemma {:induction false} RetryDrained(r: Reader, net: Net, size: nat, attempt: nat, maxRetries: nat)
    requires !r.seekable && r.Left() == [] && attempt <= maxRetries
    requires Partial(net.file, [])
    ensures var a := RetryRun(r, net, size, attempt, maxRetries);
            a.ok ==> a.net.file == Some([])
    decreases maxRetries - attempt
  {
    AttemptDrained(r, net, size, attempt);
    var a := AttemptRun(r, net, size, attempt);
    if !a.ok && attempt < maxRetries {
      RetryDrained(a.r, a.net, size, attempt + 1, maxRetries);
    }
  }

  lemma DrainedStays(r: Reader, r': Reader)
    requires r.Left() == [] && r' == r.(pos := r'.pos) && r.pos <= r'.pos
    ensures r'.Left() == []
  {
  }

  /** The reported size is the payload length, or the announced length if that is larger. */
  lemma ReportedSize(h: Hashes, r: Reader, net: Net, verification: bool, meta: Metadata, reject: bool, maxRetries: nat)
    requires r.seekable && Partial(net.file, r.data) && !r.kind.StreamKind?
    ensures var run := BufferedRun(h, r, net, verification, meta, reject, maxRetries);
            run.result.Ok? ==>
              run.result.value.size == if meta.contentLength > |r.data| then meta.contentLength else |r.data|
  {
    DrainAll(r.Rewound(), net.plan);
    var d := DrainRun(r.Rewound(), net.plan);
    var body, net' := d.r.Rewound(), net.(plan := d.plan);
    var size := UploadSize(body, meta);
    RetrySafe(body, net', size, 0, maxRetries);
    var a := RetryRun(body, net', size, 0, maxRetries);
    if d.status == Eof && a.ok {
      FinishSound(h, a.r, a.net, verification, meta, size, DigestsOf(h, d.absorbed));
    }
  }
}
