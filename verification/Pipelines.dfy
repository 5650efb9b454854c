/** The upload pipeline: hash, upload with retries, verify and retransmit, rotate. */
module Pipelines {
  import opened Base
  import opened Transfer
  import opened PipelineSpec
  import opened Outside
  import opened UploadReaders
  import Storage
  import Paths = StoragePaths
  import KeyResolution
  import Timestamps
  import opened Rotation

  datatype BufferMode = FullyImmediately | FullyComplete | Off

  /** A key's policy; `rotation` is `None` when its `max_age` does not parse. */
  datatype KeyConfig = KeyConfig(mode: BufferMode, verification: bool, rotation: Option<Policy>)

  /** Where an upload of `key` at time `t` goes: see `StoragePaths.RotationSeesUpload`. */
  function PathOf(key: string, t: Timestamps.Stamp): Path {
    Path(Paths.RotationDir(key), Timestamps.StoredName(t, Paths.Base(Paths.CleanKey(key))))
  }

  /** `Verify`. */
  method Verify(h: Hashes, w: World, path: Path, expected: string) returns (verdict: Verdict)
    modifies w`files, w`plan, w`calls
    ensures VerifyRun(h, old(w.At(path)), expected) == Verification(verdict, w.At(path))
    ensures w.Others(path) == old(w.Others(path))
  {
    var content := Storage.Download(w, path);
    if content.None? {
      return Unreadable;
    }
    var read := w.Answer();
    if read.Fail? {
      return Unreadable;
    }
    return if h.sha256(content.value) == expected then Matches else Differs;
  }

  class Pipeline {
    const h: Hashes
    const maxRetries: nat

    constructor (h: Hashes)
      ensures this.h == h && maxRetries == 1
    {
      this.h, maxRetries := h, 1;
    }

    /** `hashUploadReader`: rewind, read everything through both hashers, rewind again. */
    method HashUploadReader(w: World, body: Body) returns (digests: Option<Digests>)
      requires body.Valid()
      modifies w`plan, body.Cursor()
      ensures body.Valid()
      ensures var d := DrainRun(old(body.View()).Rewound(), old(w.plan));
              && w.plan == d.plan
              && digests == (if d.status == Eof then Some(DigestsOf(h, d.absorbed)) else None)
              && body.View() == if d.status == Eof then d.r.Rewound() else d.r
    {
      hide ReadStep;
      body.Separate(w);
      if body.Seekable() {
        body.SeekStart(0);
      }
      ghost var r0 := body.View();
      ghost var plan0 := w.plan;
      var sha: Bytes, md5: Bytes := [], [];
      var buf := new byte[IO_COPY_CHUNK];
      body.Separate(buf);
      ghost var all := DrainRun(r0, plan0);
      assert [] + all.absorbed == all.absorbed;
      var status := More;
      while status == More
        invariant body.Valid() && fresh(buf) && buf.Length == IO_COPY_CHUNK
        invariant sha == md5
        invariant status == More ==> Prefixed(sha, DrainRun(body.View(), w.plan)) == all
        invariant status != More ==> all == Drain(status, sha, body.View(), w.plan)
        decreases status == More, |body.View().Left()|
      {
        ghost var rest := DrainRun(body.View(), w.plan);
        ghost var before := sha;
        ReadStepProgress(body.View(), IO_COPY_CHUNK, w.plan);
        var n;
        n, status := body.Read(w, buf);
        sha, md5 := sha + buf[..n], md5 + buf[..n];
        PrefixedTwice(before, buf[..n], DrainRun(body.View(), w.plan));
      }
      if status != Eof {
        return None;
      }
      if body.Seekable() {
        body.SeekStart(0);
      }
      return Some(Digests(h.sha256(sha), h.md5(md5)));
    }

    /** One attempt of `uploadWithRetry`. */
    method UploadAttempt(w: World, path: Path, body: Body, size: nat, attempt: nat) returns (ok: bool)
      requires body.Valid()
      modifies w`files, w`plan, w`calls, body.Cursor()
      ensures body.Valid()
      ensures var a := AttemptRun(old(body.View()), old(w.At(path)), size, attempt);
              && ok == a.ok && body.View() == a.r && w.At(path) == a.net && w.Others(path) == old(w.Others(path))
    {
      hide UploadRun, ResumeRun, SizeRun, body.Valid, body.View;
      body.Separate(w);
      if attempt == 0 {
        ok := Storage.Upload(w, path, Plain(body));
        return;
      }
      var queried := Storage.RemoteSize(w, path);
      var offset := if queried.None? || queried.value > size then 0 else queried.value;
      ok := Storage.ResumeUpload(w, path, Plain(body), offset);
    }

    /** `uploadWithRetry`. */
    method UploadWithRetry(w: World, path: Path, body: Body, size: nat) returns (ok: bool)
      requires body.Valid()
      modifies w`files, w`plan, w`calls, body.Cursor()
      ensures body.Valid()
      ensures var a := RetryRun(old(body.View()), old(w.At(path)), size, 0, maxRetries);
              && ok == a.ok && body.View() == a.r && w.At(path) == a.net && w.Others(path) == old(w.Others(path))
    {
      hide AttemptRun, body.Valid, body.View;
      body.Separate(w);
      ok := false;
      ghost var all := RetryRun(body.View(), w.At(path), size, 0, maxRetries);
      for attempt := 0 to maxRetries + 1
        invariant body.Valid() && w.Others(path) == old(w.Others(path))
        invariant attempt <= maxRetries ==> all == RetryRun(body.View(), w.At(path), size, attempt, maxRetries)
        invariant attempt > maxRetries ==> all == Attempt(false, body.View(), w.At(path))
      {
        ok := UploadAttempt(w, path, body, size, attempt);
        if ok {
          return true;
        }
      }
    }

    /** `verifyAndRetransmit`: one check, one retransmission if it fails, one more check. */
    method VerifyAndRetransmit(w: World, path: Path, expected: string, body: Body) returns (verified: Result<bool>)
      requires body.Valid()
      modifies w`files, w`plan, w`calls, body.Cursor()
      ensures body.Valid()
      ensures VerifyRetransmitRun(h, old(body.View()), old(w.At(path)), expected)
              == Checked(verified, body.View(), w.At(path))
      ensures w.Others(path) == old(w.Others(path))
    {
      hide UploadRun, VerifyRun, body.Valid;
      body.Separate(w);
      if expected == "" {
        return Ok(false);
      }
      var verdict := Verify(h, w, path, expected);
      if verdict == Matches {
        return Ok(true);
      }
      if verdict == Unreadable {
        return Err(DownloadFailed);
      }
      if !body.Seekable() {
        return Err(VerificationFailed);
      }
      var sent := Storage.Upload(w, path, Plain(body));
      if !sent {
        return Err(RetransmitFailed);
      }
      verdict := Verify(h, w, path, expected);
      return match verdict
        case Matches => Ok(true)
        case Unreadable => Err(DownloadFailed)
        case Differs => Err(VerificationFailed);
    }

    /** `processBuffered` before rotation. */
    method StoreBuffered(w: World, path: Path, body: Body, verification: bool, meta: Metadata, rejectMismatch: bool)
      returns (res: Result<UploadResult>)
      requires body.Valid()
      modifies w`files, w`plan, w`calls, body.Cursor()
      ensures body.Valid()
      ensures BufferedRun(h, old(body.View()), old(w.At(path)), verification, meta, rejectMismatch, maxRetries)
              == Run(res, body.View(), w.At(path))
      ensures w.Others(path) == old(w.Others(path))
    {
      hide DrainRun, SendBuffered, EqualFold, body.Valid, body.View;
      body.Separate(w);
      var digests := HashUploadReader(w, body);
      if digests.None? {
        return Err(ReadFailed);
      }
      if meta.expectedSha256 != "" && !EqualFold(meta.expectedSha256, digests.value.sha256) && rejectMismatch {
        return Err(VerificationFailed);
      }
      res := SendAndVerify(w, path, body, verification, meta, digests.value);
    }

    /** The rest of `processBuffered` before rotation. */
    method SendAndVerify(w: World, path: Path, body: Body, verification: bool, meta: Metadata, digests: Digests)
      returns (res: Result<UploadResult>)
      requires body.Valid()
      modifies w`files, w`plan, w`calls, body.Cursor()
      ensures body.Valid()
      ensures SendBuffered(h, old(body.View()), old(w.At(path)), verification, meta, digests, maxRetries)
              == Run(res, body.View(), w.At(path))
      ensures w.Others(path) == old(w.Others(path))
    {
      hide RetryRun, FinishRun, SizeOf, body.Valid, body.View;
      body.Separate(w);
      var size := body.Size();
      if meta.contentLength >= 0 && meta.contentLength > size {
        size := meta.contentLength;
      }
      var sent := UploadWithRetry(w, path, body, size);
      if !sent {
        return Err(UploadFailed);
      }
      res := VerifyIfAsked(w, path, body, verification, meta, size, digests);
    }

    /** The optional verification both modes end with. */
    method VerifyIfAsked(w: World, path: Path, body: Body, verification: bool, meta: Metadata, size: nat, d: Digests)
      returns (res: Result<UploadResult>)
      requires body.Valid()
      modifies w`files, w`plan, w`calls, body.Cursor()
      ensures body.Valid()
      ensures FinishRun(h, old(body.View()), old(w.At(path)), verification, meta, size, d)
              == Run(res, body.View(), w.At(path))
      ensures w.Others(path) == old(w.Others(path))
    {
      hide VerifyRetransmitRun;
      var verified := false;
      if verification {
        var expected := if meta.expectedSha256 == "" then d.sha256 else meta.expectedSha256;
        var checked := VerifyAndRetransmit(w, path, expected, body);
        if checked.Err? {
          return Err(checked.error);
        }
        verified := checked.value;
      }
      return Ok(UploadResult(size, d, verified));
    }

    /** `processOff` before rotation: the backend reads through a hashing wrapper, in one attempt. */
    method StoreStreamed(w: World, path: Path, body: Body, verification: bool, meta: Metadata)
      returns (res: Result<UploadResult>)
      requires body.Valid()
      modifies w`files, w`plan, w`calls, body.Cursor()
      ensures body.Valid()
      ensures OffRun(h, old(body.View()), old(w.At(path)), verification, meta) == Run(res, body.View(), w.At(path))
      ensures w.Others(path) == old(w.Others(path))
    {
      hide UploadRun, VerifyRetransmitRun, FinishRun, EqualFold, body.Valid;
      var hashing := new HashingReader(body);
      UploadSafe(Hashing(hashing).View(), w.At(path));
      var sent := Storage.Upload(w, path, Hashing(hashing));
      if !sent {
        return Err(UploadFailed);
      }
      var sha := h.sha256(hashing.absorbed);
      if meta.expectedSha256 != "" && !EqualFold(meta.expectedSha256, sha) {
        return Err(VerificationFailed);
      }
      res := VerifyIfAsked(w, path, body, verification, meta, hashing.size, Digests(sha, h.md5(hashing.absorbed)));
    }

    /** `applyRotation`. */
    method ApplyRotation(w: World, dir: string, rotation: Option<Policy>, now: int)
      returns (ok: bool, ghost order: seq<string>, ghost deleted: nat)
      modifies w`files, w`plan
      ensures rotation.None? ==> !ok && w.Now() == old(w.Now())
      ensures rotation.Some? ==>
                Applied(old(w.files), old(w.plan), w.files, ok, dir, rotation.value, now, order, deleted)
    {
      if rotation.None? {
        return false, [], 0;
      }
      ok, order, deleted := Apply(w, dir, rotation.value, now);
    }

    /**
     What `Process` does under the configuration of the key: store at the path of
     the upload time, then rotate.
     */
    method StoreAndRotate(w: World, body: Body, req: Request) returns (res: Result<UploadResult>, ghost trace: Trace)
      requires body.Valid()
      modifies w`files, w`plan, w`calls, body.Cursor()
      ensures body.Valid()
      ensures Handled(h, maxRetries, old(body.View()), req, old(w.Now()), w.Now(), res, trace)
    {
      hide BufferedRun, OffRun, Applied, body.Valid, body.View;
      var path, cfg, meta := req.path, req.cfg, req.meta;
      match cfg.mode {
        case FullyImmediately => res := StoreBuffered(w, path, body, cfg.verification, meta, false);
        case FullyComplete => res := StoreBuffered(w, path, body, cfg.verification, meta, true);
        case Off => res := StoreStreamed(w, path, body, cfg.verification, meta);
      }
      trace := Trace(w.Now(), [], 0);
      if res.Err? {
        return;
      }
      body.Separate(w);
      var ok;
      ghost var order, deleted;
      ok, order, deleted := ApplyRotation(w, path.dir, cfg.rotation, req.now);
      trace := trace.(order := order, deleted := deleted);
      if !ok {
        res := Err(RotationFailed);
      }
    }

    /** `Process`: the configuration is that of the key's longest configured prefix. */
    method Process(w: World, configs: map<string, KeyConfig>, key: string, body: Body, meta: Metadata,
                   t: Timestamps.Stamp, now: int)
      returns (res: Result<UploadResult>, ghost choice: Option<string>, ghost trace: Trace)
      requires body.Valid()
      modifies w`files, w`plan, w`calls, body.Cursor()
      ensures body.Valid() && KeyResolution.Chosen(configs.Keys, key, choice)
      ensures choice.None? ==> res == Err(UnknownKey) && w.Now() == old(w.Now())
      ensures choice.Some? ==>
                && choice.value in configs
                && Handled(h, maxRetries, old(body.View()), Request(PathOf(key, t), configs[choice.value], meta, now),
                           old(w.Now()), w.Now(), res, trace)
    {
      var chosen := KeyResolution.ResolveKeyConfig(configs, key);
      choice, trace := chosen, Trace(w.Now(), [], 0);
      if chosen.None? {
        res := Err(UnknownKey);
        return;
      }
      hide Handled, PathOf, body.Valid, body.View;
      res, trace := StoreAndRotate(w, body, Request(PathOf(key, t), configs[chosen.value], meta, now));
    }
  }

  /** One upload, once its key is resolved and its storage path chosen. */
  datatype Request = Request(path: Path, cfg: KeyConfig, meta: Metadata, now: int)

  /** What happened on the way: the server between transfer and rotation, and what rotation sorted and deleted. */
  datatype Trace = Trace(mid: Server, order: seq<string>, deleted: nat)

  // One request, from the server before it to the server after it: the transfer
  // happens to the one file at its path; rotation follows a successful transfer
  // and decides whether the success is reported.
  ghost predicate Handled(h: Hashes, maxRetries: nat, r: Reader, req: Request, before: Server, after: Server,
                          res: Result<UploadResult>, trace: Trace) {
    var path, mid, rotation := req.path, trace.mid, req.cfg.rotation;
    var run := StoreRun(h, r, before.At(path), req.cfg, req.meta, maxRetries);
    && mid.files - {path} == before.files - {path}
    && run.net == mid.At(path) && after.calls == mid.calls
    && (run.result.Err? ==> res == run.result && after == mid)
    && (run.result.Ok? && rotation.None? ==> res == Err(RotationFailed) && after == mid)
    && (run.result.Ok? && rotation.Some? ==>
          && (res == run.result || res == Err(RotationFailed))
          && Applied(mid.files, mid.plan, after.files, res.Ok?, path.dir, rotation.value, req.now,
                     trace.order, trace.deleted))
  }

  /** What each buffer mode does before rotation. */
  function StoreRun(h: Hashes, r: Reader, net: Net, cfg: KeyConfig, meta: Metadata, maxRetries: nat): Run {
    match cfg.mode
    case FullyImmediately => BufferedRun(h, r, net, cfg.verification, meta, false, maxRetries)
    case FullyComplete => BufferedRun(h, r, net, cfg.verification, meta, true, maxRetries)
    case Off => OffRun(h, r, net, cfg.verification, meta)
  }

  function Prefixed(got: Bytes, d: Drain): Drain {
    d.(absorbed := got + d.absorbed)
  }

  lemma PrefixedTwice(a: Bytes, b: Bytes, d: Drain)
    ensures Prefixed(a, Prefixed(b, d)) == Prefixed(a + b, d)
  {
  }

  // The bytes a mode is asked to store, and what it needs of the reader and of the starting file to do so.
  ghost predicate Storable(r: Reader, file: Option<Bytes>, mode: BufferMode) {
    if mode.Off? then r.pos == 0 else r.seekable && Partial(file, r.data)
  }

  /**
   The modes and an announced hash that does not match: FULLY_COMPLETE refuses
   before any backend call, OFF refuses after storing, and FULLY_IMMEDIATELY
   accepts it when verification is off.
   */
  lemma MismatchByMode(h: Hashes, r: Reader, net: Net, cfg: KeyConfig, meta: Metadata, maxRetries: nat)
    requires r.seekable && r.pos == 0 && Partial(net.file, r.data)
    requires Faults(net.plan) == 0 && Tampers(net.plan) == 0 && !cfg.verification
    requires var announced, sha := meta.expectedSha256, h.sha256(r.data);
             && announced != ""
             && (|| !SpelledAlike(announced, sha)
                 || (IsHex(announced) && IsHex(sha) && HexBytes(announced) != HexBytes(sha)))
    ensures var run := StoreRun(h, r, net, cfg, meta, maxRetries);
            match cfg.mode
            case FullyComplete =>
              run.result == Err(VerificationFailed) && run.net.file == net.file && run.net.calls == net.calls
            case Off => run.result == Err(VerificationFailed) && run.net.file == Some(r.data)
            case FullyImmediately => run.result.Ok? && run.net.file == Some(r.data)
  {
    hide BufferedRun, OffRun, EqualFold, SpelledAlike, IsHex, HexBytes;
    if IsHex(meta.expectedSha256) && IsHex(h.sha256(r.data)) {
      SpelledAlikeHex(meta.expectedSha256, h.sha256(r.data));
    }
    match cfg.mode
    case FullyComplete => MismatchMakesNoCall(h, r, net, false, meta, maxRetries);
    case FullyImmediately =>
      BufferedAccepts(h, r, net, false, meta, false, maxRetries);
      BufferedStoresPayload(h, r, net, false, meta, false, maxRetries);
    case Off => OffAccepts(h, r, net, false, meta);
  }

  lemma StoreRunStores(h: Hashes, r: Reader, net: Net, cfg: KeyConfig, meta: Metadata, maxRetries: nat)
    requires Storable(r, net.file, cfg.mode) && Tampers(net.plan) == 0
    ensures var run := StoreRun(h, r, net, cfg, meta, maxRetries);
            run.result.Ok? ==>
              run.net.file == Some(r.data) && run.result.value.digests == Digests(h.sha256(r.data), h.md5(r.data))
  {
    hide BufferedRun, OffRun;
    assert r.data[0..] == r.data;
    match cfg.mode
    case FullyImmediately =>
      BufferedStoresPayload(h, r, net, cfg.verification, meta, false, maxRetries);
    case FullyComplete =>
      BufferedStoresPayload(h, r, net, cfg.verification, meta, true, maxRetries);
    case Off =>
      OffStoresPayload(h, r, net, cfg.verification, meta);
  }

  /**
   The whole promise, over one run of `Process`: if it reports success while
   nobody tampers with the server, and the policy has room for a file as new as
   this one, then after rotation the payload lies at the storage path, under a
   name that reads back as the time of the upload, and the report carries the
   payload's digests.
   */
  lemma BackupIsStoredAndKept(h: Hashes, maxRetries: nat, r: Reader, key: string, t: Timestamps.Stamp, req: Request,
                              before: Server, after: Server, res: Result<UploadResult>, trace: Trace)
    requires Handled(h, maxRetries, r, req, before, after, res, trace) && res.Ok?
    requires req.path == PathOf(key, t) && Timestamps.Valid(t) && t.nanos == 0
    requires Storable(r, before.At(req.path).file, req.cfg.mode) && Tampers(before.plan) == 0
    requires Safe(trace.mid.files, req.path.dir, req.cfg.rotation.value, req.now, req.path.name)
    ensures && req.path in after.files && after.files[req.path] == r.data
            && Timestamps.ParseTimestamp(req.path.name) == Some(Timestamps.Instant(t))
            && res.value.digests == Digests(h.sha256(r.data), h.md5(r.data))
  {
    hide Applied, Safe, StoreRun, Timestamps.ParseTimestamp, Timestamps.StoredName, Paths.RotationDir, Storable;
    var path, mid := req.path, trace.mid;
    Timestamps.NameRoundTrip(t, Paths.Base(Paths.CleanKey(key)));
    StoreRunStores(h, r, before.At(path), req.cfg, req.meta, maxRetries);
    SafeFileStays(mid.files, mid.plan, after.files, true, path.dir, req.cfg.rotation.value, req.now,
                  trace.order, trace.deleted, path.name);
  }
}
