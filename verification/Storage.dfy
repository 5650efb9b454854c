/** The SFTP backend's uploads, as effects on one remote file. */
module Storage {
  import opened Base
  import opened Transfer
  import opened Outside
  import opened UploadReaders

  /** Writes one chunk at `at`; a failing write leaves the part of it that arrived. */
  method WriteChunk(w: World, path: Path, at: nat, chunk: Bytes) returns (ok: bool)
    requires path in w.files && chunk != []
    modifies w`files, w`plan
    ensures var res := WriteStep(old(w.files[path]), at, chunk, old(w.plan));
            && ok == res.ok && w.plan == res.plan && w.files == old(w.files)[path := res.file]
  {
    var move := w.Answer();
    if move.Fail? {
      w.files := w.files[path := WriteAt(w.files[path], at, chunk[..Min(move.n, |chunk|)])];
      return false;
    }
    w.files := w.files[path := WriteAt(w.files[path], at, chunk)];
    return true;
  }

  lemma WriteNothing(file: Bytes, at: nat, plan: Plan)
    ensures WriteStep(file, at, [], plan) == Write(true, file, plan)
  {
  }

  // `CopyTurn`, spelled out.
  lemma TurnIs(s: Copying)
    ensures Next(s.plan).Fail? ==> CopyTurn(s) == Turn(true, false, s.(plan := Rest(s.plan)))
    ensures !Next(s.plan).Fail? ==>
              var rr := ReadStep(s.r, COPY_CHUNK, Rest(s.plan));
              var wr := WriteStep(s.file, s.at, rr.chunk, rr.plan);
              CopyTurn(s) == Turn(!wr.ok || rr.status != More, wr.ok && rr.status == Eof,
                                  Copying(rr.r, wr.file, s.at + |rr.chunk|, wr.plan))
  {
  }

  ghost function CopyingOf(w: World, path: Path, at: nat, r: UploadReader): Copying
    requires r.Valid() && path in w.files
    reads w, r.Footprint()
  {
    Copying(r.View(), w.files[path], at, w.plan)
  }

  /** Reads into the buffer and writes what came; an empty chunk is not written. */
  method MoveChunk(w: World, path: Path, at: nat, r: UploadReader, buf: array<byte>)
    returns (n: nat, status: Status, wrote: bool)
    requires r.Valid() && path in w.files && buf.Length > 0
    modifies w`files, w`plan, r.Cursors(), buf
    ensures r.Valid()
    ensures var rr := ReadStep(old(r.View()), buf.Length, old(w.plan));
            var wr := WriteStep(old(w.files[path]), at, rr.chunk, rr.plan);
            && n == |rr.chunk| && status == rr.status && r.View() == rr.r
            && wrote == wr.ok && w.plan == wr.plan && w.files == old(w.files)[path := wr.file]
  {
    hide WriteAt, WriteStep, ReadStep, r.Valid, r.View;
    r.Separate(w);
    n, status := r.Read(w, buf);
    WriteNothing(w.files[path], at, w.plan);
    assert w.files[path := w.files[path]] == w.files;
    wrote := true;
    if n > 0 {
      wrote := WriteChunk(w, path, at, buf[..n]);
    }
  }

  /** One turn of the copy loop. */
  method CopyOnce(w: World, path: Path, at: nat, r: UploadReader, buf: array<byte>)
    returns (done: bool, ok: bool, at': nat)
    requires r.Valid() && path in w.files && buf.Length == COPY_CHUNK
    modifies w`files, w`plan, r.Cursors(), buf
    ensures r.Valid() && path in w.files
    ensures CopyTurn(old(CopyingOf(w, path, at, r))) == Turn(done, ok, CopyingOf(w, path, at', r))
    ensures w.files == old(w.files)[path := w.files[path]]
  {
    hide CopyTurn, WriteStep, ReadStep, r.Valid, r.View;
    r.Separate(w);
    TurnIs(CopyingOf(w, path, at, r));
    at' := at;
    assert w.files[path := w.files[path]] == w.files;
    var cancelled := w.Answer();
    if cancelled.Fail? {
      return true, false, at;
    }
    var n, status, wrote := MoveChunk(w, path, at, r, buf);
    at' := at + n;
    done := !wrote || status != More;
    ok := wrote && status == Eof;
  }

  /** `copyWithContext`: read into one reused buffer and write out, until EOF or an error. */
  method CopyWithContext(w: World, path: Path, start: nat, r: UploadReader) returns (ok: bool)
    requires r.Valid() && path in w.files
    modifies w`files, w`plan, r.Cursors()
    ensures r.Valid()
    ensures var t := CopyRun(old(CopyingOf(w, path, start, r)));
            && ok == t.ok && r.View() == t.s.r && w.plan == t.s.plan
            && w.files == old(w.files)[path := t.s.file]
  {
    hide CopyTurn, r.Valid, r.View;
    var buf := new byte[COPY_CHUNK];
    r.Separate(buf);
    var at := start;
    assert w.files[path := w.files[path]] == w.files;
    while true
      invariant fresh(buf) && buf.Length == COPY_CHUNK
      invariant r.Valid() && path in w.files && w.files == old(w.files)[path := w.files[path]]
      invariant CopyRun(CopyingOf(w, path, at, r)) == CopyRun(old(CopyingOf(w, path, start, r)))
      decreases |r.View().Left()|
    {
      TurnShrinks(CopyingOf(w, path, at, r));
      var done;
      done, ok, at := CopyOnce(w, path, at, r, buf);
      if done {
        return ok;
      }
    }
  }

  // A transfer call left the world and the reader as the attempt `a` says, and touched no other file.
  twostate predicate Attempted(w: World, path: Path, r: UploadReader, a: Attempt)
    reads w, r.Footprint()
  {
    && r.Valid() && r.View() == a.r
    && w.At(path) == a.net && w.Others(path) == old(w.Others(path))
  }

  lemma OthersKept(files: map<Path, Bytes>, path: Path, file: Bytes)
    ensures files[path := file] - {path} == files - {path}
  {
  }

  /** Connects and opens the file; a call that fails may have done so all the same. */
  method Open(w: World, path: Path, truncate: bool) returns (ok: bool)
    modifies w`files, w`plan
    ensures w.plan == Rest(old(w.plan)) && w.Others(path) == old(w.Others(path))
    ensures var open, file := Next(old(w.plan)), old(w.At(path)).file;
            && ok == !open.Fail?
            && w.At(path).file == if open.Fail? && open.n == 0 then file else Some(OpenedFile(file, truncate))
  {
    var open := w.Answer();
    if open.Fail? && open.n == 0 {
      return false;
    }
    if truncate || path !in w.files {
      OthersKept(w.files, path, []);
      w.files := w.files[path := []];
    }
    return !open.Fail?;
  }

  /** Connect, open (truncating or not), copy from the reader's cursor to position `at`. */
  method Send(w: World, path: Path, r: UploadReader, at: nat, truncate: bool) returns (ok: bool)
    requires r.Valid()
    modifies w`files, w`plan, r.Cursors()
    ensures ok == SendRun(old(r.View()), old(w.At(path)), at, truncate).ok
    ensures Attempted(w, path, r, SendRun(old(r.View()), old(w.At(path)), at, truncate))
  {
    hide r.Valid, r.View, CopyRun, OpenedFile;
    r.Separate(w);
    var open := Open(w, path, truncate);
    if !open {
      return false;
    }
    ghost var files := w.files;
    ok := CopyWithContext(w, path, at, r);
    OthersKept(files, path, w.files[path]);
  }

  /** `Upload`: the remote file is truncated, then everything the reader delivers is written. */
  method Upload(w: World, path: Path, r: UploadReader) returns (ok: bool)
    requires r.Valid()
    modifies w`files, w`plan, w`calls, r.Cursors()
    ensures ok == UploadRun(old(r.View()), old(w.At(path))).ok
    ensures Attempted(w, path, r, UploadRun(old(r.View()), old(w.At(path))))
  {
    hide r.Valid, r.View, SendRun;
    r.Separate(w);
    w.calls := w.calls + [UploadCall];
    var _ := r.SeekTo(0);
    ok := Send(w, path, r, 0, true);
  }

  /** `ResumeUpload`: nothing is truncated; writing starts at `offset`. */
  method ResumeUpload(w: World, path: Path, r: UploadReader, offset: nat) returns (ok: bool)
    requires r.Valid()
    modifies w`files, w`plan, w`calls, r.Cursors()
    ensures ok == ResumeRun(old(r.View()), old(w.At(path)), offset).ok
    ensures Attempted(w, path, r, ResumeRun(old(r.View()), old(w.At(path)), offset))
  {
    hide r.Valid, r.View, SendRun;
    r.Separate(w);
    w.calls := w.calls + [ResumeCall(offset)];
    var sought := r.SeekTo(offset);
    if !sought {
      return false;
    }
    ok := Send(w, path, r, offset, false);
  }

  /** `RemoteSize`: `None` if the file is missing or the call fails. */
  method RemoteSize(w: World, path: Path) returns (size: Option<nat>)
    modifies w`plan, w`calls
    ensures SizeRun(old(w.At(path))) == SizeResult(size, w.At(path))
  {
    w.calls := w.calls + [SizeCall];
    var move := w.Answer();
    if move.Fail? || path !in w.files {
      return None;
    }
    return Some(|w.files[path]|);
  }

  /** `Download`, at the backend interface: a handle on the stored bytes. */
  method Download(w: World, path: Path) returns (content: Option<Bytes>)
    modifies w`files, w`plan, w`calls
    ensures w.Others(path) == old(w.Others(path))
    ensures var move := Next(old(w.plan));
            && w.At(path) == Net(if move.Tamper? then Some(move.b) else old(w.At(path)).file,
                                 Rest(old(w.plan)), old(w.calls) + [DownloadCall])
            && content == if move.Fail? then None else w.At(path).file
  {
    w.calls := w.calls + [DownloadCall];
    var move := w.Answer();
    if move.Tamper? {
      OthersKept(w.files, path, move.b);
      w.files := w.files[path := move.b];
    }
    if move.Fail? || path !in w.files {
      return None;
    }
    return Some(w.files[path]);
  }
}
