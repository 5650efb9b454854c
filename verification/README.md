# backupgate: a verified model of the upload path

backupgate takes large backups over HTTP or an S3-like API and keeps them on a
remote store: a request body is buffered, hashed, sent over SFTP with one
resumed retry, read back and compared, and old backups in the same directory are
rotated out. This project models that path in layers and proves what each layer
promises to the one above it.

* **The world.** `Outside.World` is the storage server plus a plan: the answers
  its next calls will give. A call may work, fail after any part of its effect,
  or, when stored bytes are read back, find them silently replaced; a streamed
  body may fall short. Every result is for every plan.
* **The transfer.** `Transfer` and `PipelineSpec` are the copy loop, the
  attempts, the verification and the two request modes as functions of one
  remote file and a plan; the results are lemmas about these functions.
  `Storage`, `UploadReaders` and `Pipelines` are the imperative code, each
  method proved equal to its function. Rotation (`Rotation`) follows a
  successful transfer, and `BackupIsStoredAndKept` spans both.
* **Readers and buffers.** `Buffers`, `Assembled`, `Sliding` and
  `BufferManager`: each indirect form agrees with plain bytes and a cursor, or
  with a plain sum of reservations.
* **Concurrency.** `Multipart` and `KeyLocks` are step systems: handlers
  interleave in any order, a lookup and what follows it being separate steps, and
  the results hold of every run. `PartBuffers` follows one part's buffer through
  whole runs, `Completions` and `PlainUpload` follow one upload. The critical sections are methods
  (`MultipartHandler`, `KeyLocks.Handler`), proved equal to the steps.
* **Names and formats.** `Timestamps`, `StoragePaths`, `KeyResolution`,
  `CanonicalQuery`, `Htpasswd`. `RequestKeys` and `Retention` span them: what raw
  and normalised keys decide, and what keys of one directory share.

SHA256, MD5, bcrypt and the 1000-round password mixing are function values about
which nothing is assumed. `hide` statements only keep proofs short.

## Where a plain statement is false

These are proved as exact conditions, each with its failing family:

* A file that already lies at the storage path (paths repeat within a second)
  is resumed if the first attempt dies before its truncating open. The upload is
  correct for every plan exactly when that file is a beginning of the payload:
  `StaleFileExactly`. A verified report is sound in any case:
  `VerifiedWhateverWasThere`.
* The buffered modes drain the body while hashing. A body that cannot seek is
  then stored as an empty file: `BufferedNeedsSeek`.
* The early hash check ignores letter case, verification does not, and
  FULLY_IMMEDIATELY without verification checks nothing: `BufferedAccepts`.
* The reported size is the announced length when that is larger than the
  payload: `ReportedSize`.
* The memory budget holds for every run exactly when the two limits add up
  within 64 bits: `BudgetExactly`.
* Not every part buffer is closed in the end. Which ones are open is
  `OpenExactly`; once all handlers are done, those that nothing will ever close
  are exactly the ones refused for their content hash and the ones published
  after the last closing of a session that is no longer registered:
  `LeakedExactly`. The last upload to finish leaks its part exactly if its session
  was completed or aborted meanwhile: `LatePartLeaksExactly`.
* A multipart upload may be completed more than once. Every completion that
  succeeds had looked the upload up before any completion or abort removed it:
  `CompletionsOverlap`. Of two that have listed their parts, the second succeeds
  after the first exactly if its non-empty parts lie in memory, because the first
  closes the files: `BothCompleteExactly`.
* The upload lock goes by the raw key and the storage path by the normalised one.
  The lock keeps uploads to one path apart exactly if no two keys in play have the
  same normalised form: `PathExclusionExactly`. Policy and authentication go by
  the raw key too; `CleanKeysAreGovernedAlike` and `SameChoiceExactly` say when
  that makes a difference.
* Keys that share a directory share its retention count: `QuotaExactly`.
* A configured key named "" separates the authentication of a request from its
  policy: `ResolversAgreeExactly`.
* Files of one second are ordered by the sort's whim. Which files are safe from
  every consistent sort is `SurvivesExactly`.
* A listing error whose text reads like a missing directory makes rotation
  succeed without doing anything; `Applied` says so.
* The timestamp parser accepts a decimal fraction of a second, although the
  layout has none: `ParseExactly`.

Comments in the code promise a retry from a sliding window in OFF mode and a
parallel upload in FULLY_IMMEDIATELY; the code does neither, and the model
follows the code.

## Model

| member | source | states |
|---|---|---|
| Transfer.CopySafe | internal/storage/sftp_backend.go:195-214 | through every turn of the copy loop, and however it ends, the remote file stays a beginning of what is to be stored and never shrinks; success means it is all there and the reader is drained |
| Transfer.WriteAtExactly | internal/storage/sftp_backend.go:195-214 | a positioned write puts its own bytes where it writes, zeros into a gap, and leaves every other byte |
| Transfer.AttemptCalls | internal/pipeline/pipeline.go:166-186 | the first attempt is one upload; a later one asks for the stored length and resumes there, or at 0 if it is unknown or too large |
| Transfer.CopyFrame | internal/storage/sftp_backend.go:195-214 | copying only moves the cursor forward over fixed data, and fails only by using up a fault |
| Transfer.CopyUndisturbed | internal/storage/sftp_backend.go:195-214 | without faults a copy succeeds and lays the remaining bytes over the file at its position, for readers that report EOF with or after the last bytes |
| Transfer.UploadSafe | internal/storage/sftp_backend.go:57-74 | a truncating upload leaves a beginning of the payload, and on success the payload, whatever lay there before |
| Transfer.ResumeSafe | internal/storage/sftp_backend.go:78-98 | a non-truncating resume from within a partial file keeps the file a beginning of the payload, never shorter, and on success the payload |
| Transfer.ResumeNeedsSeek | internal/storage/sftp_backend.go:78-86 | a reader that cannot seek is not resumed anywhere but at the start |
| Transfer.RetrySafe | internal/pipeline/pipeline.go:166-186 | for any number of retries and every plan the remote file is missing or a beginning of the payload at every attempt boundary, success means it is the payload, and giving up takes a fault per attempt |
| Transfer.ToleratesExactly | internal/pipeline/pipeline.go:63-186 | onto a missing file the upload survives any n faults if and only if it may retry at least n times |
| Transfer.StaleFileExactly | internal/pipeline/pipeline.go:147-186 | the retrying upload is correct for every plan if and only if the file found at the path is missing or a beginning of the payload |
| Transfer.StaleFileResumed | internal/storage/sftp_backend.go:78-98 | the failing run: a first attempt that cannot connect makes the second one report success over a stale file |
| PipelineSpec.DrainAll | internal/pipeline/pipeline.go:276-296 | hashing absorbs exactly the bytes from the cursor on, or fails by using up a fault |
| PipelineSpec.VerifySound | internal/pipeline/verifier.go:32-50 | a match is about the bytes stored at that moment; an unreadable file needs a fault or a missing file; untampered bytes stay |
| PipelineSpec.VerifyRetransmitSound | internal/pipeline/pipeline.go:190-211 | "verified" means the stored bytes have the expected hash even under tampering; there is at most one retransmission, and none from a reader that cannot seek |
| PipelineSpec.RetransmitsExactly | internal/pipeline/pipeline.go:190-203 | a retransmission happens if and only if the first read-back delivered the stored bytes, their hash differs and the reader can seek; a read-back that fails or finds no file is the download error, one call, the file as it is |
| PipelineSpec.RetransmittedExactly | internal/pipeline/pipeline.go:201-211 | then the whole upload is repeated and checked once; each outcome of the two has its own result and its own calls |
| PipelineSpec.RetransmitSound | internal/pipeline/pipeline.go:201-211 | a retransmission that is reported verified left the whole payload, checked once more |
| PipelineSpec.BufferedStoresPayload | internal/pipeline/pipeline.go:228-269 | buffered success, for every payload, seekable reader kind and plan: the report has the payload's SHA256 and MD5, the stored file is the payload unless it was tampered with afterwards, and a verified report matches the stored bytes |
| PipelineSpec.VerifiedWhateverWasThere | internal/pipeline/pipeline.go:246-256 | a verified report stands on the stored bytes alone, with no condition on the file that lay there before or on the reader |
| PipelineSpec.EqualFoldExactly | internal/pipeline/pipeline.go:233 | the comparison of hashes fails if and only if the lengths differ or some position holds two characters that are not the two cases of one letter |
| PipelineSpec.SpelledAlikeHex | internal/pipeline/pipeline.go:233 | on hex strings it holds if and only if they print the same bytes |
| PipelineSpec.PrintHexReads | internal/pipeline/pipeline.go:293-294 | bytes printed in hex are read back from the print |
| PipelineSpec.MismatchMakesNoCall | internal/pipeline/pipeline.go:233-235 | FULLY_COMPLETE refuses an announced hash that spells anything but the payload's, or prints other bytes, before any backend call, and leaves the remote file alone |
| PipelineSpec.BufferedAccepts | internal/pipeline/pipeline.go:228-256 | without faults or tampering a buffered upload succeeds if and only if the announced hash, where checked early, spells the payload's (hex: prints the same bytes) and, where verified, equals it exactly |
| PipelineSpec.OffAccepts | internal/pipeline/pipeline.go:110-145 | OFF mode without faults or tampering stores the payload in any case and succeeds if and only if the announced hash spells the payload's, exactly if verification is on |
| PipelineSpec.BufferedNeedsSeek | internal/pipeline/pipeline.go:276-291 | the buffered modes store the payload on every plan if and only if the reader can seek or has nothing to deliver |
| PipelineSpec.ReportedSize | internal/pipeline/pipeline.go:238-241 | the reported size is the announced length if that is larger than the payload, and the payload length otherwise |
| PipelineSpec.OneCorruptionHeals | internal/pipeline/pipeline.go:188-211 | verifying against the payload's hash, announced or computed, one silent corruption of the stored file is repaired by the retransmission, and the run still ends verified |
| PipelineSpec.OffStoresPayload | internal/pipeline/pipeline.go:110-145 | OFF mode success: what the body delivered is stored, its digests and length are reported, and a verified report matches the stored bytes |
| Buffers.Interchangeable | internal/buffer/memory.go:37-103 | memory and file buffers, under any sequence of writes, seeks and reads, deliver the same bytes and keep the same cursor; they differ only in whether EOF comes with or after the last bytes |
| Buffers.SliceExactly | internal/buffer/memory.go:62-76 | a read delivers, byte by byte, what lies at its offset, as much as there is and fits |
| Buffers.ReadsExactly | internal/buffer/memory.go:47-76 | when each kind of read reports EOF: a positioned read exactly when it is short (memory also from the end on), a memory read exactly when nothing is left |
| Buffers.SeekMeans | internal/buffer/memory.go:79-103 | each whence by what is read next: from the start, from the end, and from the cursor, so that stepping back over a read repeats it |
| Buffers.SeekRefused | internal/buffer/memory.go:79-103 | a seek is refused if and only if the whence is unknown or the target lies before the start |
| Buffers.MemoryBuffer.Write | internal/buffer/memory.go:37-44 | appends, unless closed |
| Buffers.MemoryBuffer.Read | internal/buffer/memory.go:47-59 | fills the caller's buffer with the next bytes and nothing else; EOF only once nothing is left; works after Close |
| Buffers.MemoryBuffer.ReadAt | internal/buffer/memory.go:62-76 | delivers the bytes from the offset on, EOF with a short read |
| Buffers.MemoryBuffer.Seek | internal/buffer/memory.go:79-103 | moves to the target of any whence, or refuses and stays |
| Buffers.FileBuffer.Write | internal/buffer/file.go:48-58 | appends what the disk accepts and reports a short write |
| Buffers.FileBuffer.ReadAt | internal/buffer/file.go:71-75 | delivers the bytes from the offset on; a closed file or a negative offset is a hard error, never wrong bytes |
| Buffers.FileBuffer.Read | internal/buffer/file.go:61-68 | as ReadAt at the cursor, which advances by what was delivered |
| Buffers.FileBuffer.Seek | internal/buffer/file.go:78-100 | the same positions and refusals as the memory buffer |
| Buffers.FileBuffer.Close | internal/buffer/file.go:135-147 | closes once, and reports exactly the first time whether the file could be closed and removed |
| Assembled.ReadPartsSlices | internal/reader/assembled.go:43-84 | reading the parts is slicing their concatenation: bytes, count and EOF; only an unreadable part with content can break a read, and then a right beginning was delivered |
| Assembled.ConcatLaysOut | internal/reader/assembled.go:22-35 | the content has the bytes of each part in its place, in the order of the parts |
| Assembled.ReadAllIsSuffix | internal/reader/assembled.go:37-103 | reads of any positive sizes after any seek yield exactly the concatenation from there on |
| Assembled.AssembledReader.constructor | internal/reader/assembled.go:22-35 | the reader stands for the parts as they are now, with their total size |
| Assembled.AssembledReader.ReadAt | internal/reader/assembled.go:43-84 | the loop over parts, empty and repeated ones included, fills the caller's buffer as the concatenation says, even after parts grew or were closed |
| Assembled.AssembledReader.Read | internal/reader/assembled.go:37-41 | reads at the cursor and advances it by what was delivered |
| Assembled.AssembledReader.Seek | internal/reader/assembled.go:86-103 | seeks over the total size with the buffers' rules |
| Assembled.AssembledReader.Close | internal/reader/assembled.go:109-117 | closes every part, changes nothing else, and returns the error of the first part that could not be closed |
| Assembled.StreamingReader.Read | internal/pipeline/pipeline.go:308-312 | passes the body on and counts it |
| UploadReaders.Body.Read | internal/reader/reader.go:24-46 | every reader kind, under any answer of the world, reads as the transfer's reader description says |
| UploadReaders.HashingReader.Read | internal/pipeline/pipeline.go:349-357 | passes reads through unchanged; what was hashed is exactly what was passed on |
| UploadReaders.UploadReader.SeekTo | internal/storage/sftp_backend.go:181-193 | seeks if the reader can; otherwise accepts offset 0 without moving |
| Storage.CopyWithContext | internal/storage/sftp_backend.go:195-214 | the loop over one reused buffer is the copy function |
| Storage.Upload | internal/storage/sftp_backend.go:57-74 | is the truncating upload function on its one file; no other file changes |
| Storage.ResumeUpload | internal/storage/sftp_backend.go:78-98 | is the resuming upload function on its one file; no other file changes |
| Storage.RemoteSize | internal/storage/sftp_backend.go:155-170 | the stored length, or an error for a missing file or a failing call |
| Storage.Download | internal/storage/backend.go:43-44 | the stored bytes as they are at that moment |
| Pipelines.Verify | internal/pipeline/verifier.go:32-50 | downloads, hashes and compares exactly, as the verification function does |
| Pipelines.Pipeline.HashUploadReader | internal/pipeline/pipeline.go:276-296 | both digests are of all bytes of a rewound reader, which is rewound again |
| Pipelines.Pipeline.UploadWithRetry | internal/pipeline/pipeline.go:166-186 | the attempt loop is the retry function |
| Pipelines.Pipeline.VerifyAndRetransmit | internal/pipeline/pipeline.go:190-211 | is the verification function with its one retransmission |
| Pipelines.Pipeline.StoreBuffered | internal/pipeline/pipeline.go:228-256 | hash, refuse or upload, verify: the buffered run |
| Pipelines.Pipeline.StoreStreamed | internal/pipeline/pipeline.go:110-132 | one attempt through the hashing reader, then check and verify: the OFF run |
| Pipelines.Pipeline.Process | internal/pipeline/pipeline.go:68-84 | resolves the key, runs its mode on the one storage path, then rotates; a failed rotation turns success into an error |
| Pipelines.BackupIsStoredAndKept | internal/pipeline/pipeline.go:68-269 | end to end: after a successful request, rotation included, the payload lies at the storage path under a name that reads back as the upload time, if nobody tampers and the policy has room for a file that new |
| Pipelines.MismatchByMode | internal/pipeline/pipeline.go:98-119 | an announced hash that spells or prints anything but the payload's, verification off: FULLY_COMPLETE refuses without a backend call, OFF refuses after storing, FULLY_IMMEDIATELY accepts |
| Rotation.TooOldExactly | internal/rotation/rotation.go:84 | a file is over age if and only if more than MaxAge lies between its time and now, for a positive MaxAge below the largest duration; at the largest the saturating difference never exceeds it |
| Rotation.SelectForDeletion | internal/rotation/rotation.go:77-92 | collects exactly the files behind the first MaxCount and those more than MaxAge old, on plain numbers |
| Rotation.SelectIsSuffix | internal/rotation/rotation.go:77-92 | on a newest-first list the doomed files are a suffix |
| Rotation.Apply | internal/rotation/rotation.go:34-74 | with a listing, surplus files go newest first, all of them unless a deletion fails; with no limits, or no listing, nothing changes; without faults it succeeds |
| Rotation.Survivors | internal/rotation/rotation.go:34-92 | survivors number at most MaxCount, are at most MaxAge old on plain numbers, and are at least as new as every deleted file; every deleted file broke a limit; directories, other directories and names without a time are untouched |
| Rotation.RotationDone | internal/rotation/rotation.go:34-74 | a rotation with any limit, given its listing, that reports success leaves at most MaxCount rotatable files, none more than MaxAge old, and everything else as it was; without limits nothing changes |
| Rotation.RestartKeepsSameTimes | internal/rotation/rotation.go:64-92 | stop a run anywhere, sort afresh and rerun: the same times survive, and every file meant to be kept is still there |
| Rotation.SurvivesExactly | internal/rotation/rotation.go:58-92 | a file survives every timestamp-consistent sort if and only if it is at most MaxAge old and no more than MaxCount rotatable files of the directory, itself included, are as new |
| Rotation.SafeFileStays | internal/rotation/rotation.go:34-74 | a safe file keeps its content through a complete or interrupted rotation |
| Retention.QuotaExactly | internal/rotation/rotation.go:34-92 | any set of a directory's files, those of one key say, keeps MaxCount members, or all not over age if they are fewer, under every timestamp-consistent sort if and only if no other file can be among the MaxCount newest, or its own always are |
| Timestamps.NameRoundTrip | internal/rotation/rotation.go:94-104 | the stored name of any UTC second of years 0 to 9999 and any filename parses back to that second |
| Timestamps.PrintExactly | internal/pipeline/pipeline.go:151 | where the print has what: four digits of year, two of month and day, the letter T, two each of hour, minute and second, the letter Z |
| Timestamps.StoredNameExactly | internal/pipeline/pipeline.go:151 | the stored name is the print, an underscore and the name of the key |
| Timestamps.ParseTimestampExactly | internal/rotation/rotation.go:94-104 | the time of a name is that of the part before its first underscore; a name without one has none |
| Timestamps.NanosExactly | internal/rotation/rotation.go:99 | nine fraction digits are nanoseconds, missing ones count as zeros, further ones are dropped |
| Timestamps.TickIsOneSecond | internal/rotation/rotation.go:84-99 | the next second of clock and calendar, by the calendar's own table of months and leap years, is one second later on the time line |
| Timestamps.ParseExactly | internal/rotation/rotation.go:94-104 | a prefix parses if and only if it is a printed second, possibly with a decimal fraction before the final letter |
| Timestamps.FractionParses | internal/rotation/rotation.go:99 | a fraction only adds nanoseconds to the second that is read back |
| Timestamps.ParsePrint | internal/rotation/rotation.go:94-104 | a 16-character prefix parses only if it is the print of the parsed time |
| Timestamps.PrintOrder | internal/rotation/rotation.go:57-62 | printed prefixes compare as strings exactly as the times compare |
| Timestamps.NameOrder | internal/pipeline/pipeline.go:149-158 | stored names of different seconds sort by time, whatever follows the prefix |
| StoragePaths.RotationSeesUpload | internal/pipeline/pipeline.go:149-163 | for every key the upload lands in the directory rotation lists, under the stored name, and normalising the key first changes nothing |
| StoragePaths.SegmentsExactly | internal/pipeline/pipeline.go:149-150 | normalising by segments: an empty one or "." changes nothing, ".." goes to the parent and stays at the root, any other name is appended |
| RequestKeys.PlacedBySegments | internal/pipeline/pipeline.go:149-163 | all segments but the last name the directory, of the upload as of rotation, and the last one the file |
| StoragePaths.CleanKeyIsPlain | internal/pipeline/pipeline.go:150 | the normalised key has no empty, "." or ".." segment, the root apart |
| StoragePaths.CleanKeyIdempotent | internal/pipeline/pipeline.go:160-163 | normalising twice is normalising once |
| Sliding.RunCovers | internal/buffer/sliding.go:35-49 | after any writes, longer than the window or not, the ring holds the last bytes of all that was written |
| Sliding.OverwriteCovers | internal/buffer/sliding.go:43-47 | one write of any length keeps the ring covering the tail of the history |
| Sliding.SlidingBuffer.Write | internal/buffer/sliding.go:35-49 | the loop overwrites the ring byte by byte and appends to the history, unless closed |
| Sliding.SlidingBuffer.ReadAtIfAvailable | internal/buffer/sliding.go:61-82 | succeeds exactly for offsets inside the window, and then delivers the history from there on |
| Sliding.SlidingBuffer.AvailableRange | internal/buffer/sliding.go:85-98 | the window: the last bytes of the history, fewer at the start |
| BufferManager.BudgetExactly | internal/buffer/manager.go:70-91 | over every run the counter is the sum of the live reservations and within the limit, if and only if the limits add up within 64 bits or memory buffers are off |
| BufferManager.WrapExactly | internal/buffer/manager.go:77-85 | the counter's arithmetic: the one 64-bit value that differs from the exact result by a multiple of 2 to the 64 |
| BufferManager.StepBalanced | internal/buffer/manager.go:43-91 | each request or close keeps the books balanced, and the clamp to 0 never fires |
| BufferManager.Manager.TryReserveMemory | internal/buffer/manager.go:70-82 | reserves, in 64-bit arithmetic, or leaves everything alone |
| BufferManager.Manager.ReleaseMemory | internal/buffer/manager.go:84-91 | gives one reservation back |
| BufferManager.Manager.NewFullBuffer | internal/buffer/manager.go:43-55 | a memory buffer exactly when granted, with its own ticket; otherwise an empty file buffer, or an error if no file can be created, with the books untouched |
| BufferManager.ManagedMemoryBuffer.Close | internal/buffer/managed_memory.go:21-25 | releases the reservation the first time, nothing after that |
| Multipart.RunInv | internal/api/s3_multipart.go:81-217 | every interleaving, lookups apart from what follows them, keeps: published bytes never change, sizes are right, no buffer is two parts or has two writers, and an object under assembly is a beginning of its snapshot |
| Multipart.SnapshotExactly | internal/api/s3_multipart.go:145-153 | a snapshot is missing if and only if some listed number has no part; otherwise entry k is the part of the k-th listed number |
| Multipart.StoredIsSnapshot | internal/api/s3_multipart.go:142-175 | in every interleaving a successful completion stored, laid out one after another in ascending part-number order, what the buffer of each listed part held when it took its snapshot |
| Multipart.ResumeAppends | internal/api/s3_multipart.go:162-172 | a resumed attempt that knows the stored length appends what is missing |
| Multipart.NumbersAsRequested | internal/api/s3_multipart.go:129-133 | the part numbers a completion works through are those its request listed, or all there were when it looked |
| Multipart.BufferHoldsCopied | internal/api/s3_multipart.go:93-104 | in every interleaving a part's buffer holds what its own request copied, in order |
| Multipart.PublishedIsCopied | internal/api/s3_multipart.go:111-116 | publishing makes exactly those bytes the part of that number and leaves the other parts alone |
| Multipart.ReadsNeverLie | internal/api/s3_multipart.go:111-117 | a read during assembly gives the right next bytes or fails on a closed temporary file, whatever was replaced or aborted meanwhile |
| PartBuffers.OpenExactly | internal/api/s3_multipart.go:93-116 | in every run an issued part buffer is open if and only if it is still being filled, or was refused for its content hash, or is the current part of a session, published after every closing of the session's parts and every assembled reader's close that reached it |
| PartBuffers.LeakedExactly | internal/api/s3_multipart.go:105-217 | once all handlers are done, no continuation of the run ever closes a buffer if and only if it was refused for its content hash, or published after the last closing of a session that is no longer registered |
| PartBuffers.LatePartLeaksExactly | internal/api/s3_multipart.go:111-116 | the last upload to finish leaks its part if and only if its session was completed or aborted meanwhile |
| Completions.CompletesExactly | internal/api/s3_multipart.go:139-175 | a completion that takes its snapshot now succeeds in some continuation, with any interleaving, if and only if every part with content lies in memory or in a file that is still open |
| Completions.BothCompleteExactly | internal/api/s3_multipart.go:123-184 | of two completions of one upload that have listed parts, one run after the other, both can succeed, each with its own parts' content, if and only if the first can read its parts and those of the second with content all lie in memory |
| Completions.CompletionsOverlap | internal/api/s3_multipart.go:123-209 | every completion that succeeds had looked the upload up before any completion or abort removed it, so two succeed only if both began before the first removal |
| PlainUpload.UploadWorks | internal/api/s3_multipart.go:41-184 | undisturbed, an upload of any parts, created, filled, published, listed and completed, succeeds with the parts laid out one after another as the stored object |
| MultipartHandler.TotalIsLength | internal/api/s3_multipart.go:142-168 | the length announced to the pipeline is that of the assembled content |
| MultipartHandler.S3Handler.StorePart | internal/api/s3_multipart.go:111-116 | publishes the part and closes the one it replaces |
| MultipartHandler.S3Handler.RequestedPartNumbers | internal/api/s3_multipart.go:219-242 | the client's list, or else all uploaded numbers, ascending |
| MultipartHandler.S3Handler.TakeParts | internal/api/s3_multipart.go:142-155 | none if some requested part is missing; otherwise entry k is the part of the k-th number, with the total size |
| MultipartHandler.S3Handler.CloseMultipartParts | internal/api/s3_multipart.go:211-217 | closes exactly the session's buffers |
| KeyLocks.OneInsidePerKey | internal/api/handler.go:96-101 | in every interleaving of requests of all kinds at most one per key is inside Process, a key keeps its mutex for the whole run, and different keys never wait for each other |
| KeyLocks.NoDeadlock | internal/api/handler.go:96-101 | a waiting request can enter at once, or as soon as the one request inside for its key leaves |
| KeyLocks.Handler.LoadOrStoreMutex | internal/api/handler.go:97-98 | the key's mutex, made on first use |
| KeyLocks.Handler.LockMutex | internal/api/handler.go:99-100 | enters with the key's mutex: nobody else with the key is inside, and nobody else can enter |
| KeyLocks.Handler.UnlockMutex | internal/api/s3_multipart.go:139-140 | leaves: nobody with the key is inside, and everyone waiting for it may be next |
| RequestKeys.SamePathExactly | internal/pipeline/pipeline.go:149-158 | two keys stored at one moment get one storage path if and only if their normalised forms are equal |
| RequestKeys.PathExclusionExactly | internal/api/handler.go:96-101 | over all interleavings of requests for a set of keys, at most one request per storage path is inside Process if and only if no two of the keys have the same normalised form |
| RequestKeys.SameChoiceExactly | internal/config/config.go:226-257 | two requests are governed by the same configured key if and only if every key governing only one of them is outdone by a longer one governing both |
| RequestKeys.CleanKeysAreGovernedAlike | internal/pipeline/pipeline.go:68-150 | a request key and its normalised form are governed by the same configured key, whatever is configured, if and only if the key is in normalised form |
| KeyResolution.ResolveKeyConfig | internal/config/config.go:226-257 | exact match, else the longest path-segment prefix, else the default, for every map and sort order |
| KeyResolution.AuthChain | internal/api/handler.go:73-93 | the same by a running maximum, for every map order |
| KeyResolution.ChosenUnique | internal/config/config.go:218-225 | that choice is unique |
| KeyResolution.SameTest | internal/config/config.go:262-272 | the two prefix tests agree |
| RequestKeys.GovernsBySegments | internal/config/config.go:262-272 | a configured key governs a request key if and only if its segments are the first ones of that key |
| KeyResolution.ResolversAgreeExactly | internal/api/handler.go:73-93 | policy and authentication come from the same configured key if and only if it is not a key named "" that governs |
| CanonicalQuery.CanonicalQuery | internal/api/s3.go:227-237 | the sorted, joined parts of all pairs, whatever order the map yields |
| CanonicalQuery.CanonicalExactly | internal/api/s3.go:227-241 | two queries have equal canonical forms if and only if they are the same bag of pairs |
| CanonicalQuery.CanonicalReads | internal/api/s3.go:227-241 | split at '&' and '=' and percent-decoded, the canonical form lists each value of each key as often as the query does and nothing else, its parts in byte order |
| CanonicalQuery.EscapeExactly | internal/api/s3.go:239-241 | byte by byte: unreserved characters stay, any other byte is '%' and two capital hex digits |
| Strings.LessEqExactly | internal/api/s3.go:231-236 | byte order is decided by the first difference |
| CanonicalQuery.EscapeRoundTrip | internal/api/s3.go:239-241 | percent-decoding undoes the escaping |
| CanonicalQuery.EscapeAlphabet | internal/api/s3.go:239-241 | escaped text has only unreserved characters and '%' |
| CanonicalQuery.PartInjective | internal/api/s3.go:232 | a part determines its key and value |
| Htpasswd.PrintedVerifies | internal/auth/htpasswd.go:91-180 | what md5Crypt prints for a password, under any salt, verifies for it |
| Htpasswd.AcceptsExactlyEqualDigests | internal/auth/htpasswd.go:82-103 | a canonical entry is accepted if and only if the digests are equal |
| Htpasswd.AcceptedAreCanonical | internal/auth/htpasswd.go:82-103 | a string with the apr1 prefix is accepted if and only if it is the prefix, a salt, a '$' and 22 characters that stand, by a decoder of their own, for the password's digest under that salt |
| Htpasswd.UnprintLayout | internal/auth/htpasswd.go:173-178 | the 22 characters, read as base-64 digits lowest first and each group's bytes taken out by weight, give the digest back |
| Htpasswd.LayoutUnprint | internal/auth/htpasswd.go:173-178 | every 22 characters that can be read are the print of what they read as |
| Htpasswd.OtherFormats | internal/auth/htpasswd.go:82-95 | bcrypt entries under any of three prefixes, SHA1 entries by equality, anything else refused |
| Htpasswd.LayoutInjective | internal/auth/htpasswd.go:173-178 | the 22 characters determine all 16 digest bytes |
| Htpasswd.To64Injective | internal/auth/htpasswd.go:182-189 | n digits tell values below 64 to the n apart |
| Htpasswd.EntrySplits | internal/auth/htpasswd.go:97-103 | splitting a canonical entry finds its salt |
| Htpasswd.To64Loop | internal/auth/htpasswd.go:182-189 | the shifting loop writes the base-64 digits, lowest first |
| Htpasswd.Md5CryptPrint | internal/auth/htpasswd.go:108-180 | prints the magic, the salt cut at '$' and at 8 characters, '$', and 22 characters that decode to the digest |

## Left out

- Storage.Download: stands for the `Backend` interface; the SFTP implementation hands out a file handle after closing its session, so against it verification can only fail.
- Sliding.SlidingBuffer.Write: stream positions are unbounded; the 64-bit wrap after 2^63 bytes is not modelled.
- PipelineSpec.BufferedAccepts: case folding is ASCII only, which is exact when one side is hex.
- Htpasswd.Md5CryptPrint: the MD5 mixing of password and salt is a function value; characters stand for bytes.
- Rotation.Apply: entry sizes and modification times, which rotation ignores, are absent; any failure of a listing may read like a missing directory.
- Pipelines.Pipeline.Process: clocks are parameters, and cancellation is one of the world's answers.
- Multipart.RunInv: creating a session does not check its buffer mode, and part ETags are absent; a step is what one mutex guards, and reads while a buffer is closed are ordered against the close. The per-key lock is `KeyLocks`: runs here may overlap where it would make them wait. Which part lies in memory is a free choice, not tied to `BufferManager`.
- Loading the htpasswd file and the other authentication providers: line parsing and library calls.
- SigV4 signing beyond the canonical query: hashing and header lookups.
- SSH sessions, rsync uploads (rejected by validation), HTTP servers, routing, logging, configuration parsing: plumbing.
- The Helm chart and container files: nothing to model.
