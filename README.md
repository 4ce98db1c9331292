# zipUploader: a verified model of the resumable chunked uploader

zipUploader uploads large files in resumable chunks.

- **Browser side.** A React hook splits a file into 5 MiB chunks. It sends up to three chunks at a time and tries each one up to three times. It tracks progress in uploaded bytes and supports pause and resume. It shows a single "upload completed" notification.
- **Server side.**
  - It opens an upload session with one PENDING row per chunk.
  - It writes each chunk into the session's backing file at offset `index * CHUNK_SIZE` and marks that chunk's row SUCCESS.
  - Once no chunk row is unfinished, it finalises the session: a transactional claim UPLOADING -> PROCESSING, a SHA-256 hash of the file, then COMPLETED with the digest, or FAILED.
  - Separately, a sweep deletes sessions left UPLOADING or PROCESSING for longer than 24 hours.

The project models these parts in Dafny, one module per unit of the source:

- **`Protocol`** (`protocol.dfy`)
  - The chunk size both sides share.
  - `TotalChunks`, which is `Math.ceil(size / CHUNK_SIZE)`.
  - The byte range of each chunk, and proofs that the chunks partition the file.
- **`Uploader`** (`uploader.dfy`)
  - The hook's pure parts: the chunk table, the queue filters, the per-index status updater, the retry count and the rounding of the progress percentage.
  - A `Scheduler` class whose fields are the hook's refs and state: table, queue, active count, uploaded bytes, paused flag, progress and the completion guard.
  - Its methods `Schedule`, `Settle`, `Refill`, `UploadFile`, `Pause`, `Resume` and `OnChunksChanged` change those fields.
  - Each method is proved against the pure functions.
  - A ghost list of in-flight transfers enforces the invariant `active == |in flight| <= MAX_CONCURRENCY`.
- **`Schema`** (`schema.dfy`)
  - The three tables: `uploads`, `chunks` and the backing files.
  - The store invariant `Valid`: every session owns exactly its chunk rows 0 .. totalChunks-1, and a row carries a receipt time exactly when it is SUCCESS.
  - `Forward`, which says no status moves backwards.
- **`UploadController`, `FinaliseService`, `CleanupService`**
  - Each request handler and job as a function from the store before it to the store after it, plus what it answers.
  - Lemmas about those functions.
- **`SessionStore`** (`session_store.dfy`)
  - A `Server` class whose `uploads`, `chunks` and `files` map fields are updated in place by `InitUpload`, `ChunkReceiver`, `FinaliseUpload` and `CleanupStaleUploads`.
  - Each of these methods is proved to reach exactly the state its function describes, and to keep `Valid` and `Forward`.
- **`EndToEnd`** (`end_to_end.dfy`)
  - The server writes the client's slices at the server's offsets. In any order and with any repeats, once every chunk is written the backing file equals the client's file.
  - Chunk receipt never changes which sessions the sweep selects.

The following are parameters of the model rather than computed by it:

- the outcome of each network attempt (`outcomes`);
- the SHA-256 digest function (`sha`), which may fail;
- the current time (`now`);
- the session id `crypto.randomUUID()` would produce;
- which database statement fails (`DbFault`, and `Faults` for the sweep).

Behaviour of the code worth knowing:

- **Unknown session or chunk index.** The status lookup finds no row, and reading `chunk.status` throws. The answer is 500 (`ReceiveRejects`).
- **Remaining-count query fails after the status update.** The last chunk is then SUCCESS, but nobody requests finalisation. Every retry takes the idempotent path, so the session stays UPLOADING until the sweep deletes it (`CompleteSessionNeverRetriggers`, `ReceiptKeepsStaleness`).
- **Database connection unavailable during the sweep.** `getConnection` sits outside the `try`, so the failure ends the whole sweep: the sessions not yet visited stay for the next sweep (`CleanupStaleUploads`, `aborted`).
- **A 0-byte file.** It has no chunks, so no chunk request ever requests finalisation.

## Model

| member | source | states |
|---|---|---|
| Protocol.TotalChunks | server/src/controllers/uploadController.js:18 | the chunk count is the least n with size <= n * CHUNK_SIZE; it is 0 exactly for an empty file |
| Protocol.SliceStart | client/src/hooks/useUploader.js:57 | the first byte of chunk i is i * CHUNK_SIZE, the same offset the server writes at (uploadController.js:68); SlicesDisjoint, ByteInOwnChunk and ReceiveWritesAtOffset state its properties |
| Protocol.SliceEnd | client/src/hooks/useUploader.js:58 | one past the last byte of chunk i, min(start + CHUNK_SIZE, size); SliceLength and SlicesDisjoint state its properties |
| Protocol.SliceLength | client/src/hooks/useUploader.js:57-59 | a chunk of the file yields a blob of 1 .. CHUNK_SIZE bytes ending at min(start + CHUNK_SIZE, size); an index past the end yields an empty blob |
| Protocol.Slice | client/src/hooks/useUploader.js:57-59 | the blob of chunk i has that length, and byte k of it is byte i*CHUNK_SIZE + k of the file |
| Protocol.SlicesDisjoint | client/src/hooks/useUploader.js:57-58 | distinct chunks cover disjoint byte ranges |
| Protocol.ByteInOwnChunk | client/src/hooks/useUploader.js:57-58 | every byte of the file lies in the range of the chunk b / CHUNK_SIZE, and that chunk is below totalChunks |
| Protocol.ByteInOnlyItsChunk | client/src/hooks/useUploader.js:57-58 | a byte lies in no other chunk's range |
| Protocol.JoinedSlices | client/src/hooks/useUploader.js:57-59 | concatenating the blobs of chunks 0 .. totalChunks-1 gives back the whole file |
| Protocol.Joined | client/src/hooks/useUploader.js:57-59 | the blobs of chunks 0 .. k-1 laid end to end; JoinedSlices states that all of them give the file back |
| Uploader.ChunkTable | client/src/hooks/useUploader.js:132-140 | one entry per chunk, entry k has index k, and it is success exactly when the server listed k as received (otherwise pending) |
| Uploader.Keep | client/src/hooks/useUploader.js:144-146 | the `filter` by status, order kept; its contract is KeepExact |
| Uploader.InitialQueue | client/src/hooks/useUploader.js:144-146 | the pending entries of the table; its contract is InitialQueueExact |
| Uploader.ResumeQueue | client/src/hooks/useUploader.js:163-165 | the pending and error entries of the table; its contract is ResumeQueueExact |
| Uploader.KeepExact | client/src/hooks/useUploader.js:144-146 | the status filter keeps exactly the entries with the wanted statuses and preserves increasing index order |
| Uploader.InitialQueueExact | client/src/hooks/useUploader.js:144-146 | the initial queue holds exactly the chunks the server did not report, as pending entries, in increasing index order |
| Uploader.ResumeQueueExact | client/src/hooks/useUploader.js:163-165 | resume requeues exactly the pending and error entries, in table order; a success or uploading entry is never requeued |
| Uploader.SetStatus | client/src/hooks/useUploader.js:49-55 | the functional per-index update changes the entry with that index to the new status and leaves every other entry and the length unchanged |
| Uploader.MarkUploadingAt | client/src/hooks/useUploader.js:49-55 | marking several dequeued entries changes exactly the entries with their indices to uploading |
| Uploader.MarkUploading | client/src/hooks/useUploader.js:49-55 | the table after the uploading marks of several `schedule()` calls, in turn; its contract is MarkUploadingAt |
| Uploader.TransfersAt | client/src/hooks/useUploader.js:57-59 | transfer j is for queue entry j and carries that chunk's blob size |
| Uploader.Transfers | client/src/hooks/useUploader.js:57-59 | the blobs sliced for several dequeued entries, in order; its contract is TransfersAt |
| Uploader.RemoveOneExact | client/src/hooks/useUploader.js:111 | a settled transfer leaves the in-flight list exactly once, and every other transfer stays |
| Uploader.RemoveOne | client/src/hooks/useUploader.js:111 | the in-flight list after one transfer settles; its contract is RemoveOneExact |
| Uploader.FirstSuccess | client/src/hooks/useUploader.js:63-109 | the retry loop stops at the first successful attempt below MAX_RETRIES; none means every attempt failed |
| Uploader.AttemptCount | client/src/hooks/useUploader.js:61-109 | between 1 and MAX_RETRIES attempts are made; every attempt before the last failed, and stopping early means the last one succeeded |
| Uploader.Progress | client/src/hooks/useUploader.js:77-81 | Math.round(uploaded / size * 100) computed exactly: the nearest integer with halves rounded up; at most 100 while uploaded <= size, 100 when all bytes are uploaded, 0 when none are |
| Uploader.AllDone | client/src/hooks/useUploader.js:29-31 | the table is non-empty and every entry is success; OnChunksChanged fires exactly on it |
| Uploader.Scheduler.constructor | client/src/hooks/useUploader.js:10-24 | the initial state: empty table and queue, no active transfer, zero bytes and progress, not paused, guard unset |
| Uploader.Scheduler.Schedule | client/src/hooks/useUploader.js:41-59 | no-op exactly when paused, at MAX_CONCURRENCY or with an empty queue; otherwise it dequeues the head, increments active, marks that entry uploading and starts a transfer of its blob size; afterwards active <= MAX_CONCURRENCY still holds |
| Uploader.Scheduler.Settle | client/src/hooks/useUploader.js:61-111 | after AttemptCount attempts: on the first success it adds the blob size to the byte counter, recomputes progress and marks the entry success; after MAX_RETRIES failures it marks the entry error and leaves the counters alone; either way active goes down by one |
| Uploader.Scheduler.StartNext | client/src/hooks/useUploader.js:148-150 | one `schedule()` call of the refill loops (also lines 169-171): it starts the next queued entry exactly when not paused, a slot is free and the queue is not empty, and keeps the started entries a prefix of the queue |
| Uploader.Scheduler.Refill | client/src/hooks/useUploader.js:148-150 | MAX_CONCURRENCY schedule calls start exactly the first min(free slots, queue length) queued entries, in order, and none while paused |
| Uploader.Scheduler.UploadFile | client/src/hooks/useUploader.js:117-151 | resets the guard, the progress, the byte counter and the paused flag; builds the table and the pending queue from the server's answer; starts the first min(free slots, pending) entries; does not reset the active count |
| Uploader.Scheduler.Pause | client/src/hooks/useUploader.js:155-158 | sets the paused flag |
| Uploader.Scheduler.Resume | client/src/hooks/useUploader.js:160-172 | clears the paused flag, rebuilds the queue from the pending and error entries, and starts the first min(free slots, queue length) of them |
| Uploader.Scheduler.OnChunksChanged | client/src/hooks/useUploader.js:28-37 | the notification fires exactly when the table is non-empty, all entries are success, and it has not fired yet for this upload; afterwards the guard is set |
| Schema.UnfinishedIsEmptyIffAllReceived | server/src/controllers/uploadController.js:79-85 | the remaining count is 0 exactly when every chunk 0 .. totalChunks-1 of the session has a SUCCESS row |
| Schema.RowCount | server/src/controllers/uploadController.js:27-33 | in a valid store every session has exactly totalChunks chunk rows |
| Schema.UnfinishedRows | server/src/controllers/uploadController.js:79-83 | the rows the `COUNT(*) ... status!='SUCCESS'` query counts; UnfinishedIsEmptyIffAllReceived and ReceiveFinalisesIffComplete state that the count is zero exactly when every chunk is SUCCESS |
| Schema.AllReceived | server/src/controllers/uploadController.js:85 | every chunk 0 .. totalChunks-1 of the session has a SUCCESS row, the condition finalisation is meant to start on; UnfinishedIsEmptyIffAllReceived ties it to the count |
| Schema.RowsOf | server/src/controllers/uploadController.js:27-33 | the chunk rows of one session; RowCount states there are exactly totalChunks of them |
| Schema.FileOf | server/src/controllers/uploadController.js:60-63 | the backing file as a write sees it, created empty when absent; WriteChunk and ReceiveWritesAtOffset write into it |
| UploadController.WriteAt | server/src/controllers/uploadController.js:66-69 | a positional write puts the buffer at the offset, keeps every other byte, zero-fills a gap and grows the file only as far as the write reaches |
| UploadController.InitCreatesSession | server/src/controllers/uploadController.js:16-36 | a new session row is UPLOADING with totalChunks = ceil(size / CHUNK_SIZE); its chunk rows are exactly indices 0 .. totalChunks-1, all PENDING; the reply lists no received chunks; nothing else changes; a taken id changes nothing |
| UploadController.InitPreservesValid | server/src/controllers/uploadController.js:16-36 | session creation keeps the store invariant and moves nothing backwards |
| UploadController.ReceivePreservesValid | server/src/controllers/uploadController.js:38-94 | the chunk handler keeps the store invariant on every path, including each failing statement |
| UploadController.ReceiveTouchesOneRow | server/src/controllers/uploadController.js:55-76 | the handler touches no session row, adds or deletes no chunk row, changes only the row it was sent, and never turns a SUCCESS row back |
| UploadController.ReceiveRejects | server/src/controllers/uploadController.js:39-53 | a missing payload gives 400, an unknown session or index gives 500, and neither changes anything |
| UploadController.ReceiveAfterSuccess | server/src/controllers/uploadController.js:55-57 | a chunk already SUCCESS answers 200 and changes nothing, whatever bytes arrive |
| UploadController.ReceiveIdempotent | server/src/controllers/uploadController.js:55-76 | once a chunk request got past its status update, sending that chunk again with any bytes answers 200 and changes no file, row or receipt time |
| UploadController.ReceiveWritesAtOffset | server/src/controllers/uploadController.js:59-76 | a chunk not yet received lands at index * CHUNK_SIZE with every other byte and every other file kept; its row becomes SUCCESS with the receipt time unless the update fails; the answer is 200 only when no statement failed |
| UploadController.ReceiveFinalisesIffComplete | server/src/controllers/uploadController.js:78-87 | finalisation is requested exactly when the write and both queries succeeded and every chunk of the session is SUCCESS afterwards |
| UploadController.CompleteSessionNeverRetriggers | server/src/controllers/uploadController.js:55-57 | once all chunks of a session are SUCCESS, no further chunk request requests finalisation |
| FinaliseService.FinalisePreservesValid | server/src/services/finaliseService.js:9-86 | finalisation keeps the store invariant and moves the status only forward |
| FinaliseService.FinaliseOutcome | server/src/services/finaliseService.js:9-86 | only an UPLOADING session is claimed and hashed; it ends COMPLETED with the file's digest and a completion time exactly when the file exists and hashes, and FAILED with no hash otherwise; no other row, chunk or file changes, and a session that cannot be claimed is untouched |
| FinaliseService.FinaliseAtMostOnce | server/src/services/finaliseService.js:19-28 | a second finalisation after the first changes nothing and hashes nothing |
| FinaliseService.TerminalStaysTerminal | server/src/services/finaliseService.js:19-23 | a COMPLETED or FAILED session is left as it is |
| CleanupService.SweepUntouched | server/src/services/cleanupService.js:21-43 | a session the sweep does not visit keeps its row, its chunk rows and its file |
| CleanupService.SweepRemoves | server/src/services/cleanupService.js:26-35 | a visited session whose transaction commits loses its row and all of its chunk rows, and its file unless the unlink failed |
| CleanupService.SweepRollsBack | server/src/services/cleanupService.js:30-39 | a failed delete transaction leaves the session row and all of its chunk rows as they were; only the file may be gone |
| CleanupService.SweepOnePreservesValid | server/src/services/cleanupService.js:24-39 | one sweep step keeps the store invariant: no chunk row is orphaned |
| CleanupService.SweepPreservesValid | server/src/services/cleanupService.js:21-43 | the whole sweep keeps the store invariant, moves nothing backwards and only removes sessions |
| CleanupService.StaleScenario | server/src/services/cleanupService.js:11-19 | a session that is UPLOADING and was last updated 25 hours ago is selected; one updated an hour ago, or a COMPLETED or FAILED one, is not |
| UploadController.InitSpec | server/src/controllers/uploadController.js:16-36 | the session-creation step as a function of the store; its contract is carried by InitCreatesSession (what it creates, and that a taken id changes nothing) and InitPreservesValid (invariant and Forward) |
| UploadController.FreshRows | server/src/controllers/uploadController.js:27-33 | the inserted rows, PENDING for indices 0 .. n-1; FreshRowsAt states exactly its keys and values |
| UploadController.ReceiveSpec | server/src/controllers/uploadController.js:38-94 | the chunk handler as a function of the store, payload and fault; its contract is carried by ReceiveRejects, ReceiveAfterSuccess, ReceiveWritesAtOffset, ReceiveFinalisesIffComplete, ReceiveIdempotent, ReceivePreservesValid and ReceiveTouchesOneRow |
| FinaliseService.FinaliseSpec | server/src/services/finaliseService.js:9-86 | finalisation as one step; its contract is carried by FinaliseOutcome, FinalisePreservesValid, FinaliseAtMostOnce and TerminalStaysTerminal |
| FinaliseService.Claimable | server/src/services/finaliseService.js:19 | the negation of the guard `!upload \|\| upload.status !== "UPLOADING"`; FinaliseOutcome states that exactly a claimable session is hashed, and FinaliseAtMostOnce that it is no longer claimable afterwards |
| FinaliseService.Claimed | server/src/services/finaliseService.js:25-28 | the claimed row is PROCESSING; FinaliseOutcome states that name, size and chunk count are kept |
| FinaliseService.Concluded | server/src/services/finaliseService.js:48-85 | the concluded row is COMPLETED with hash and completion time, or FAILED without them; stated by FinaliseOutcome |
| FinaliseService.Digest | server/src/services/finaliseService.js:33-47 | the hash of the backing file, or a failure when the file is missing or unreadable; FinaliseOutcome states COMPLETED exactly when it succeeds |
| CleanupService.IsStale | server/src/services/cleanupService.js:13-16 | the selecting condition: UPLOADING or PROCESSING, last updated more than 24 hours ago; its cases are stated by StaleScenario |
| CleanupService.StaleIds | server/src/services/cleanupService.js:11-19 | the ids the selecting query returns; CleanupStaleUploads visits only these, and ReceiptKeepsStaleness states that chunk receipt does not change them |
| CleanupService.SweepOne | server/src/services/cleanupService.js:24-39 | one loop iteration; its contract is carried by SweepOnePreservesValid, and through Sweep by SweepRemoves and SweepRollsBack |
| CleanupService.RowsWithout | server/src/services/cleanupService.js:32 | `DELETE FROM chunks WHERE upload_id = id`; SweepRemoves states no row of the session remains and SweepUntouched that every other session's rows stay |
| CleanupService.Sweep | server/src/services/cleanupService.js:21-43 | the loop over the visited ids; its contract is carried by SweepUntouched, SweepRemoves, SweepRollsBack and SweepPreservesValid |
| SessionStore.Server.InitUpload | server/src/controllers/uploadController.js:16-36 | the in-place inserts reach exactly the state and reply InitSpec describes, keeping the invariant |
| SessionStore.Server.InsertChunkRows | server/src/controllers/uploadController.js:27-33 | the insert loop adds exactly the PENDING rows 0 .. n-1 of the session |
| SessionStore.Server.ChunkReceiver | server/src/controllers/uploadController.js:38-94 | the handler's statements, in order, reach exactly the state, status code and finalise request ReceiveSpec describes, keeping the invariant |
| SessionStore.Server.WriteChunk | server/src/controllers/uploadController.js:59-69 | creates the backing file if it is missing, then performs the positional write on it; no other file changes |
| SessionStore.Server.Claim | server/src/services/finaliseService.js:11-31 | the claim succeeds exactly on an UPLOADING session and then moves it to PROCESSING; otherwise it rolls back and nothing changes |
| SessionStore.Server.Conclude | server/src/services/finaliseService.js:33-85 | after hashing, the row becomes FAILED, or COMPLETED with the digest and the completion time |
| SessionStore.Server.FinaliseUpload | server/src/services/finaliseService.js:9-86 | claim, then hash only if claimed, reaching exactly FinaliseSpec's state while keeping the invariant |
| SessionStore.Server.RemoveSession | server/src/services/cleanupService.js:24-39 | one loop iteration of the sweep: the state SweepOne describes |
| SessionStore.Server.CleanupStaleUploads | server/src/services/cleanupService.js:8-46 | visits distinct stale sessions only; it stops early (`aborted`) only at a stale, unvisited session whose connection fails, and otherwise visits them all; the result is the sweep of the visited ids, keeping the invariant |
| EndToEnd.AssembleAgrees | server/src/controllers/uploadController.js:66-69 | writing the client's slices at the server's offsets, in any order, keeps every written chunk's bytes equal to the client's |
| EndToEnd.Assemble | server/src/controllers/uploadController.js:66-69 | the backing file after the server wrote the client's slice of each chunk in the given order; AssembleAgrees and AssembleAnyOrder state what it holds |
| EndToEnd.AssembleAnyOrder | server/src/controllers/uploadController.js:66-69 | once every chunk has been written, in any order and with repeats, the backing file equals the client's file |
| EndToEnd.ReceiptKeepsStaleness | server/src/services/cleanupService.js:11-19 | receiving a chunk never changes which sessions the sweep selects, because staleness is measured from the session row, which receipt does not update |

## Left out

- **Speed, ETA and the start-time ref** (`setSpeed`, `setEta`): these are floating-point throughput figures from the wall clock. Nothing else depends on them.
- **The backoff delay** (`setTimeout(2 ** attempt * 1000)`): this is timing only. The model runs the retry loop as one atomic step, and its outcomes are a parameter.
- **Concurrency and asynchronous interleaving**:
  - The model holds no stale React closures. The source's `schedule` and `resume` read `isPaused` and `chunks` from the render that created them. The model reads the current scheduler state instead. In the hook as written this has two consequences the model does not show. First, `resume` is only reachable while `isPaused` is true, and its three `schedule()` calls see that captured `true` and start nothing. Second, chains of `schedule()` started before a pause captured `false` and keep dequeuing after it. So "Schedule is a no-op when paused" holds of the model's scheduler, not of the hook's pause and resume.
  - Overlapping handlers, racing `finaliseUpload` calls and MySQL `FOR UPDATE` locking are not modelled. Every handler and every transaction is one atomic step.
  - The `schedule()` re-entry after a transfer settles is a separate `Schedule` call made by the caller.
- Uploader.Progress: the source divides in floating point and then rounds. The model rounds the exact rational 100 * uploaded / size, halves up. This can be one higher than the source's result when that quotient is exactly a half and the floating-point product falls just below it (a 209715200-byte file after 120586240 bytes: the source shows 57, the model 58). The model sets progress only when the file size is positive. A file size of 0 at that point arises only from a transfer left over from the previous file: the source would then show Infinity (NaN if the settled blob is empty), and the model leaves progress unchanged.
- **The hook's other controls**: `cancel`, `retryFailed` and any status query do not exist in the hook as written, so they are not part of this model.
- **API calls and the notification library**: the `initUpload`/`uploadChunk` HTTP calls and the toast library are not modelled. The server's reply is the `InitReply` parameter, each attempt's outcome is a boolean, and a toast is the `fired` result.
- **Defaulting `receivedChunks` to an empty array**: the reply is modelled as always carrying the list.
- **SHA-256 and file streaming**: these are a parameter function returning a digest or a failure. A missing backing file counts as a failure.
- **The archive peek between hashing and the final update**: it swallows every error and changes no state, so it is not modelled.
- **Database failures not listed here**:
  - Modelled: the three chunk-handler statements (`DbFault`), and in the sweep the connection, the unlink and the delete transaction (`Faults`).
  - Not modelled in `initUpload`: a failure part-way through the chunk-row inserts.
  - Not modelled in `finaliseUpload`: connection and select failures, and a failure of the FAILED or COMPLETED update.
  - Not modelled in the sweep: failure of the selecting query, and a failing `conn.rollback()` in the error handler, which in the source would leave the loop and end the sweep like a connection failure; in the model a failed transaction always lets the sweep go on.
  - Not modelled anywhere: failure to create the backing file.
- **The write stream**: the source does not wait for its positional write to flush before updating the chunk row. The model completes the write first. A failing positional write is not modelled either: the stream has no `error` listener and is not awaited, so in the source the row is marked SUCCESS even when the write fails, while in the model every write succeeds.
- **Request parsing**: a request whose `size` or `chunkIndex` is not a number is not modelled. Sizes are `nat`, and indices are `int` looked up as row keys.
- **The table schema**: it is not part of this model. The model assumes three things about it:
  - new rows default to UPLOADING and PENDING;
  - `updated_at` is refreshed on every update of a session row;
  - a repeated session id makes the first insert fail, which is modelled as `Rejected`.
- CleanupService.StaleIds: MySQL's `NOW() - INTERVAL 24 HOUR` is modelled as `now - 86400` on second timestamps.
