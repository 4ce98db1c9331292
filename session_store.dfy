/** The server's session store as an object: the `uploads` and `chunks`
    tables and the backing files are fields that the request handlers, the
    finaliser and the sweep update in place. Each method does what its
    source does statement by statement and is proved to produce the state
    the matching function of UploadController, FinaliseService or
    CleanupService describes; the lemmas there state what those functions
    guarantee. */
module SessionStore {
  import opened Protocol
  import opened Schema
  import opened UploadController
  import opened FinaliseService
  import opened CleanupService

  class Server {
    var uploads: map<Id, Upload>
    var chunks: map<(Id, int), ChunkRow>
    var files: map<Id, seq<byte>>

    /** The current contents of the store as a value. */
    function Snap(): Store
      reads this
    {
      Store(uploads, chunks, files)
    }

    ghost predicate Valid()
      reads this
    {
      Schema.Valid(Snap())
    }

    constructor ()
      ensures Valid() && Snap() == Store(map[], map[], map[])
    {
      uploads, chunks, files := map[], map[], map[];
    }

    /** `initUpload`: insert the session row, then one chunk row per index. */
    method InitUpload(id: Id, filename: string, size: nat, now: int) returns (reply: InitReply)
      requires Valid()
      modifies this`uploads, this`chunks
      ensures Valid() && Forward(old(Snap()), Snap())
      ensures (Snap(), reply) == InitSpec(old(Snap()), id, filename, size, now)
    {
      if id in uploads {
        reply := Rejected;
      } else {
        var n := TotalChunks(size);
        uploads := uploads[id := Upload(filename, size, n, Uploading, None, now, None)];
        InsertChunkRows(id, n);
        reply := Created(id, []);
      }
      assert Valid() && Forward(old(Snap()), Snap()) by {
        InitPreservesValid(old(Snap()), id, filename, size, now);
      }
    }

    /** The loop of `initUpload` that inserts one PENDING chunk row per index
        0 .. n-1. */
    method InsertChunkRows(id: Id, n: nat)
      modifies this`chunks
      ensures chunks == old(chunks) + FreshRows(id, n)
    {
      var i := 0;
      while i < n
        invariant 0 <= i <= n
        invariant chunks == old(chunks) + FreshRows(id, i)
      {
        FreshRowsStep(old(chunks), id, i);
        chunks := chunks[(id, i) := ChunkRow(Pending, None)];
        i := i + 1;
      }
    }

    /** `chunkReceiver`: the payload check, the idempotency lookup, the
        write into the backing file, the status update and the count of
        unfinished rows, in that order. */
    method ChunkReceiver(payload: Option<seq<byte>>, id: Id, index: int, now: int, fault: DbFault)
      returns (ack: Ack, finalise: bool)
      requires Valid()
      modifies this`files, this`chunks
      ensures Valid() && Forward(old(Snap()), Snap())
      ensures Received(Snap(), ack, finalise) == ReceiveSpec(old(Snap()), payload, id, index, now, fault)
    {
      ack, finalise := ServerError, false;
      if payload.None? {
        ack := BadRequest;
      } else if fault != LookupFails && (id, index) in chunks {
        if chunks[(id, index)].state == Success {
          ack := Ok;
        } else {
          WriteChunk(id, SliceStart(index as nat), payload.value);
          if fault != UpdateFails {
            chunks := chunks[(id, index) := ChunkRow(Success, Some(now))];
            if fault != CountFails {
              var remaining := |UnfinishedRows(chunks, id)|;
              finalise := remaining == 0;
              ack := Ok;
            }
          }
        }
      }
      ghost var r := ReceiveSpec(old(Snap()), payload, id, index, now, fault);
      assert Received(Snap(), ack, finalise) == r;
      ReceivePreservesValid(old(Snap()), payload, id, index, now, fault);
      ReceiveTouchesOneRow(old(Snap()), payload, id, index, now, fault);
    }

    /** Create the backing file of session `id` if it does not exist, then
        write `buf` into it at byte offset `off`. */
    method WriteChunk(id: Id, off: nat, buf: seq<byte>)
      modifies this`files
      ensures files == old(files)[id := WriteAt(FileOf(old(Snap()), id), off, buf)]
    {
      if id !in files {
        files := files[id := []];
      }
      files := files[id := WriteAt(files[id], off, buf)];
    }

    /** The claim transaction: lock the session row and move it from
        UPLOADING to PROCESSING; any other status (or no row) is rolled back
        untouched. */
    method Claim(id: Id, now: int) returns (claimed: bool)
      requires Valid()
      modifies this`uploads
      ensures Valid()
      ensures claimed == Claimable(old(Snap()), id)
      ensures claimed ==> uploads == old(uploads)[id := Claimed(old(uploads)[id], now)]
      ensures !claimed ==> uploads == old(uploads)
    {
      if id !in uploads || uploads[id].status != Uploading {
        return false;
      }
      ReplaceUpload(Snap(), id, Claimed(uploads[id], now));
      uploads := uploads[id := Claimed(uploads[id], now)];
      claimed := true;
    }

    /** After the claim: hash the backing file, then record FAILED, or
        COMPLETED with the digest and the completion time. */
    method Conclude(id: Id, sha: seq<byte> -> Option<string>, now: int)
      requires Valid() && id in uploads && uploads[id].status == Processing
      modifies this`uploads
      ensures Valid()
      ensures uploads == old(uploads)[id := Concluded(old(uploads)[id], Digest(old(Snap()), id, sha), now)]
    {
      var digest := if id in files then sha(files[id]) else None;
      ReplaceUpload(Snap(), id, Concluded(uploads[id], digest, now));
      match digest {
        case None =>
          uploads := uploads[id := uploads[id].(status := Failed, updatedAt := now)];
        case Some(h) =>
          uploads := uploads[id := uploads[id].(status := Completed, finalHash := Some(h),
                                                 completedAt := Some(now), updatedAt := now)];
      }
    }

    /** `finaliseUpload`: the claim, and the hashing only when the claim
        succeeded; `hashed` tells whether the file was hashed. */
    method FinaliseUpload(id: Id, sha: seq<byte> -> Option<string>, now: int) returns (hashed: bool)
      requires Valid()
      modifies this`uploads
      ensures Valid() && Forward(old(Snap()), Snap())
      ensures Finalised(Snap(), hashed) == FinaliseSpec(old(Snap()), id, sha, now)
    {
      hashed := Claim(id, now);
      if hashed {
        Conclude(id, sha, now);
      }
      ghost var r := FinaliseSpec(old(Snap()), id, sha, now);
      assert Finalised(Snap(), hashed) == r;
      FinalisePreservesValid(old(Snap()), id, sha, now);
    }

    /** `cleanupStaleUploads`: select the stale sessions, then for each one
        unlink the file and delete its rows in a transaction. `visited` are
        the ids processed, in order; `aborted` tells that a connection could
        not be had, which ends the sweep. */
    method CleanupStaleUploads(now: int, faults: Faults) returns (visited: seq<Id>, aborted: bool)
      requires Valid()
      modifies this
      ensures Valid() && Forward(old(Snap()), Snap())
      ensures Snap() == Sweep(old(Snap()), visited, faults)
      ensures forall i, j :: 0 <= i < j < |visited| ==> visited[i] != visited[j]
      ensures forall id :: id in visited ==> id in StaleIds(old(Snap()), now)
      ensures forall id :: id in visited ==> id !in faults.noConnection
      ensures !aborted ==> forall id :: id in StaleIds(old(Snap()), now) ==> id in visited
      ensures aborted ==>
        exists id :: id in StaleIds(old(Snap()), now) && id !in visited && id in faults.noConnection
    {
      var pending := StaleIds(Snap(), now);
      ghost var selected := pending;
      visited, aborted := [], false;
      while pending != {}
        invariant pending <= selected && !aborted
        invariant Snap() == Sweep(old(Snap()), visited, faults)
        invariant forall id :: id in visited <==> id in selected && id !in pending
        invariant forall id :: id in visited ==> id !in faults.noConnection
        invariant forall i, j :: 0 <= i < j < |visited| ==> visited[i] != visited[j]
        decreases |pending|
      {
        var id :| id in pending;
        if id in faults.noConnection {
          assert id in selected && id !in visited;
          aborted := true;
          break;
        }
        RemoveSession(id, faults);
        assert (visited + [id])[..|visited|] == visited;
        pending := pending - {id};
        visited := visited + [id];
      }
      SweepPreservesValid(old(Snap()), visited, faults);
    }

    /** The loop body of the sweep for one id: unlink the file (a failure
        leaves it), then delete the chunk rows and the session row in one
        transaction (a failure rolls both back). */
    method RemoveSession(id: Id, faults: Faults)
      modifies this
      ensures Snap() == SweepOne(old(Snap()), id, faults)
    {
      if id in files && id !in faults.unlinkFails {
        files := files - {id};
      }
      if id !in faults.txFails {
        chunks := RowsWithout(chunks, id);
        uploads := uploads - {id};
      }
    }
  }
}
