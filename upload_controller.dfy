/** The two request handlers of the upload controller, as functions from
    the store before the request to the store after it and the answer sent:
    `InitSpec` establishes a session with all its chunk rows, `ReceiveSpec`
    takes one chunk, writes it at its offset into the backing file, marks
    its row SUCCESS and reports whether finalisation is to start.

    Each handler runs as one atomic step. Database failures inside the
    chunk handler are the `DbFault` parameter. */
module UploadController {
  import opened Protocol
  import opened Schema

  /** HTTP status of the chunk handler's answer: 200, 400 or 500. */
  datatype Ack = Ok | BadRequest | ServerError

  /** Which database statement of the chunk handler fails, if any. */
  datatype DbFault = NoFault | LookupFails | UpdateFails | CountFails

  datatype Received = Received(store: Store, ack: Ack, finalise: bool)

  function Zeros(n: nat): (z: seq<byte>)
    ensures |z| == n && forall k :: 0 <= k < n ==> z[k] == 0
  {
    seq(n, _ => 0)
  }

  /** A positional write of `buf` at `off` into a file opened for update: the
      file grows to cover the write, a gap before `off` reads as zeros, and
      an empty write leaves the file alone. */
  function WriteAt(f: seq<byte>, off: nat, buf: seq<byte>): (g: seq<byte>)
    ensures |g| == if buf == [] then |f| else Max(|f|, off + |buf|)
    ensures forall k :: 0 <= k < |g| ==>
      g[k] == if off <= k < off + |buf| then buf[k - off] else if k < |f| then f[k] else 0
  {
    if buf == [] then f
    else
      var padded := if off <= |f| then f else f + Zeros(off - |f|);
      padded[..off] + buf + (if off + |buf| < |padded| then padded[off + |buf|..] else [])
  }

  /** The chunk rows inserted for a new session: indices 0 .. n-1, PENDING. */
  function FreshRows(id: Id, n: nat): map<(Id, int), ChunkRow>
  {
    map i | 0 <= i < n :: (id, i) := ChunkRow(Pending, None)
  }

  /** Adding the row of index i to the rows 0 .. i-1 gives the rows 0 .. i. */
  lemma FreshRowsStep(chunks: map<(Id, int), ChunkRow>, id: Id, i: nat)
    ensures (chunks + FreshRows(id, i))[(id, i) := ChunkRow(Pending, None)] == chunks + FreshRows(id, i + 1)
  {
    assert FreshRows(id, i + 1) == FreshRows(id, i)[(id, i) := ChunkRow(Pending, None)];
  }

  /** `initUpload`: a session row with total_chunks = ceil(size / CHUNK_SIZE)
      and status UPLOADING, and one PENDING row per chunk. An id that is
      already taken makes the first insert fail: nothing changes and no
      session is reported. */
  function InitSpec(s: Store, id: Id, filename: string, size: nat, now: int): (Store, InitReply)
  {
    if id in s.uploads then (s, Rejected)
    else
      var n := TotalChunks(size);
      (s.(uploads := s.uploads[id := Upload(filename, size, n, Uploading, None, now, None)],
          chunks := s.chunks + FreshRows(id, n)),
       Created(id, []))
  }

  /** The session a successful `initUpload` creates: chunk rows for exactly
      the indices 0 .. total_chunks-1, all PENDING, an empty list of received
      chunks in the answer, and nothing else changed. A taken id changes
      nothing. */
  lemma InitCreatesSession(s: Store, id: Id, filename: string, size: nat, now: int)
    requires Valid(s)
    ensures var (t, reply) := InitSpec(s, id, filename, size, now);
      (id in s.uploads ==> t == s && reply == Rejected)
      && (id !in s.uploads ==>
            reply == Created(id, [])
            && t.uploads == s.uploads[id := Upload(filename, size, TotalChunks(size), Uploading, None, now, None)]
            && (forall i :: HasRow(t, id, i) <==> 0 <= i < TotalChunks(size))
            && (forall i :: 0 <= i < TotalChunks(size) ==> t.chunks[(id, i)] == ChunkRow(Pending, None))
            && (forall k :: k in s.chunks ==> k in t.chunks && t.chunks[k] == s.chunks[k])
            && (forall k :: k in t.chunks && k.0 != id ==> k in s.chunks)
            && t.files == s.files)
  {
    if id !in s.uploads {
      var n := TotalChunks(size);
      var c := s.chunks + FreshRows(id, n);
      FreshRowsAt(id, n);
      forall k | k in s.chunks ensures k !in FreshRows(id, n) && c[k] == s.chunks[k] {
        assert k.0 in s.uploads;
      }
      forall i | (id, i) in c ensures 0 <= i < n {
        assert (id, i) !in s.chunks;
      }
    }
  }

  /** `initUpload` keeps the store invariant and moves nothing backwards. */
  lemma InitPreservesValid(s: Store, id: Id, filename: string, size: nat, now: int)
    requires Valid(s)
    ensures var t := InitSpec(s, id, filename, size, now).0;
      Valid(t) && Forward(s, t)
  {
    if id !in s.uploads {
      var t := InitSpec(s, id, filename, size, now).0;
      var n := TotalChunks(size);
      WithFreshRows(s.chunks, id, n);
      forall j, i | j in t.uploads && 0 <= i < t.uploads[j].totalChunks
        ensures HasRow(t, j, i)
      {
        if j != id {
          assert HasRow(s, j, i);
        }
      }
    }
  }

  /** Adding the rows of a session that has none yet keeps every other row
      and adds exactly the new session's PENDING rows. */
  lemma WithFreshRows(chunks: map<(Id, int), ChunkRow>, id: Id, n: nat)
    requires forall k :: k in chunks ==> k.0 != id
    ensures forall k :: k in chunks + FreshRows(id, n) <==> k in chunks || (k.0 == id && 0 <= k.1 < n)
    ensures forall k :: k in chunks ==> (chunks + FreshRows(id, n))[k] == chunks[k]
    ensures forall k :: k in chunks + FreshRows(id, n) && k !in chunks ==>
      (chunks + FreshRows(id, n))[k] == ChunkRow(Pending, None)
  {
    FreshRowsAt(id, n);
  }

  /** The keys and values of `FreshRows`. */
  lemma FreshRowsAt(id: Id, n: nat)
    ensures forall k :: k in FreshRows(id, n) <==> k.0 == id && 0 <= k.1 < n
    ensures forall k :: k in FreshRows(id, n) ==> FreshRows(id, n)[k] == ChunkRow(Pending, None)
  {
    forall k: (Id, int) | k.0 == id && 0 <= k.1 < n ensures k in FreshRows(id, n) {
      assert k == (id, k.1);
    }
  }

  /** `chunkReceiver`. No payload: 400 and nothing changes. An unknown
      session or index finds no row, so reading its status throws: 500 and
      nothing changes. A row already SUCCESS: 200 and nothing changes.
      Otherwise the payload is written at index * CHUNK_SIZE (the file is
      created if absent), the row is marked SUCCESS, and finalisation is
      requested when no row of the session is left unfinished. A failing
      statement gives 500 and keeps what the statements before it did. */
  function ReceiveSpec(s: Store, payload: Option<seq<byte>>, id: Id, index: int, now: int,
                       fault: DbFault): Received
    requires Valid(s)
  {
    if payload.None? then Received(s, BadRequest, false)
    else if fault == LookupFails || (id, index) !in s.chunks then Received(s, ServerError, false)
    else if s.chunks[(id, index)].state == Success then Received(s, Ok, false)
    else
      var written := s.(files := s.files[id := WriteAt(FileOf(s, id), SliceStart(index as nat), payload.value)]);
      if fault == UpdateFails then Received(written, ServerError, false)
      else
        var marked := written.(chunks := written.chunks[(id, index) := ChunkRow(Success, Some(now))]);
        if fault == CountFails then Received(marked, ServerError, false)
        else Received(marked, Ok, |UnfinishedRows(marked.chunks, id)| == 0)
  }

  /** The chunk handler keeps the store invariant. */
  lemma ReceivePreservesValid(s: Store, payload: Option<seq<byte>>, id: Id, index: int, now: int,
                              fault: DbFault)
    requires Valid(s)
    ensures Valid(ReceiveSpec(s, payload, id, index, now, fault).store)
  {
    if payload.Some? && fault != LookupFails && HasRow(s, id, index)
       && s.chunks[(id, index)].state != Success {
      var written := s.(files := s.files[id := WriteAt(FileOf(s, id), SliceStart(index as nat), payload.value)]);
      ReplaceFiles(s, written.files);
      ReplaceRow(written, (id, index), ChunkRow(Success, Some(now)));
    }
  }

  /** The chunk handler never moves a session or a SUCCESS chunk row
      backwards; it touches no session row, adds or deletes no chunk row, and
      changes no chunk row other than the one it was sent. */
  lemma ReceiveTouchesOneRow(s: Store, payload: Option<seq<byte>>, id: Id, index: int, now: int,
                             fault: DbFault)
    requires Valid(s)
    ensures var r := ReceiveSpec(s, payload, id, index, now, fault);
      Forward(s, r.store) && r.store.uploads == s.uploads
      && r.store.chunks.Keys == s.chunks.Keys
      && (forall k :: k in s.chunks && k != (id, index) ==> r.store.chunks[k] == s.chunks[k])
  {
    var r := ReceiveSpec(s, payload, id, index, now, fault);
    if HasRow(s, id, index) && s.chunks[(id, index)].state == Success {
      assert r.store == s;
    } else {
      ForwardOneRow(s, r.store, (id, index));
    }
  }

  /** Rejected requests change nothing: a missing payload is a 400, an
      unknown session or chunk a 500 (not a 400). */
  lemma ReceiveRejects(s: Store, payload: Option<seq<byte>>, id: Id, index: int, now: int,
                       fault: DbFault)
    requires Valid(s)
    requires payload.None? || (id, index) !in s.chunks
    ensures var r := ReceiveSpec(s, payload, id, index, now, fault);
      r.store == s && !r.finalise
      && r.ack == if payload.None? then BadRequest else ServerError
  {
  }

  /** The idempotent path: a request for a chunk that is already SUCCESS
      answers 200 and changes nothing, whatever bytes it carries. */
  lemma ReceiveAfterSuccess(s: Store, buf: seq<byte>, id: Id, index: int, now: int, fault: DbFault)
    requires Valid(s) && HasRow(s, id, index) && s.chunks[(id, index)].state == Success
    requires fault != LookupFails
    ensures ReceiveSpec(s, Some(buf), id, index, now, fault) == Received(s, Ok, false)
  {
  }

  /** Idempotent receipt: once a request for a chunk got past the status
      update (it answered 200, or only the count that follows failed),
      sending the chunk again, with any bytes, answers 200 and changes
      nothing (file, row, receipt time). */
  lemma ReceiveIdempotent(s: Store, first: seq<byte>, again: seq<byte>, id: Id, index: int,
                          now: int, later: int, fault1: DbFault, fault: DbFault)
    requires Valid(s) && HasRow(s, id, index)
    requires fault1 == NoFault || fault1 == CountFails
    requires fault != LookupFails
    ensures var r1 := ReceiveSpec(s, Some(first), id, index, now, fault1);
      Valid(r1.store)
      && ReceiveSpec(r1.store, Some(again), id, index, later, fault) == Received(r1.store, Ok, false)
  {
    ReceivePreservesValid(s, Some(first), id, index, now, fault1);
    var r1 := ReceiveSpec(s, Some(first), id, index, now, fault1);
    assert HasRow(r1.store, id, index) && r1.store.chunks[(id, index)].state == Success;
    ReceiveAfterSuccess(r1.store, again, id, index, later, fault);
  }

  /** A chunk not yet received is written at offset index * CHUNK_SIZE: the
      bytes of the payload land there, and every other byte of the file
      stays what it was. Unless the status update fails, the row is then
      SUCCESS with the receipt time. */
  lemma ReceiveWritesAtOffset(s: Store, buf: seq<byte>, id: Id, index: int, now: int,
                              fault: DbFault)
    requires Valid(s) && HasRow(s, id, index) && s.chunks[(id, index)].state != Success
    requires fault != LookupFails
    ensures index >= 0
    ensures var r := ReceiveSpec(s, Some(buf), id, index, now, fault);
      var off := SliceStart(index as nat);
      id in r.store.files
      && (forall j :: 0 <= j < |buf| ==> r.store.files[id][off + j] == buf[j])
      && (forall k :: 0 <= k < |FileOf(s, id)| && !(off <= k < off + |buf|) ==>
            r.store.files[id][k] == FileOf(s, id)[k])
      && (forall j :: j in s.files && j != id ==> j in r.store.files && r.store.files[j] == s.files[j])
      && (fault != UpdateFails <==> r.store.chunks[(id, index)] == ChunkRow(Success, Some(now)))
      && (fault == NoFault <==> r.ack == Ok)
  {
    var f := FileOf(s, id);
    var off := SliceStart(index as nat);
    var g := WriteAt(f, off, buf);
    forall j | 0 <= j < |buf| ensures g[off + j] == buf[j] {
      assert off + j < |g|;
    }
    forall k | 0 <= k < |f| && !(off <= k < off + |buf|) ensures g[k] == f[k] {
      assert k < |g|;
    }
  }

  /** Finalisation is requested exactly when the write went through and no
      chunk row of the session is left unfinished afterwards. */
  lemma ReceiveFinalisesIffComplete(s: Store, payload: Option<seq<byte>>, id: Id, index: int,
                                    now: int, fault: DbFault)
    requires Valid(s)
    ensures var r := ReceiveSpec(s, payload, id, index, now, fault);
      r.finalise <==>
        payload.Some? && fault == NoFault && HasRow(s, id, index)
        && s.chunks[(id, index)].state != Success && AllReceived(r.store, id)
  {
    var r := ReceiveSpec(s, payload, id, index, now, fault);
    if payload.Some? && fault == NoFault && HasRow(s, id, index) && s.chunks[(id, index)].state != Success {
      ReceivePreservesValid(s, payload, id, index, now, fault);
      UnfinishedIsEmptyIffAllReceived(r.store, id);
    }
  }

  /** Once every chunk of a session is SUCCESS, no later chunk request for
      it requests finalisation: if the remaining-count query fails right
      after the last chunk is marked, the retries the client sends take the
      idempotent path and the session stays UPLOADING. */
  lemma CompleteSessionNeverRetriggers(s: Store, payload: Option<seq<byte>>, id: Id, index: int,
                                       now: int, fault: DbFault)
    requires Valid(s) && id in s.uploads && AllReceived(s, id)
    ensures !ReceiveSpec(s, payload, id, index, now, fault).finalise
  {
    if payload.Some? && fault != LookupFails && HasRow(s, id, index) {
      assert 0 <= index < s.uploads[id].totalChunks;
    }
  }
}
