/** The two halves together: the client slices chunk i as the byte range
    [i * CHUNK_SIZE, min(i * CHUNK_SIZE + CHUNK_SIZE, size)), and the server
    writes the payload of chunk i at offset i * CHUNK_SIZE of the backing
    file. Whatever order the chunks arrive in, and however often one is
    written, once every chunk has been written the backing file is the
    client's file. And the sweep's time-to-live runs from the session
    row's last update, which chunk receipt never touches. */
module EndToEnd {
  import opened Protocol
  import opened Schema
  import opened UploadController
  import opened CleanupService

  /** The backing file, starting from nothing, after the server wrote the
      client's slice of each chunk in `order`, one after the other. */
  function Assemble(file: seq<byte>, order: seq<nat>): seq<byte>
  {
    if order == [] then []
    else
      var i := order[|order| - 1];
      WriteAt(Assemble(file, order[..|order| - 1]), SliceStart(i), Slice(file, i))
  }

  /** The backing file `a` is consistent with the client's file for the
      chunks in `written`: it is no longer than the file, it reaches at
      least to the end of each written chunk, and each byte of a written
      chunk is the client's byte. */
  ghost predicate Agrees(file: seq<byte>, a: seq<byte>, written: seq<nat>)
  {
    |a| <= |file|
    && (forall i :: i in written ==> SliceEnd(i, |file|) <= |a|)
    && (forall b :: 0 <= b < |a| && ChunkOf(b) in written ==> a[b] == file[b])
  }

  /** Writing one more of the file's chunks at its offset keeps the backing
      file consistent, now for that chunk too. */
  lemma WriteKeepsAgreement(file: seq<byte>, a: seq<byte>, written: seq<nat>, i: nat)
    requires Agrees(file, a, written) && i < TotalChunks(|file|)
    ensures Agrees(file, WriteAt(a, SliceStart(i), Slice(file, i)), written + [i])
  {
    var s := Slice(file, i);
    var a' := WriteAt(a, SliceStart(i), s);
    var lo, hi := SliceStart(i), SliceEnd(i, |file|);
    assert lo + |s| == hi && hi <= |file|;
    assert |a'| == Max(|a|, hi);
    forall b | 0 <= b < |a'| && ChunkOf(b) in written + [i]
      ensures a'[b] == file[b]
    {
      if lo <= b < hi {
        assert a'[b] == s[b - lo];
      } else {
        ByteInOwnChunk(b, |file|);
        assert ChunkOf(b) in written;
        assert b < |a|;
      }
    }
  }

  /** While chunks arrive, the backing file stays consistent with the
      client's file for every chunk written so far. */
  lemma {:induction false} AssembleAgrees(file: seq<byte>, order: seq<nat>)
    requires forall j :: 0 <= j < |order| ==> order[j] < TotalChunks(|file|)
    ensures Agrees(file, Assemble(file, order), order)
  {
    if order != [] {
      var init, i := order[..|order| - 1], order[|order| - 1];
      assert order == init + [i];
      AssembleAgrees(file, init);
      WriteKeepsAgreement(file, Assemble(file, init), init, i);
    }
  }

  /** Once every chunk of the file has been written, in any order and with
      any repeats, the backing file equals the client's file. */
  lemma AssembleAnyOrder(file: seq<byte>, order: seq<nat>)
    requires forall j :: 0 <= j < |order| ==> order[j] < TotalChunks(|file|)
    requires forall i :: 0 <= i < TotalChunks(|file|) ==> i in order
    ensures Assemble(file, order) == file
  {
    AssembleAgrees(file, order);
    var a := Assemble(file, order);
    if |file| > 0 {
      ByteInOwnChunk(|file| - 1, |file|);
    }
    assert |a| == |file|;
    forall b | 0 <= b < |file| ensures a[b] == file[b] {
      ByteInOwnChunk(b, |file|);
    }
  }

  /** Receiving a chunk never changes which sessions the sweep selects: the
      staleness of a session is measured from its row's last update, and
      the chunk handler writes only chunk rows and files. A session still
      UPLOADING is swept StaleHours after its creation however many chunks
      arrived since. */
  lemma ReceiptKeepsStaleness(s: Store, payload: Option<seq<byte>>, id: Id, index: int,
                              now: int, fault: DbFault, later: int)
    requires Valid(s)
    ensures StaleIds(ReceiveSpec(s, payload, id, index, now, fault).store, later) == StaleIds(s, later)
  {
    ReceiveTouchesOneRow(s, payload, id, index, now, fault);
  }
}
