/** Vocabulary shared by the browser uploader and the upload server: bytes,
    the chunk size both sides agree on, the number of chunks of a file and
    the byte range each chunk covers. */
module Protocol {

  newtype byte = x: int | 0 <= x < 256

  datatype Option<T> = None | Some(value: T)

  /** Both sides split files into 5 MiB chunks (the client's and the
      server's CHUNK_SIZE constants are equal). */
  const ChunkSize: nat := 5 * 1024 * 1024

  /** Answer of the session-establishment request: the new session's id and
      the indices the server already holds, or no usable answer. */
  datatype InitReply = Created(uploadId: string, receivedChunks: seq<int>) | Rejected

  function Min(a: nat, b: nat): nat { if a <= b then a else b }

  function Max(a: nat, b: nat): nat { if a >= b then a else b }

  /** Math.ceil(size / CHUNK_SIZE): the least number of chunks that holds
      `size` bytes. */
  function TotalChunks(size: nat): (n: nat)
    ensures size <= n * ChunkSize
    ensures n > 0 ==> (n - 1) * ChunkSize < size
    ensures n == 0 <==> size == 0
  {
    (size + ChunkSize - 1) / ChunkSize
  }

  /** First byte of chunk `i`. */
  function SliceStart(i: nat): nat { i * ChunkSize }

  /** One past the last byte of chunk `i` of a file of `size` bytes. */
  function SliceEnd(i: nat, size: nat): nat { Min(i * ChunkSize + ChunkSize, size) }

  /** Size of the blob `file.slice(start, end)`: a start at or past the end
      of the file gives an empty blob. */
  function SliceLength(i: nat, size: nat): (len: nat)
    ensures i < TotalChunks(size) ==> 0 < len <= ChunkSize
    ensures i >= TotalChunks(size) ==> len == 0
    ensures len > 0 ==> SliceStart(i) + len == SliceEnd(i, size)
  {
    if SliceStart(i) < size then SliceEnd(i, size) - SliceStart(i) else 0
  }

  /** The bytes of chunk `i` of `file`. */
  function Slice(file: seq<byte>, i: nat): (s: seq<byte>)
    ensures |s| == SliceLength(i, |file|)
    ensures forall k :: 0 <= k < |s| ==> s[k] == file[SliceStart(i) + k]
  {
    if SliceStart(i) < |file| then file[SliceStart(i)..SliceEnd(i, |file|)] else []
  }

  /** The chunk a byte position belongs to. */
  function ChunkOf(b: nat): nat { b / ChunkSize }

  /** Distinct chunks cover disjoint byte ranges. */
  lemma SlicesDisjoint(i: nat, j: nat, size: nat)
    requires i < j
    ensures SliceEnd(i, size) <= SliceStart(j)
  {
    assert (i + 1) * ChunkSize <= j * ChunkSize by {
      assert i + 1 <= j;
    }
  }

  /** Every byte of the file lies in the chunk `ChunkOf` names, and that
      chunk is one of the file's chunks. */
  lemma ByteInOwnChunk(b: nat, size: nat)
    requires b < size
    ensures ChunkOf(b) < TotalChunks(size)
    ensures SliceStart(ChunkOf(b)) <= b < SliceEnd(ChunkOf(b), size)
  {
    var c := ChunkOf(b);
    assert c * ChunkSize <= b < c * ChunkSize + ChunkSize;
  }

  /** ... and in no other chunk: together the chunks partition [0, size). */
  lemma ByteInOnlyItsChunk(b: nat, i: nat, size: nat)
    requires SliceStart(i) <= b < SliceEnd(i, size)
    ensures i == ChunkOf(b)
  {
    assert i * ChunkSize <= b < i * ChunkSize + ChunkSize;
  }

  /** Chunks 0 .. k-1 of `file` laid end to end. */
  function Joined(file: seq<byte>, k: nat): seq<byte>
  {
    if k == 0 then [] else Joined(file, k - 1) + Slice(file, k - 1)
  }

  /** Laying all chunks of a file end to end gives the file back. */
  lemma {:induction false} JoinedSlices(file: seq<byte>)
    ensures Joined(file, TotalChunks(|file|)) == file
  {
    JoinedPrefix(file, TotalChunks(|file|));
  }

  lemma {:induction false} JoinedPrefix(file: seq<byte>, k: nat)
    requires k <= TotalChunks(|file|)
    ensures Joined(file, k) == file[..Min(k * ChunkSize, |file|)]
  {
    if k > 0 {
      JoinedPrefix(file, k - 1);
      var lo, hi := SliceStart(k - 1), SliceEnd(k - 1, |file|);
      NextSliceStart(k);
      assert lo < |file| by {
        assert SliceLength(k - 1, |file|) > 0;
      }
      assert Min((k - 1) * ChunkSize, |file|) == lo;
      assert Min(k * ChunkSize, |file|) == hi;
      assert file[..hi] == file[..lo] + file[lo..hi];
    }
  }

  /** Chunk k starts where chunk k-1 would end without the file's end. */
  lemma NextSliceStart(k: nat)
    requires k > 0
    ensures k * ChunkSize == (k - 1) * ChunkSize + ChunkSize
    ensures SliceStart(k - 1) == (k - 1) * ChunkSize
  {
  }
}
