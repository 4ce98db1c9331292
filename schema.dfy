/** The server's persistent state: the `uploads` table (one row per upload
    session), the `chunks` table (one row per chunk of a session, keyed by
    session id and chunk index) and the backing files, one per session,
    named by the session id. Each is a map; `Valid` is the invariant every
    server operation keeps. */
module Schema {
  import opened Protocol

  type Id = string

  datatype Status = Uploading | Processing | Completed | Failed

  /** A row of `uploads`. `updatedAt` and `completedAt` are timestamps in
      seconds. */
  datatype Upload = Upload(
    filename: string,
    totalSize: nat,
    totalChunks: nat,
    status: Status,
    finalHash: Option<string>,
    updatedAt: int,
    completedAt: Option<int>)

  datatype ChunkState = Pending | Success

  /** A row of `chunks`. */
  datatype ChunkRow = ChunkRow(state: ChunkState, receivedAt: Option<int>)

  datatype Store = Store(
    uploads: map<Id, Upload>,
    chunks: map<(Id, int), ChunkRow>,
    files: map<Id, seq<byte>>)

  /** Position of a status in UPLOADING -> PROCESSING -> COMPLETED | FAILED. */
  function Rank(s: Status): nat
  {
    match s
    case Uploading => 0
    case Processing => 1
    case Completed => 2
    case Failed => 2
  }

  predicate Terminal(s: Status) { s == Completed || s == Failed }

  /** A session row is consistent: its chunk count matches its size, and the
      hash and completion time are set exactly when it is COMPLETED. */
  predicate WellFormed(u: Upload)
  {
    u.totalChunks == TotalChunks(u.totalSize)
    && (u.finalHash.Some? <==> u.status == Completed)
    && (u.completedAt.Some? <==> u.status == Completed)
  }

  /** Session `id` holds a chunk row for index `i`. */
  predicate HasRow(s: Store, id: Id, i: int)
  {
    (id, i) in s.chunks
  }

  /** Every session row is well formed; every chunk row belongs to a session
      and lies in its index range; every session has all its chunk rows; a
      chunk row carries a receipt time exactly when it is SUCCESS. Backing
      files may outlive their session (a failed unlink). */
  predicate Valid(s: Store)
  {
    (forall id :: id in s.uploads ==> WellFormed(s.uploads[id]))
    && (forall k :: k in s.chunks ==> k.0 in s.uploads && 0 <= k.1 < s.uploads[k.0].totalChunks)
    && (forall k :: k in s.chunks ==> (s.chunks[k].state == Success <==> s.chunks[k].receivedAt.Some?))
    && (forall id, i :: id in s.uploads && 0 <= i < s.uploads[id].totalChunks ==> HasRow(s, id, i))
  }

  /** The backing file as a write sees it: one that does not exist yet is
      created empty first. */
  function FileOf(s: Store, id: Id): seq<byte>
  {
    if id in s.files then s.files[id] else []
  }

  /** The chunk rows of session `id`. */
  function RowsOf(chunks: map<(Id, int), ChunkRow>, id: Id): set<(Id, int)>
  {
    set k | k in chunks && k.0 == id
  }

  /** The rows counted by the "remaining" query: those of session `id` that
      are not SUCCESS. */
  function UnfinishedRows(chunks: map<(Id, int), ChunkRow>, id: Id): set<(Id, int)>
  {
    set k | k in chunks && k.0 == id && chunks[k].state != Success
  }

  /** Every chunk of session `id` has been received. */
  predicate AllReceived(s: Store, id: Id)
    requires id in s.uploads
  {
    forall i :: 0 <= i < s.uploads[id].totalChunks ==>
      HasRow(s, id, i) && s.chunks[(id, i)].state == Success
  }

  /** The "remaining" count of a session is zero exactly when all of its
      chunks have been received. */
  lemma UnfinishedIsEmptyIffAllReceived(s: Store, id: Id)
    requires Valid(s) && id in s.uploads
    ensures |UnfinishedRows(s.chunks, id)| == 0 <==> AllReceived(s, id)
  {
    if |UnfinishedRows(s.chunks, id)| == 0 {
      forall i | 0 <= i < s.uploads[id].totalChunks
        ensures HasRow(s, id, i) && s.chunks[(id, i)].state == Success
      {
        assert HasRow(s, id, i);
        assert (id, i) !in UnfinishedRows(s.chunks, id);
      }
    } else {
      var k :| k in UnfinishedRows(s.chunks, id);
      assert 0 <= k.1 < s.uploads[id].totalChunks;
      assert k == (id, k.1);
    }
  }

  /** Every session has exactly `totalChunks` chunk rows. */
  lemma RowCount(s: Store, id: Id)
    requires Valid(s) && id in s.uploads
    ensures |RowsOf(s.chunks, id)| == s.uploads[id].totalChunks
  {
    var n := s.uploads[id].totalChunks;
    assert RowsOf(s.chunks, id) == IndexKeys(id, n) by {
      forall k | k in RowsOf(s.chunks, id) ensures k in IndexKeys(id, n) {
        assert k == (id, k.1);
      }
      forall k | k in IndexKeys(id, n) ensures k in RowsOf(s.chunks, id) {
        assert HasRow(s, id, k.1);
      }
    }
    IndexKeysCount(id, n);
  }

  /** The keys (id, 0) .. (id, n-1). */
  function IndexKeys(id: Id, n: nat): set<(Id, int)>
  {
    set i | 0 <= i < n :: (id, i)
  }

  lemma {:induction false} IndexKeysCount(id: Id, n: nat)
    ensures |IndexKeys(id, n)| == n
  {
    if n > 0 {
      IndexKeysCount(id, n - 1);
      assert IndexKeys(id, n) == IndexKeys(id, n - 1) + {(id, n - 1)};
    }
  }

  /** Replacing the backing files keeps the invariant. */
  lemma ReplaceFiles(s: Store, files: map<Id, seq<byte>>)
    requires Valid(s)
    ensures Valid(s.(files := files))
  {
    var t := s.(files := files);
    forall j, i | j in t.uploads && 0 <= i < t.uploads[j].totalChunks
      ensures HasRow(t, j, i)
    {
      assert HasRow(s, j, i);
    }
  }

  /** Replacing a session row by a well-formed one with the same chunk count
      keeps the invariant. */
  lemma ReplaceUpload(s: Store, id: Id, u: Upload)
    requires Valid(s) && id in s.uploads && WellFormed(u) && u.totalChunks == s.uploads[id].totalChunks
    ensures Valid(s.(uploads := s.uploads[id := u]))
  {
    var t := s.(uploads := s.uploads[id := u]);
    forall j, i | j in t.uploads && 0 <= i < t.uploads[j].totalChunks
      ensures HasRow(t, j, i)
    {
      assert HasRow(s, j, i);
    }
  }

  /** Replacing an existing chunk row by a consistent one keeps the
      invariant. */
  lemma ReplaceRow(s: Store, k: (Id, int), row: ChunkRow)
    requires Valid(s) && k in s.chunks
    requires row.state == Success <==> row.receivedAt.Some?
    ensures Valid(s.(chunks := s.chunks[k := row]))
  {
    var t := s.(chunks := s.chunks[k := row]);
    forall j, i | j in t.uploads && 0 <= i < t.uploads[j].totalChunks
      ensures HasRow(t, j, i)
    {
      assert HasRow(s, j, i);
    }
  }

  /** Nothing moves backwards between two states: a session that exists in
      both never goes back in status and never leaves COMPLETED or FAILED,
      and a chunk row that was SUCCESS (with its receipt time) stays so. */
  ghost predicate Forward(s: Store, t: Store)
  {
    (forall id :: id in s.uploads && id in t.uploads ==>
       Rank(s.uploads[id].status) <= Rank(t.uploads[id].status)
       && (Terminal(s.uploads[id].status) ==> t.uploads[id].status == s.uploads[id].status))
    && (forall k :: k in s.chunks && k in t.chunks && s.chunks[k].state == Success ==>
          t.chunks[k] == s.chunks[k])
  }

  /** A step that changes no session row and changes at most one chunk row,
      one that was not SUCCESS, moves nothing backwards. */
  lemma ForwardOneRow(s: Store, t: Store, k: (Id, int))
    requires t.uploads == s.uploads
    requires forall j :: j in s.chunks && j != k ==> j in t.chunks && t.chunks[j] == s.chunks[j]
    requires k in s.chunks ==> s.chunks[k].state != Success
    ensures Forward(s, t)
  {
  }
}
