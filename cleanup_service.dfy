/** The sweep of abandoned sessions: every session that is UPLOADING or
    PROCESSING and was last updated more than StaleHours ago loses its
    backing file, its chunk rows and its session row.

    What fails during the sweep is a parameter: the ids for which no
    database connection can be had (that ends the whole sweep, since the
    connection is taken outside the error handler), the ids whose file
    cannot be unlinked (ignored: the file stays), and the ids whose delete
    transaction fails (rolled back: the rows stay, the sweep goes on). */
module CleanupService {
  import opened Protocol
  import opened Schema

  const StaleHours: nat := 24

  /** The time-to-live in the unit of the timestamps (seconds). */
  const StaleSeconds: nat := StaleHours * 60 * 60

  datatype Faults = Faults(noConnection: set<Id>, unlinkFails: set<Id>, txFails: set<Id>)

  /** The selection condition of the sweep's query. */
  predicate IsStale(u: Upload, now: int)
  {
    (u.status == Uploading || u.status == Processing) && u.updatedAt < now - StaleSeconds
  }

  /** The ids the sweep's query returns. */
  function StaleIds(s: Store, now: int): set<Id>
  {
    set id | id in s.uploads && IsStale(s.uploads[id], now)
  }

  /** `DELETE FROM chunks WHERE upload_id = id`. */
  function RowsWithout(chunks: map<(Id, int), ChunkRow>, id: Id): map<(Id, int), ChunkRow>
  {
    map k | k in chunks && k.0 != id :: chunks[k]
  }

  /** The body of the sweep's loop for one id: unlink the file if it exists
      (a failure is ignored), then delete the chunk rows and the session row
      in one transaction (a failure rolls both back). */
  function SweepOne(s: Store, id: Id, faults: Faults): Store
  {
    var files := if id in s.files && id !in faults.unlinkFails then s.files - {id} else s.files;
    if id in faults.txFails then s.(files := files)
    else Store(s.uploads - {id}, RowsWithout(s.chunks, id), files)
  }

  /** The loop body applied to `ids` in order. */
  function Sweep(s: Store, ids: seq<Id>, faults: Faults): Store
  {
    if ids == [] then s
    else SweepOne(Sweep(s, ids[..|ids| - 1], faults), ids[|ids| - 1], faults)
  }

  /** A session the sweep does not visit keeps its row, its chunk rows and
      its file. */
  lemma {:induction false} SweepUntouched(s: Store, ids: seq<Id>, faults: Faults, id: Id)
    requires id !in ids
    ensures var t := Sweep(s, ids, faults);
      (id in t.uploads <==> id in s.uploads) && (id in s.uploads ==> t.uploads[id] == s.uploads[id])
      && (id in t.files <==> id in s.files) && (id in s.files ==> t.files[id] == s.files[id])
      && (forall k: (Id, int) :: k.0 == id ==> (k in t.chunks <==> k in s.chunks))
      && (forall k :: k in s.chunks && k.0 == id ==> t.chunks[k] == s.chunks[k])
  {
    if ids != [] {
      SweepUntouched(s, ids[..|ids| - 1], faults, id);
      assert ids[|ids| - 1] in ids;
    }
  }

  /** A visited session whose transaction commits is gone: no session row
      and no chunk row remain, and neither does its file unless the unlink
      failed. */
  lemma {:induction false} SweepRemoves(s: Store, ids: seq<Id>, faults: Faults, id: Id)
    requires id in ids && id !in faults.txFails
    ensures var t := Sweep(s, ids, faults);
      id !in t.uploads && (forall k :: k in t.chunks ==> k.0 != id)
      && (id !in faults.unlinkFails ==> id !in t.files)
  {
    var init, last := ids[..|ids| - 1], ids[|ids| - 1];
    assert ids == init + [last];
    if last != id {
      SweepRemoves(s, init, faults, id);
    }
  }

  /** The delete transaction is all or nothing: when it fails, the session
      row and every one of its chunk rows stay as they were (no orphan chunk
      rows); only the file may already be gone. */
  lemma {:induction false} SweepRollsBack(s: Store, ids: seq<Id>, faults: Faults, id: Id)
    requires id in faults.txFails
    ensures var t := Sweep(s, ids, faults);
      (id in t.uploads <==> id in s.uploads) && (id in s.uploads ==> t.uploads[id] == s.uploads[id])
      && (forall k: (Id, int) :: k.0 == id ==> (k in t.chunks <==> k in s.chunks))
      && (forall k :: k in s.chunks && k.0 == id ==> t.chunks[k] == s.chunks[k])
      && (id in t.files ==> id in s.files && t.files[id] == s.files[id])
  {
    if ids != [] {
      SweepRollsBack(s, ids[..|ids| - 1], faults, id);
    }
  }

  /** One step of the sweep keeps the store invariant: a session goes
      together with all of its chunk rows, or nothing but its file goes. */
  lemma SweepOnePreservesValid(s: Store, id: Id, faults: Faults)
    requires Valid(s)
    ensures Valid(SweepOne(s, id, faults)) && Forward(s, SweepOne(s, id, faults))
    ensures SweepOne(s, id, faults).uploads.Keys <= s.uploads.Keys
  {
    var files := if id in s.files && id !in faults.unlinkFails then s.files - {id} else s.files;
    if id in faults.txFails {
      ReplaceFiles(s, files);
    } else {
      var t := Store(s.uploads - {id}, RowsWithout(s.chunks, id), files);
      forall j, i | j in t.uploads && 0 <= i < t.uploads[j].totalChunks
        ensures HasRow(t, j, i)
      {
        assert HasRow(s, j, i);
      }
    }
  }

  /** The sweep keeps the store invariant and moves nothing backwards. */
  lemma {:induction false} SweepPreservesValid(s: Store, ids: seq<Id>, faults: Faults)
    requires Valid(s)
    ensures Valid(Sweep(s, ids, faults)) && Forward(s, Sweep(s, ids, faults))
    ensures Sweep(s, ids, faults).uploads.Keys <= s.uploads.Keys
  {
    if ids != [] {
      var init, id := ids[..|ids| - 1], ids[|ids| - 1];
      SweepPreservesValid(s, init, faults);
      SweepOnePreservesValid(Sweep(s, init, faults), id, faults);
    }
  }

  /** A session last updated 25 hours ago while UPLOADING is selected; one
      updated an hour ago, or one that is COMPLETED or FAILED, is not. */
  lemma StaleScenario(u: Upload, now: int)
    ensures u.status == Uploading && u.updatedAt == now - 25 * 60 * 60 ==> IsStale(u, now)
    ensures u.updatedAt == now - 60 * 60 ==> !IsStale(u, now)
    ensures Terminal(u.status) ==> !IsStale(u, now)
  {
  }
}
