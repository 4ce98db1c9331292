/** Finalisation of a session whose chunks have all arrived: claim it
    (UPLOADING -> PROCESSING, under a row lock), hash the backing file, and
    record COMPLETED with the digest or FAILED when hashing fails.

    The digest function is a parameter: it maps the file's bytes to a hex
    digest, or to None when reading or hashing fails mid-way. A missing
    backing file fails the same way. The best-effort archive listing that
    follows hashing swallows all its errors and changes nothing, so it does
    not occur here. */
module FinaliseService {
  import opened Protocol
  import opened Schema

  datatype Finalised = Finalised(store: Store, hashed: bool)

  /** The claim succeeds only on an existing session that is UPLOADING. */
  predicate Claimable(s: Store, id: Id)
  {
    id in s.uploads && s.uploads[id].status == Uploading
  }

  /** The session row after the claim's update. */
  function Claimed(u: Upload, now: int): Upload
  {
    u.(status := Processing, updatedAt := now)
  }

  /** The outcome of hashing the backing file. */
  function Digest(s: Store, id: Id, sha: seq<byte> -> Option<string>): Option<string>
  {
    if id in s.files then sha(s.files[id]) else None
  }

  /** The session row after the last update: FAILED without a hash, or
      COMPLETED with the digest and the completion time. */
  function Concluded(u: Upload, digest: Option<string>, now: int): Upload
  {
    match digest
    case None => u.(status := Failed, updatedAt := now)
    case Some(h) => u.(status := Completed, finalHash := Some(h), completedAt := Some(now), updatedAt := now)
  }

  /** `finaliseUpload` as one step: no change unless the claim succeeds;
      otherwise the claimed row is concluded with the file's digest. */
  function FinaliseSpec(s: Store, id: Id, sha: seq<byte> -> Option<string>, now: int): Finalised
  {
    if !Claimable(s, id) then Finalised(s, false)
    else Finalised(s.(uploads := s.uploads[id := Concluded(Claimed(s.uploads[id], now), Digest(s, id, sha), now)]), true)
  }

  /** Finalisation keeps the store invariant and moves the session only
      forward (UPLOADING -> PROCESSING -> COMPLETED | FAILED in one call). */
  lemma FinalisePreservesValid(s: Store, id: Id, sha: seq<byte> -> Option<string>, now: int)
    requires Valid(s)
    ensures var r := FinaliseSpec(s, id, sha, now);
      Valid(r.store) && Forward(s, r.store)
  {
    if Claimable(s, id) {
      var v := Concluded(Claimed(s.uploads[id], now), Digest(s, id, sha), now);
      assert WellFormed(v);
      ReplaceUpload(s, id, v);
    }
  }

  /** What finalisation does to a claimable session: it hashes once and ends
      COMPLETED with the file's digest and a completion time exactly when
      the file exists and hashes, FAILED without a hash otherwise. Nothing
      else changes: not the session's sizes or name, not another session,
      not a chunk row, not a file. A session that is missing or not
      UPLOADING is left alone and nothing is hashed. */
  lemma FinaliseOutcome(s: Store, id: Id, sha: seq<byte> -> Option<string>, now: int)
    requires Valid(s)
    ensures var r := FinaliseSpec(s, id, sha, now);
      r.hashed == Claimable(s, id)
      && (!Claimable(s, id) ==> r.store == s)
      && (Claimable(s, id) ==>
            var u, v := s.uploads[id], r.store.uploads[id];
            r.store.uploads.Keys == s.uploads.Keys
            && (forall j :: j in s.uploads && j != id ==> r.store.uploads[j] == s.uploads[j])
            && r.store.chunks == s.chunks && r.store.files == s.files
            && v.filename == u.filename && v.totalSize == u.totalSize && v.totalChunks == u.totalChunks
            && (v.status == Completed <==> id in s.files && sha(s.files[id]).Some?)
            && (v.status == Completed ==> v.finalHash == sha(s.files[id]) && v.completedAt == Some(now))
            && (v.status != Completed ==> v.status == Failed && v.finalHash == None && v.completedAt == None))
  {
  }

  /** Finalising twice in a row hashes at most once: the first call leaves
      the session PROCESSING-or-later (or it was never claimable), so the
      second call changes nothing. */
  lemma FinaliseAtMostOnce(s: Store, id: Id, sha: seq<byte> -> Option<string>, now: int,
                           sha2: seq<byte> -> Option<string>, later: int)
    ensures var r1 := FinaliseSpec(s, id, sha, now);
      FinaliseSpec(r1.store, id, sha2, later) == Finalised(r1.store, false)
  {
    var r1 := FinaliseSpec(s, id, sha, now);
    if Claimable(s, id) {
      assert r1.store.uploads[id].status != Uploading;
    }
  }

  /** A COMPLETED or FAILED session is never left by finalisation. */
  lemma TerminalStaysTerminal(s: Store, id: Id, sha: seq<byte> -> Option<string>, now: int)
    requires id in s.uploads && Terminal(s.uploads[id].status)
    ensures FinaliseSpec(s, id, sha, now).store == s
  {
  }
}
