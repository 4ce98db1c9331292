/** The browser-side chunk scheduler of the uploader hook: the chunk table
    built from the server's answer, the FIFO queue of chunks still to send,
    the worker pool capped at MaxConcurrency transfers, the bounded retry
    loop, the uploaded-byte counter with its progress percentage, pause and
    resume, and the guard that lets the completion notification fire once.

    The network is not modelled: each delivery attempt of a chunk is a
    boolean outcome supplied by the caller. The asynchronous parts of the
    scheduler are explicit steps: `Schedule` is what runs synchronously when
    `schedule()` is called (checks, dequeue, start of a transfer), `Settle`
    is the rest of that call once its transfer's retry loop has finished,
    and the driver calls `Schedule` again for the re-entry that follows. */
module Uploader {
  import opened Protocol

  const MaxConcurrency: nat := 3
  const MaxRetries: nat := 3

  datatype Status = Pending | Uploading | Success | Error

  /** One entry of the chunk table (and of the queue, which holds entries). */
  datatype Chunk = Chunk(index: nat, status: Status)

  /** A started transfer: the dequeued entry and the size of the blob sliced
      for it when it was started. */
  datatype Transfer = Transfer(item: Chunk, bytes: nat)

  /** Entry k of the table describes chunk k. */
  ghost predicate Indexed(cs: seq<Chunk>)
  {
    forall k :: 0 <= k < |cs| ==> cs[k].index == k
  }

  /** Entries appear in strictly increasing index order. */
  ghost predicate Increasing(cs: seq<Chunk>)
  {
    forall i, j :: 0 <= i < j < |cs| ==> cs[i].index < cs[j].index
  }

  /** The table built when an upload starts: one entry per chunk, already
      `Success` when the server reported that index as received. */
  function ChunkTable(total: nat, received: seq<int>): (t: seq<Chunk>)
    ensures |t| == total && Indexed(t)
    ensures forall k :: 0 <= k < total ==> (t[k].status == Success <==> k in received)
    ensures forall k :: 0 <= k < total ==> (t[k].status == Pending <==> k !in received)
  {
    seq(total, k requires 0 <= k => Chunk(k, if k in received then Success else Pending))
  }

  /** The entries of `cs` whose status is in `wanted`, in their order. */
  function Keep(cs: seq<Chunk>, wanted: set<Status>): seq<Chunk>
  {
    if cs == [] then []
    else if cs[0].status in wanted then [cs[0]] + Keep(cs[1..], wanted)
    else Keep(cs[1..], wanted)
  }

  /** `Keep` keeps exactly the wanted entries and preserves their order. */
  lemma {:induction false} KeepExact(cs: seq<Chunk>, wanted: set<Status>)
    ensures forall c :: c in Keep(cs, wanted) <==> c in cs && c.status in wanted
    ensures Increasing(cs) ==> Increasing(Keep(cs, wanted))
  {
    if cs != [] {
      KeepExact(cs[1..], wanted);
      var rest := Keep(cs[1..], wanted);
      if Increasing(cs) {
        assert Increasing(cs[1..]);
        forall c | c in rest ensures cs[0].index < c.index {
          var j :| 0 <= j < |cs[1..]| && cs[1..][j] == c;
          assert cs[j + 1] == c;
        }
        if cs[0].status in wanted {
          var q := [cs[0]] + rest;
          forall i, j | 0 <= i < j < |q| ensures q[i].index < q[j].index {
            assert q[j] == rest[j - 1];
            if i > 0 {
              assert q[i] == rest[i - 1];
            } else {
              assert rest[j - 1] in rest;
            }
          }
        }
      }
    }
  }

  /** The queue built when an upload starts: the pending entries. */
  function InitialQueue(table: seq<Chunk>): seq<Chunk> { Keep(table, {Pending}) }

  /** The queue rebuilt on resume: the pending and the failed entries. */
  function ResumeQueue(table: seq<Chunk>): seq<Chunk> { Keep(table, {Pending, Error}) }

  /** The initial queue holds exactly the chunks the server did not report,
      each as a pending entry, in increasing index order. */
  lemma InitialQueueExact(total: nat, received: seq<int>)
    ensures forall c :: c in InitialQueue(ChunkTable(total, received)) <==>
      c.index < total && c.index !in received && c.status == Pending
    ensures Increasing(InitialQueue(ChunkTable(total, received)))
  {
    var t := ChunkTable(total, received);
    KeepExact(t, {Pending});
    forall c: Chunk | c.index < total && c.index !in received && c.status == Pending
      ensures c in t
    {
      assert t[c.index] == c;
    }
  }

  /** Resume requeues exactly the pending and failed entries, in table order;
      an entry that succeeded (or is in flight) is never requeued. */
  lemma ResumeQueueExact(table: seq<Chunk>)
    ensures forall c :: c in ResumeQueue(table) <==>
      c in table && (c.status == Pending || c.status == Error)
    ensures forall c :: c in ResumeQueue(table) ==> c.status != Success && c.status != Uploading
    ensures Indexed(table) ==> Increasing(ResumeQueue(table))
  {
    KeepExact(table, {Pending, Error});
  }

  /** The functional update `prev.map(c => c.index === index ? {...c, status} : c)`. */
  function SetStatus(cs: seq<Chunk>, index: nat, s: Status): (r: seq<Chunk>)
    ensures |r| == |cs|
    ensures Indexed(cs) ==> Indexed(r)
    ensures Indexed(cs) && index < |cs| ==> r[index] == Chunk(index, s)
    ensures Indexed(cs) ==> forall k :: 0 <= k < |cs| && k != index ==> r[k] == cs[k]
  {
    seq(|cs|, k requires 0 <= k < |cs| => if cs[k].index == index then cs[k].(status := s) else cs[k])
  }

  /** The indices of a list of entries. */
  function Indices(items: seq<Chunk>): set<nat>
  {
    set c | c in items :: c.index
  }

  /** The table after each of `items`, in turn, was marked as uploading. */
  function MarkUploading(cs: seq<Chunk>, items: seq<Chunk>): seq<Chunk>
  {
    if items == [] then cs
    else SetStatus(MarkUploading(cs, items[..|items| - 1]), items[|items| - 1].index, Uploading)
  }

  /** Marking entries as uploading changes exactly the entries with their
      indices. */
  lemma {:induction false} MarkUploadingAt(cs: seq<Chunk>, items: seq<Chunk>)
    requires Indexed(cs)
    ensures |MarkUploading(cs, items)| == |cs| && Indexed(MarkUploading(cs, items))
    ensures forall k :: 0 <= k < |cs| ==>
      MarkUploading(cs, items)[k] == if k in Indices(items) then Chunk(k, Uploading) else cs[k]
  {
    if items != [] {
      var init, last := items[..|items| - 1], items[|items| - 1];
      MarkUploadingAt(cs, init);
      assert items == init + [last];
      assert Indices(items) == Indices(init) + {last.index};
    }
  }

  /** The transfers started for `items`, in order, from a file of `size`
      bytes. */
  function Transfers(items: seq<Chunk>, size: nat): seq<Transfer>
  {
    if items == [] then []
    else
      var last := items[|items| - 1];
      Transfers(items[..|items| - 1], size) + [Transfer(last, SliceLength(last.index, size))]
  }

  /** Transfer j is for entry j and carries the size of that chunk's slice. */
  lemma {:induction false} TransfersAt(items: seq<Chunk>, size: nat)
    ensures |Transfers(items, size)| == |items|
    ensures forall j :: 0 <= j < |items| ==>
      Transfers(items, size)[j] == Transfer(items[j], SliceLength(items[j].index, size))
  {
    if items != [] {
      TransfersAt(items[..|items| - 1], size);
    }
  }

  /** Starting entry n of `items` after entries 0 .. n-1: the queue loses
      its head, the marked prefix and the started transfers grow by that
      entry. */
  lemma StartStep(cs: seq<Chunk>, items: seq<Chunk>, started: seq<Transfer>, n: nat, size: nat,
                  t: Transfer)
    requires n < |items| && started == Transfers(items[..n], size)
    requires t == Transfer(items[n], SliceLength(items[n].index, size))
    ensures items[n..][0] == items[n] && items[n..][1..] == items[n + 1..]
    ensures MarkUploading(cs, items[..n + 1]) == SetStatus(MarkUploading(cs, items[..n]), items[n].index, Uploading)
    ensures started + [t] == Transfers(items[..n + 1], size)
  {
    assert items[..n + 1][..n] == items[..n];
  }

  /** `ts` without its first occurrence of `t`. */
  function RemoveOne(ts: seq<Transfer>, t: Transfer): seq<Transfer>
  {
    if ts == [] then []
    else if ts[0] == t then ts[1..]
    else [ts[0]] + RemoveOne(ts[1..], t)
  }

  /** Removing a transfer that is present takes exactly one copy of it out
      and leaves every other one. */
  lemma {:induction false} RemoveOneExact(ts: seq<Transfer>, t: Transfer)
    requires t in ts
    ensures |RemoveOne(ts, t)| == |ts| - 1
    ensures multiset(RemoveOne(ts, t)) == multiset(ts) - multiset{t}
  {
    if ts[0] != t {
      RemoveOneExact(ts[1..], t);
      assert ts == [ts[0]] + ts[1..];
    } else {
      assert ts == [t] + ts[1..];
    }
  }

  /** The first of the attempts `from` .. MaxRetries-1 that succeeds. */
  function FirstSuccess(outcomes: seq<bool>, from: nat): (r: Option<nat>)
    requires |outcomes| >= MaxRetries
    decreases MaxRetries - from
    ensures r.Some? ==> from <= r.value < MaxRetries && outcomes[r.value]
    ensures r.Some? ==> forall j :: from <= j < r.value ==> !outcomes[j]
    ensures r.None? <==> forall j :: from <= j < MaxRetries ==> !outcomes[j]
  {
    if from >= MaxRetries then None
    else if outcomes[from] then Some(from)
    else FirstSuccess(outcomes, from + 1)
  }

  /** Number of delivery attempts the retry loop makes: up to and including
      the first success, or all MaxRetries when every attempt fails. */
  function AttemptCount(outcomes: seq<bool>): (n: nat)
    requires |outcomes| >= MaxRetries
    ensures 1 <= n <= MaxRetries
    ensures n < MaxRetries ==> outcomes[n - 1]
    ensures forall j :: 0 <= j < n - 1 ==> !outcomes[j]
  {
    match FirstSuccess(outcomes, 0)
    case Some(k) => k + 1
    case None => MaxRetries
  }

  /** Math.round(uploaded / size * 100), computed exactly: the integer
      nearest to 100 * uploaded / size, halves rounded up. */
  function Progress(uploaded: nat, size: nat): (p: nat)
    requires size > 0
    ensures 2 * p * size <= 200 * uploaded + size < 2 * p * size + 2 * size
    ensures uploaded <= size ==> p <= 100
    ensures uploaded == size ==> p == 100
    ensures uploaded == 0 ==> p == 0
  {
    var p := (200 * uploaded + size) / (2 * size);
    RoundingBounds(uploaded, size, p);
    p
  }

  lemma RoundingBounds(uploaded: nat, size: nat, p: nat)
    requires size > 0 && 2 * p * size <= 200 * uploaded + size < 2 * p * size + 2 * size
    ensures uploaded <= size ==> p <= 100
    ensures uploaded == size ==> p == 100
    ensures uploaded == 0 ==> p == 0
  {
    if uploaded <= size {
      assert (2 * p) * size < 202 * size;
      CancelFactor(2 * p, 202, size);
    }
    if uploaded == size {
      assert 199 * size < (2 * p) * size;
      CancelFactor(199, 2 * p, size);
    }
    if uploaded == 0 {
      assert (2 * p) * size < 2 * size;
      CancelFactor(2 * p, 2, size);
    }
  }

  /** A strict inequality between multiples of a positive number holds
      between the factors. */
  lemma CancelFactor(x: int, y: int, s: int)
    requires s > 0 && x * s < y * s
    ensures x < y
  {
  }

  /** Every chunk in the table has been delivered. */
  predicate AllDone(cs: seq<Chunk>)
  {
    |cs| > 0 && forall k :: 0 <= k < |cs| ==> cs[k].status == Success
  }

  class Scheduler {
    /** The chunk table shown to the user. */
    var chunks: seq<Chunk>
    /** Entries waiting to be sent, oldest first. */
    var queue: seq<Chunk>
    /** Transfers started and not yet settled. */
    var active: nat
    var uploadedBytes: nat
    var isPaused: bool
    var progress: nat
    /** Size of the file being uploaded (0 before any upload). */
    var fileSize: nat
    var uploadId: string
    /** Whether the completion notification has fired for this upload. */
    var completedShown: bool
    /** The transfers whose retry loops are still running. */
    ghost var inFlight: seq<Transfer>

    ghost predicate Valid()
      reads this
    {
      active == |inFlight| && active <= MaxConcurrency && Indexed(chunks)
    }

    constructor ()
      ensures Valid()
      ensures chunks == [] && queue == [] && active == 0 && inFlight == []
      ensures uploadedBytes == 0 && !isPaused && progress == 0 && fileSize == 0
      ensures !completedShown
    {
      chunks, queue, active, inFlight := [], [], 0, [];
      uploadedBytes, isPaused, progress, fileSize := 0, false, 0, 0;
      uploadId := "";
      completedShown := false;
    }

    /** The synchronous part of `schedule()`: nothing happens when paused,
        when MaxConcurrency transfers are active or when the queue is empty;
        otherwise the head of the queue is dequeued, the active count goes
        up, its entry is marked uploading and its blob is sliced. */
    method Schedule() returns (started: Option<Transfer>)
      requires Valid()
      modifies this`queue, this`active, this`chunks, this`inFlight
      ensures Valid()
      ensures started.None? <==> old(isPaused || active >= MaxConcurrency || |queue| == 0)
      ensures started.None? ==>
        queue == old(queue) && active == old(active) && chunks == old(chunks) && inFlight == old(inFlight)
      ensures started.Some? ==>
        started.value == Transfer(old(queue)[0], SliceLength(old(queue)[0].index, fileSize))
        && queue == old(queue)[1..] && active == old(active) + 1
        && chunks == SetStatus(old(chunks), old(queue)[0].index, Uploading)
        && inFlight == old(inFlight) + [started.value]
    {
      if isPaused || active >= MaxConcurrency || |queue| == 0 {
        return None;
      }
      var item := queue[0];
      queue := queue[1..];
      active := active + 1;
      chunks := SetStatus(chunks, item.index, Uploading);
      var blob := SliceLength(item.index, fileSize);
      started := Some(Transfer(item, blob));
      inFlight := inFlight + [started.value];
    }

    /** The rest of `schedule()` once transfer `t` was started: at most
        MaxRetries delivery attempts, whose outcomes are `outcomes`. The first
        success adds the blob's size to the byte counter, recomputes the
        progress and marks the entry `Success`; MaxRetries failures mark it
        `Error`. Either way the active count goes down. */
    method Settle(t: Transfer, outcomes: seq<bool>) returns (attempts: nat)
      requires Valid() && t in inFlight && |outcomes| >= MaxRetries
      modifies this`chunks, this`uploadedBytes, this`progress, this`active, this`inFlight
      ensures Valid()
      ensures attempts == AttemptCount(outcomes)
      ensures active == old(active) - 1 && inFlight == RemoveOne(old(inFlight), t)
      ensures FirstSuccess(outcomes, 0).Some? ==>
        chunks == SetStatus(old(chunks), t.item.index, Success)
        && uploadedBytes == old(uploadedBytes) + t.bytes
        && progress == (if fileSize > 0 then Progress(uploadedBytes, fileSize) else old(progress))
      ensures FirstSuccess(outcomes, 0).None? ==>
        chunks == SetStatus(old(chunks), t.item.index, Error)
        && uploadedBytes == old(uploadedBytes) && progress == old(progress)
    {
      var attempt := 0;
      attempts := 0;
      while attempt < MaxRetries
        invariant 0 <= attempt <= MaxRetries && attempts == attempt
        invariant active == old(active) && inFlight == old(inFlight)
        invariant forall j :: 0 <= j < attempt ==> !outcomes[j]
        invariant attempt < MaxRetries ==>
          chunks == old(chunks) && uploadedBytes == old(uploadedBytes) && progress == old(progress)
        invariant attempt == MaxRetries ==>
          (chunks == SetStatus(old(chunks), t.item.index, Error)
           && uploadedBytes == old(uploadedBytes) && progress == old(progress))
      {
        attempts := attempts + 1;
        if outcomes[attempt] {
          uploadedBytes := uploadedBytes + t.bytes;
          if fileSize > 0 {
            progress := Progress(uploadedBytes, fileSize);
          }
          chunks := SetStatus(chunks, t.item.index, Success);
          break;
        }
        attempt := attempt + 1;
        if attempt == MaxRetries {
          chunks := SetStatus(chunks, t.item.index, Error);
        }
      }
      active := active - 1;
      RemoveOneExact(inFlight, t);
      inFlight := RemoveOne(inFlight, t);
    }

    /** After `started` were started from the state (q0, a0, c0, f0): they
        are the first entries of q0, which have left the queue, raised the
        active count and been marked uploading. */
    ghost predicate StartedFrom(q0: seq<Chunk>, a0: nat, c0: seq<Chunk>, f0: seq<Transfer>,
                                started: seq<Transfer>)
      reads this
    {
      |started| <= |q0|
      && queue == q0[|started|..] && active == a0 + |started|
      && chunks == MarkUploading(c0, q0[..|started|])
      && inFlight == f0 + started
      && started == Transfers(q0[..|started|], fileSize)
    }

    /** One call of `schedule()` during a refill: it starts the next queued
        entry exactly when not paused, a slot is free and the queue is not
        empty. */
    method StartNext(ghost q0: seq<Chunk>, ghost a0: nat, ghost c0: seq<Chunk>, ghost f0: seq<Transfer>,
                     started: seq<Transfer>) returns (more: seq<Transfer>)
      requires Valid() && StartedFrom(q0, a0, c0, f0, started)
      modifies this`queue, this`active, this`chunks, this`inFlight
      ensures Valid() && StartedFrom(q0, a0, c0, f0, more)
      ensures var go := !isPaused && old(active) < MaxConcurrency && |old(queue)| > 0;
        (go ==> |more| == |started| + 1) && (!go ==> more == started)
    {
      ghost var n := |started|;
      if n < |q0| {
        StartStep(c0, q0, started, n, fileSize, Transfer(q0[n], SliceLength(q0[n].index, fileSize)));
      }
      var t := Schedule();
      more := started;
      if t.Some? {
        more := started + [t.value];
      }
    }

    /** MaxConcurrency calls of `schedule()` in a row, as the upload start
        and resume do: the first min(free slots, queue length) queued
        entries are started in order, none while paused. */
    method Refill() returns (started: seq<Transfer>)
      requires Valid()
      modifies this`queue, this`active, this`chunks, this`inFlight
      ensures Valid()
      ensures var k := if isPaused then 0 else Min(MaxConcurrency - old(active), |old(queue)|);
        |started| == k && queue == old(queue)[k..] && active == old(active) + k
        && chunks == MarkUploading(old(chunks), old(queue)[..k])
        && inFlight == old(inFlight) + started
        && started == Transfers(old(queue)[..k], fileSize)
    {
      ghost var q0, a0, c0, f0 := queue, active, chunks, inFlight;
      ghost var k := if isPaused then 0 else Min(MaxConcurrency - a0, |q0|);
      started := [];
      for i := 0 to MaxConcurrency
        invariant Valid() && StartedFrom(q0, a0, c0, f0, started)
        invariant |started| == Min(i, k)
      {
        started := StartNext(q0, a0, c0, f0, started);
      }
    }

    /** `uploadFile`: reset the guard, the counters and the paused flag,
        remember the file, then (if the server answered) build the chunk
        table and the queue of pending entries and start up to
        MaxConcurrency transfers. The active count is not reset. */
    method UploadFile(size: nat, reply: InitReply) returns (started: seq<Transfer>)
      requires Valid()
      modifies this
      ensures Valid()
      ensures !completedShown && !isPaused && progress == 0 && uploadedBytes == 0 && fileSize == size
      ensures reply.Rejected? ==>
        started == [] && chunks == old(chunks) && queue == old(queue)
        && active == old(active) && inFlight == old(inFlight) && uploadId == old(uploadId)
      ensures reply.Created? ==>
        var table := ChunkTable(TotalChunks(size), reply.receivedChunks);
        var q := InitialQueue(table);
        var k := Min(MaxConcurrency - old(active), |q|);
        uploadId == reply.uploadId
        && |started| == k && queue == q[k..] && active == old(active) + k
        && chunks == MarkUploading(table, q[..k])
        && inFlight == old(inFlight) + started
        && started == Transfers(q[..k], size)
    {
      completedShown := false;
      progress := 0;
      isPaused := false;
      fileSize := size;
      uploadedBytes := 0;
      started := [];
      match reply
      case Rejected =>
      case Created(id, received) =>
        uploadId := id;
        chunks := ChunkTable(TotalChunks(size), received);
        queue := InitialQueue(chunks);
        started := Refill();
    }

    method Pause()
      modifies this`isPaused
      ensures isPaused
    {
      isPaused := true;
    }

    /** `resume`: clear the paused flag, rebuild the queue from the pending
        and failed entries, and start up to MaxConcurrency transfers. */
    method Resume() returns (started: seq<Transfer>)
      requires Valid()
      modifies this`isPaused, this`queue, this`active, this`chunks, this`inFlight
      ensures Valid() && !isPaused
      ensures var q := ResumeQueue(old(chunks));
        var k := Min(MaxConcurrency - old(active), |q|);
        |started| == k && queue == q[k..] && active == old(active) + k
        && chunks == MarkUploading(old(chunks), q[..k])
        && inFlight == old(inFlight) + started
        && started == Transfers(q[..k], fileSize)
    {
      isPaused := false;
      queue := ResumeQueue(chunks);
      started := Refill();
    }

    /** The effect that runs after every change of the chunk table: the
        completion notification fires when the table is non-empty and all
        entries succeeded, unless it already fired for this upload. */
    method OnChunksChanged() returns (fired: bool)
      modifies this`completedShown
      ensures fired <==> AllDone(chunks) && !old(completedShown)
      ensures completedShown == (old(completedShown) || AllDone(chunks))
    {
      fired := AllDone(chunks) && !completedShown;
      if fired {
        completedShown := true;
      }
    }
  }
}
