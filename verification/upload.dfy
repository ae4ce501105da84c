/**
 The uploader's chunk loop (`_upload_file_chunks`) with its per-chunk retry
 counter and per-file error counter (`_send_chunk_with_retry`). One loop
 iteration is a `Step`; whether the socket accepted the chunk in that
 iteration is its `ok` input. Sleeps, the file handle and the progress
 callback are not modelled.
 */
module Upload {
  import opened Basics
  import opened TransferInfo

  const MaxChunkRetries: nat := 3
  const MaxTransferErrors: nat := 10

  /** Still looping, left the loop normally (then `file_complete` is sent), or aborted. */
  datatype Phase = Sending | Completed | Aborted

  /**
   One upload: the file's size on disk, its chunk count, the loop index,
   `uploaded_chunks`, `chunk_retry_counts[file_id]` and `transfer_errors[file_id]`.
   */
  datatype Upload = Upload(
    size: nat,
    total: int,
    index: nat,
    uploaded: set<int>,
    retries: map<int, nat>,
    errors: nat,
    phase: Phase)

  /** A new upload of a file of `size` bytes, resuming past the chunks in `done`. */
  function Start(size: nat, done: set<int>): (u: Upload)
    ensures u.total == CeilChunks(size) && u.index == 0 && u.errors == 0 && u.phase == Sending
  {
    Upload(size, CeilChunks(size), 0, done, map[], 0, Sending)
  }

  /** `chunk_retry_counts[file_id].get(chunk_index, 0)`. */
  function RetryCount(u: Upload): nat {
    if u.index in u.retries then u.retries[u.index] else 0
  }

  /**
   What happens to the counters when a chunk whose retries are used up is
   attempted again: the source returns `False` and counts nothing; the
   corrected variant counts it as a transfer error.
   */
  datatype Policy = AsWritten | CountExhausted

  /**
   `_send_chunk_with_retry` for the current chunk: refuse once its retry
   count has reached 3; otherwise a send that fails bumps both the chunk's
   retry count and the file's error count by one.
   */
  function SendWithRetry(u: Upload, ok: bool, policy: Policy): (r: (Upload, bool))
    ensures r.1 <==> RetryCount(u) < MaxChunkRetries && ok
    ensures r.1 ==> r.0 == u
    ensures RetryCount(u) < MaxChunkRetries && !ok ==>
      r.0 == u.(retries := u.retries[u.index := RetryCount(u) + 1], errors := u.errors + 1)
    ensures RetryCount(u) >= MaxChunkRetries ==>
      r.0 == (if policy == AsWritten then u else u.(errors := u.errors + 1))
  {
    var count := RetryCount(u);
    if count >= MaxChunkRetries then
      (if policy == AsWritten then u else u.(errors := u.errors + 1), false)
    else if ok then (u, true)
    else (u.(retries := u.retries[u.index := count + 1], errors := u.errors + 1), false)
  }

  /**
   One iteration of the loop: leave it past the last chunk or at an empty
   read; skip a chunk already uploaded; otherwise send, and on success mark
   the chunk and move on, on failure abort at 10 errors or retry the same
   chunk.
   */
  function Step(u: Upload, ok: bool, policy: Policy): (u': Upload)
    requires u.phase == Sending
    ensures u'.uploaded >= u.uploaded
    ensures u'.index > u.index ==> u'.index == u.index + 1 && u.index in u'.uploaded
    ensures u'.uploaded != u.uploaded ==> u'.uploaded == u.uploaded + {u.index} && u'.index == u.index + 1
    ensures u'.phase == Aborted ==> u'.errors >= MaxTransferErrors
    ensures u'.phase == Completed ==> u.index >= u.total || u.index * ChunkSize >= u.size
  {
    if u.index >= u.total then u.(phase := Completed)
    else if u.index in u.uploaded then u.(index := u.index + 1)
    else if u.index * ChunkSize >= u.size then u.(phase := Completed)
    else
      var (u1, sent) := SendWithRetry(u, ok, policy);
      if sent then u1.(uploaded := u1.uploaded + {u.index}, index := u.index + 1)
      else if u1.errors >= MaxTransferErrors then u1.(phase := Aborted)
      else u1
  }

  /** The loop run with one socket outcome per iteration, until it leaves or the outcomes run out. */
  function Run(u: Upload, oks: seq<bool>, policy: Policy): (u': Upload)
    decreases |oks|
  {
    if u.phase != Sending || |oks| == 0 then u
    else Run(Step(u, oks[0], policy), oks[1..], policy)
  }

  /** Every chunk below the loop index has been uploaded. */
  predicate Prefix(u: Upload) {
    forall i :: 0 <= i < u.index ==> i in u.uploaded
  }

  lemma {:induction false} RunKeepsPrefix(u: Upload, oks: seq<bool>, policy: Policy)
    requires Prefix(u)
    ensures Prefix(Run(u, oks, policy))
    ensures Run(u, oks, policy).uploaded >= u.uploaded
    decreases |oks|
  {
    if u.phase == Sending && |oks| > 0 {
      RunKeepsPrefix(Step(u, oks[0], policy), oks[1..], policy);
    }
  }

  /**
   When the loop completes for a file whose chunk count matches its size,
   every chunk `0 .. total - 1` was sent successfully (or was already
   uploaded when the upload resumed).
   */
  lemma CompletedMeansAllSent(u: Upload, oks: seq<bool>, policy: Policy)
    requires Prefix(u) && u.total == CeilChunks(u.size) && u.phase == Sending
    ensures Run(u, oks, policy).phase == Completed ==> RangeSet(0, u.total) <= Run(u, oks, policy).uploaded
  {
    RunFinalIndex(u, oks, policy);
    RunKeepsPrefix(u, oks, policy);
    var u' := Run(u, oks, policy);
    if u'.phase == Completed {
      forall i | i in RangeSet(0, u.total)
        ensures i in u'.uploaded
      {
        assert 0 <= i < u'.index;
      }
    }
  }

  lemma {:induction false} RunFinalIndex(u: Upload, oks: seq<bool>, policy: Policy)
    requires u.total == CeilChunks(u.size)
    ensures var u' := Run(u, oks, policy);
            u'.phase == Completed && u.phase == Sending ==> u'.index >= u'.total
    ensures Run(u, oks, policy).total == u.total && Run(u, oks, policy).size == u.size
    decreases |oks|
  {
    if u.phase == Sending && |oks| > 0 {
      RunFinalIndex(Step(u, oks[0], policy), oks[1..], policy);
    }
  }

  // ---------------------------------------------------------------------------
  // As written: the loop can spin forever
  // ---------------------------------------------------------------------------

  /** A chunk that still has to be sent but whose retries are used up, with fewer than 10 errors. */
  predicate Exhausted(u: Upload) {
    && u.phase == Sending
    && u.index < u.total && u.index !in u.uploaded && u.index * ChunkSize < u.size
    && RetryCount(u) >= MaxChunkRetries && u.errors < MaxTransferErrors
  }

  /**
   As written, such a state is a fixed point of the loop: every later
   iteration refuses to send, counts nothing and retries the same chunk, so
   the upload neither completes nor aborts, whatever the network does.
   */
  lemma {:induction false} UploadStalls(u: Upload, oks: seq<bool>)
    requires Exhausted(u)
    ensures Run(u, oks, AsWritten) == u
    decreases |oks|
  {
    if |oks| > 0 {
      assert Step(u, oks[0], AsWritten) == u;
      UploadStalls(u, oks[1..]);
    }
  }

  /**
   A one-byte file whose first three sends fail reaches that state: three
   errors are counted, then the loop never leaves.
   */
  lemma ThreeFailuresStall(oks: seq<bool>)
    ensures Run(Start(1, {}), [false, false, false] + oks, AsWritten).phase == Sending
  {
    var u0 := Start(1, {});
    var u1 := Step(u0, false, AsWritten);
    var u2 := Step(u1, false, AsWritten);
    var u3 := Step(u2, false, AsWritten);
    assert u3.retries == map[0 := 3] && u3.errors == 3 && u3.phase == Sending;
    var all := [false, false, false] + oks;
    assert all[1..] == [false, false] + oks;
    assert all[1..][1..] == [false] + oks;
    assert all[1..][1..][1..] == oks;
    assert Run(u0, all, AsWritten) == Run(u1, [false, false] + oks, AsWritten);
    assert Run(u1, [false, false] + oks, AsWritten) == Run(u2, [false] + oks, AsWritten);
    assert Run(u2, [false] + oks, AsWritten) == Run(u3, oks, AsWritten);
    UploadStalls(u3, oks);
  }

  // ---------------------------------------------------------------------------
  // Corrected: counting the refused attempt bounds the loop
  // ---------------------------------------------------------------------------

  /** Iterations still possible: chunks left plus errors left before the abort threshold. */
  function Budget(u: Upload): nat
    requires u.errors < MaxTransferErrors
  {
    (if u.total > u.index then u.total - u.index else 0) + (MaxTransferErrors - u.errors)
  }

  /**
   With refused attempts counted as errors, the loop leaves within `Budget`
   iterations for any sequence of socket outcomes: each iteration either
   leaves, moves to the next chunk, or counts one more error.
   */
  lemma {:induction false} CountedUploadTerminates(u: Upload, oks: seq<bool>)
    requires u.phase == Sending && u.errors < MaxTransferErrors
    requires |oks| >= Budget(u)
    ensures Run(u, oks, CountExhausted).phase != Sending
    decreases |oks|
  {
    var u' := Step(u, oks[0], CountExhausted);
    if u'.phase == Sending {
      assert u'.errors < MaxTransferErrors;
      assert Budget(u') < Budget(u);
      CountedUploadTerminates(u', oks[1..]);
    }
  }

  /** In particular a fresh upload of `size` bytes finishes or aborts within `chunks + 10` iterations. */
  lemma FreshCountedUploadTerminates(size: nat, oks: seq<bool>)
    requires |oks| >= CeilChunks(size) + MaxTransferErrors
    ensures Run(Start(size, {}), oks, CountExhausted).phase != Sending
  {
    CountedUploadTerminates(Start(size, {}), oks);
  }
}
