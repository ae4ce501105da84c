/**
 The client's connection state machine: `connect`, `disconnect`, the
 loss handler, the backoff schedule and the reconnection chain. Sleeping,
 sockets and threads are left out: a reconnection that has been scheduled
 is pending while `inProgress` holds, and `ReconnectAfterDelay` runs it with
 the outcome of `connect()` as an input.
 */
module Reconnect {
  import Basics

  const MaxReconnectAttempts: nat := 5

  /**
   The flags of `LANClient` that the state machine reads and writes:
   `running`, `authenticated`, `reconnect_attempts`,
   `reconnection_in_progress` and `manual_disconnect`.
   */
  datatype Conn = Conn(running: bool, authenticated: bool, attempts: nat, inProgress: bool, manual: bool)

  /** Signals emitted and messages sent, in order. */
  datatype Event =
    | Connected
    | AuthSent
    | ConnectionFailed
    | LeaveSent
    | Disconnected
    | ReconnectionStarted(attempt: nat, maxAttempts: nat, delay: nat)
    | ReconnectionFailed
    | ReconnectionSucceeded
    | ManualRetryRequired

  /** A client before its first `connect()`. */
  const Initial: Conn := Conn(false, false, 0, false, false)

  /** The backoff delay in seconds before reconnection attempt `attempt`. */
  function Delay(attempt: int): (d: nat)
    ensures 1 <= attempt <= 4 ==> d == Pow2(attempt - 1)
    ensures attempt >= 5 ==> d == 30
  {
    if attempt == 1 then 1
    else if attempt == 2 then 2
    else if attempt == 3 then 4
    else if attempt == 4 then 8
    else 30
  }

  function Pow2(n: nat): nat {
    if n == 0 then 1 else 2 * Pow2(n - 1)
  }

  /** The backoff never shrinks from one attempt to the next and never exceeds 30 seconds. */
  lemma DelayMonotone(a: int, b: int)
    requires 1 <= a <= b
    ensures Delay(a) <= Delay(b) <= 30
  {
  }

  /**
   `disconnect(manual)`: record whether the disconnect was deliberate, send
   `leave_session` only for a deliberate disconnect of an authenticated
   client, stop, and emit `disconnected` only for a deliberate one.
   */
  function Disconnect(c: Conn, manual: bool): (r: (Conn, seq<Event>))
    ensures r.0 == c.(manual := manual, running := false, authenticated := false)
    ensures LeaveSent in r.1 <==> c.authenticated && manual
    ensures Disconnected in r.1 <==> manual
    ensures forall e :: e in r.1 ==> e == LeaveSent || e == Disconnected
  {
    var leave := if c.authenticated && manual then [LeaveSent] else [];
    (c.(manual := manual, running := false, authenticated := false), leave + (if manual then [Disconnected] else []))
  }

  /** How a failed `connect()` tears down: as written with `disconnect()` (deliberate), corrected as a network loss. */
  datatype Variant = AsWritten | Corrected

  /**
   `connect()` with `ok` the outcome of the socket calls: on success the
   client runs and sends its authentication request; on failure it reports
   the error and disconnects.
   */
  function Connect(c: Conn, ok: bool, v: Variant): (r: (Conn, seq<Event>))
    ensures ok ==> r == (c.(running := true), [Connected, AuthSent])
    ensures !ok ==> !r.0.running && !r.0.authenticated && |r.1| > 0 && r.1[0] == ConnectionFailed
    ensures !ok ==> r.0.manual == (v == AsWritten)
    ensures r.0.attempts == c.attempts && r.0.inProgress == c.inProgress
  {
    if ok then (c.(running := true), [Connected, AuthSent])
    else
      var (c1, es) := Disconnect(c, v == AsWritten);
      (c1, [ConnectionFailed] + es)
  }

  /**
   `_attempt_reconnection`: unless a reconnection is already pending, count
   one more attempt and schedule it after the backoff delay for that count.
   */
  function AttemptReconnection(c: Conn): (r: (Conn, seq<Event>))
    ensures c.inProgress ==> r == (c, [])
    ensures !c.inProgress ==>
      && r.0 == c.(inProgress := true, attempts := c.attempts + 1)
      && r.1 == [ReconnectionStarted(c.attempts + 1, MaxReconnectAttempts, Delay(c.attempts + 1))]
  {
    if c.inProgress then (c, [])
    else
      var n := c.attempts + 1;
      (c.(inProgress := true, attempts := n), [ReconnectionStarted(n, MaxReconnectAttempts, Delay(n))])
  }

  /**
   `_handle_connection_lost`: ignored after a deliberate disconnect or while
   a reconnection is pending; otherwise the client stops and either
   schedules another attempt (fewer than 5 so far) or asks for a manual retry.
   */
  function ConnectionLost(c: Conn): (r: (Conn, seq<Event>))
    ensures c.manual || c.inProgress ==> r == (c, [])
    ensures !c.manual && !c.inProgress ==> !r.0.running && !r.0.authenticated && !r.0.manual
    ensures !c.manual && !c.inProgress && c.attempts < MaxReconnectAttempts ==>
      r.0.inProgress && r.0.attempts == c.attempts + 1 &&
      r.1 == [ReconnectionStarted(c.attempts + 1, MaxReconnectAttempts, Delay(c.attempts + 1))]
    ensures !c.manual && !c.inProgress && c.attempts >= MaxReconnectAttempts ==>
      !r.0.inProgress && r.0.attempts == c.attempts && r.1 == [ManualRetryRequired]
  {
    if c.manual || c.inProgress then (c, [])
    else
      var c1 := c.(running := false, authenticated := false);
      if c1.attempts < MaxReconnectAttempts then AttemptReconnection(c1)
      else (c1, [ManualRetryRequired])
  }

  /**
   `_reconnect_after_delay` once the delay has passed: reconnect; on success
   reset the attempt count and clear the pending flag; on failure clear the
   pending flag, report it and handle the loss again.
   */
  function ReconnectAfterDelay(c: Conn, ok: bool, v: Variant): (r: (Conn, seq<Event>))
    ensures ok ==> r.0 == c.(running := true, attempts := 0, inProgress := false)
    ensures ok ==> r.1 == [Connected, AuthSent, ReconnectionSucceeded]
  {
    var (c1, es1) := Connect(c, ok, v);
    if ok then (c1.(attempts := 0, inProgress := false), es1 + [ReconnectionSucceeded])
    else
      var (c2, es2) := ConnectionLost(c1.(inProgress := false));
      (c2, es1 + [ReconnectionFailed] + es2)
  }

  /**
   The chain of pending reconnections, one `connect()` outcome per attempt,
   until none is pending or the outcomes run out.
   */
  function Chain(c: Conn, oks: seq<bool>, v: Variant): (r: (Conn, seq<Event>))
    decreases |oks|
  {
    if !c.inProgress || |oks| == 0 then (c, [])
    else
      var (c1, es1) := ReconnectAfterDelay(c, oks[0], v);
      var (c2, es2) := Chain(c1, oks[1..], v);
      (c2, es1 + es2)
  }

  /** `manual_reconnect`: reset the count and both flags, then attempt at once. */
  function ManualReconnect(c: Conn): (r: (Conn, seq<Event>))
    ensures r.0 == c.(attempts := 1, manual := false, inProgress := true)
    ensures r.1 == [ReconnectionStarted(1, MaxReconnectAttempts, 1)]
  {
    AttemptReconnection(c.(attempts := 0, manual := false, inProgress := false))
  }

  /** `reset_reconnection_state`: called on a deliberate disconnect from the user interface. */
  function ResetReconnectionState(c: Conn): (r: Conn)
    ensures r.attempts == 0 && !r.inProgress && r.manual
    ensures ConnectionLost(r) == (r, [])
  {
    c.(attempts := 0, inProgress := false, manual := true)
  }

  /**
   The end of `_tcp_receive_loop`: after a receive error while running, the
   loss handler runs unless the disconnect was deliberate; then a client
   still running that did not disconnect deliberately disconnects as for a
   network error.
   */
  function ReceiveLoopEnded(c: Conn, error: bool): (r: (Conn, seq<Event>))
    ensures c.manual ==> r.0.manual && r.1 == []
    ensures !c.manual ==> !r.0.running
  {
    var (c1, es1) := if error && c.running && !c.manual then ConnectionLost(c) else (c, []);
    if c1.running && !c1.manual then
      var (c2, es2) := Disconnect(c1, false);
      (c2, es1 + es2)
    else (c1, es1)
  }

  // ---------------------------------------------------------------------------
  // Invariant: the attempt counter stays within the limit
  // ---------------------------------------------------------------------------

  predicate Bounded(c: Conn) {
    c.attempts <= MaxReconnectAttempts
  }

  /** Every transition keeps the counter at most 5, so at most five attempts are scheduled in a row. */
  lemma {:induction false} ChainBounded(c: Conn, oks: seq<bool>, v: Variant)
    requires Bounded(c)
    ensures Bounded(Chain(c, oks, v).0)
    ensures Bounded(ConnectionLost(c).0) && Bounded(ManualReconnect(c).0)
    decreases |oks|
  {
    if c.inProgress && |oks| > 0 {
      var (c1, _) := ReconnectAfterDelay(c, oks[0], v);
      assert Bounded(c1);
      ChainBounded(c1, oks[1..], v);
    }
  }

  /** A successful reconnection starts the count afresh: the next loss schedules attempt 1. */
  lemma SuccessResets(c: Conn, v: Variant)
    requires !c.manual
    ensures var c1 := ReconnectAfterDelay(c, true, v).0;
            && c1.attempts == 0 && c1.running && !c1.inProgress
            && ConnectionLost(c1).1 == [ReconnectionStarted(1, MaxReconnectAttempts, 1)]
  {
  }

  // ---------------------------------------------------------------------------
  // As written: one failed reconnection ends automatic recovery
  // ---------------------------------------------------------------------------

  /** The events that schedule an attempt or ask for a manual retry. */
  predicate Recovers(e: Event) {
    e.ReconnectionStarted? || e == ManualRetryRequired
  }

  /**
   As written, the first failed `connect()` inside a reconnection marks the
   disconnect as deliberate, so the loss handler it calls does nothing: no
   further attempt is scheduled and `manual_retry_required` is never
   emitted, and the chain stops whatever later outcomes would have been.
   */
  lemma FailedReconnectHalts(c: Conn, rest: seq<bool>)
    requires c.inProgress
    ensures var r := ReconnectAfterDelay(c, false, AsWritten); var c1 := r.0; var es := r.1;
            && c1.manual && !c1.inProgress && !c1.running
            && (forall e :: e in es ==> !Recovers(e))
            && Chain(c, [false] + rest, AsWritten) == (c1, es)
            && ConnectionLost(c1) == (c1, [])
  {
    var (c1, es) := ReconnectAfterDelay(c, false, AsWritten);
    assert ([false] + rest)[1..] == rest;
    assert Chain(c1, rest, AsWritten) == (c1, []);
    assert es + [] == es;
  }

  /**
   From a live connection that drops, the source schedules one attempt and,
   if it fails, stops there: one `reconnection_started` in total.
   */
  lemma AsWrittenSingleAttempt(rest: seq<bool>)
    ensures var live := Initial.(running := true, authenticated := true);
            var lost := ConnectionLost(live);
            var r := Chain(lost.0, [false] + rest, AsWritten);
            && lost.1 == [ReconnectionStarted(1, MaxReconnectAttempts, 1)]
            && (forall e :: e in r.1 ==> !Recovers(e))
            && r.0.manual && !r.0.inProgress
  {
    var live := Initial.(running := true, authenticated := true);
    var (c1, es1) := ConnectionLost(live);
    FailedReconnectHalts(c1, rest);
  }

  // ---------------------------------------------------------------------------
  // Corrected: the documented schedule, then a manual retry
  // ---------------------------------------------------------------------------

  /** The delays of the attempts scheduled in `es`, in order. */
  function StartedDelays(es: seq<Event>): (ds: seq<nat>)
    ensures |ds| <= |es|
  {
    if |es| == 0 then []
    else (if es[0].ReconnectionStarted? then [es[0].delay] else []) + StartedDelays(es[1..])
  }

  lemma {:induction false} StartedDelaysAppend(a: seq<Event>, b: seq<Event>)
    ensures StartedDelays(a + b) == StartedDelays(a) + StartedDelays(b)
    decreases |a|
  {
    if |a| == 0 {
      assert a + b == b;
    } else {
      var ab := a + b;
      assert ab[0] == a[0] && ab[1..] == a[1..] + b;
      StartedDelaysAppend(a[1..], b);
      var head := if a[0].ReconnectionStarted? then [a[0].delay] else [];
      assert StartedDelays(ab) == head + StartedDelays(a[1..] + b);
      assert StartedDelays(a) == head + StartedDelays(a[1..]);
      Basics.ConcatAssoc(head, StartedDelays(a[1..]), StartedDelays(b));
    }
  }

  /** The delays of attempts `from .. 5`. */
  function Schedule(from: nat): seq<nat>
    decreases MaxReconnectAttempts + 1 - from
  {
    if from > MaxReconnectAttempts then [] else [Delay(from)] + Schedule(from + 1)
  }

  /** Corrected, one failed reconnection schedules the next attempt, or asks for a manual retry after the fifth. */
  lemma FailStep(c: Conn)
    requires c.inProgress && !c.manual
    ensures var r := ReconnectAfterDelay(c, false, Corrected); var c1 := r.0; var es := r.1;
            && c1 == (if c.attempts < MaxReconnectAttempts
                      then c.(running := false, authenticated := false, attempts := c.attempts + 1)
                      else c.(running := false, authenticated := false, inProgress := false))
            && StartedDelays(es) == (if c.attempts < MaxReconnectAttempts then [Delay(c.attempts + 1)] else [])
            && |es| > 0 && es[|es| - 1] == (if c.attempts < MaxReconnectAttempts
                                            then ReconnectionStarted(c.attempts + 1, MaxReconnectAttempts, Delay(c.attempts + 1))
                                            else ManualRetryRequired)
  {
    var down := c.(running := false, authenticated := false);
    assert Disconnect(c, false) == (down, []);
    assert [ConnectionFailed] + [] == [ConnectionFailed];
    assert Connect(c, false, Corrected) == (down, [ConnectionFailed]);
    var lost := down.(inProgress := false);
    var (c2, es2) := ConnectionLost(lost);
    assert [ConnectionFailed] + [ReconnectionFailed] + es2 == [ConnectionFailed, ReconnectionFailed] + es2;
    assert ReconnectAfterDelay(c, false, Corrected) == (c2, [ConnectionFailed, ReconnectionFailed] + es2);
    StartedDelaysAppend([ConnectionFailed, ReconnectionFailed], es2);
  }

  /**
   Corrected, when every reconnection fails, a pending attempt `a` is
   followed by attempts `a + 1 .. 5` with their backoff delays, and then by
   a request for a manual retry.
   */
  lemma {:induction false} CorrectedChainGivesUp(c: Conn, oks: seq<bool>)
    requires c.inProgress && !c.manual && 1 <= c.attempts <= MaxReconnectAttempts
    requires |oks| >= MaxReconnectAttempts + 1 - c.attempts
    requires forall i :: 0 <= i < |oks| ==> !oks[i]
    ensures var r := Chain(c, oks, Corrected); var c' := r.0; var es := r.1;
            && StartedDelays(es) == Schedule(c.attempts + 1)
            && |es| > 0 && es[|es| - 1] == ManualRetryRequired
            && !c'.inProgress && !c'.manual && c'.attempts == MaxReconnectAttempts
    decreases MaxReconnectAttempts - c.attempts
  {
    var (c1, es1) := ReconnectAfterDelay(c, false, Corrected);
    FailStep(c);
    var (c2, es2) := Chain(c1, oks[1..], Corrected);
    assert oks[0] == false;
    assert Chain(c, oks, Corrected) == (c2, es1 + es2);
    if c.attempts < MaxReconnectAttempts {
      CorrectedChainGivesUp(c1, oks[1..]);
      StartedDelaysAppend(es1, es2);
      assert Schedule(c.attempts + 1) == [Delay(c.attempts + 1)] + Schedule(c.attempts + 2);
    } else {
      assert Schedule(c.attempts + 1) == [];
      assert es1 + es2 == es1;
    }
  }

  /**
   Corrected, a connection that drops and never comes back is retried
   after 1, 2, 4, 8 and 30 seconds, and then the user is asked to retry.
   */
  lemma CorrectedFullSchedule(live: Conn, oks: seq<bool>)
    requires !live.manual && !live.inProgress && live.attempts == 0
    requires |oks| >= MaxReconnectAttempts && forall i :: 0 <= i < |oks| ==> !oks[i]
    ensures StartedDelays(ConnectionLost(live).1 + Chain(ConnectionLost(live).0, oks, Corrected).1) == [1, 2, 4, 8, 30]
    ensures var es := Chain(ConnectionLost(live).0, oks, Corrected).1; |es| > 0 && es[|es| - 1] == ManualRetryRequired
  {
    var lost := ConnectionLost(live);
    CorrectedChainGivesUp(lost.0, oks);
    var es2 := Chain(lost.0, oks, Corrected).1;
    StartedDelaysAppend(lost.1, es2);
    assert StartedDelays(lost.1) == [1];
    DocumentedSchedule();
    assert StartedDelays(lost.1 + es2) == [1] + [2, 4, 8, 30];
  }

  /** Attempts 2 to 5 wait 2, 4, 8 and 30 seconds. */
  lemma DocumentedSchedule()
    ensures Schedule(2) == [2, 4, 8, 30]
  {
    assert Schedule(6) == [];
    assert Schedule(5) == [30];
    assert Schedule(4) == [8, 30];
    assert Schedule(3) == [4, 8, 30];
  }

  /** A manual retry after the chain has halted schedules a fresh first attempt one second later. */
  lemma ManualRetryRestarts(c: Conn)
    ensures var r := ManualReconnect(c); var c1 := r.0; var es := r.1;
            c1.inProgress && !c1.manual && c1.attempts == 1 && StartedDelays(es) == [1]
  {
  }
}
