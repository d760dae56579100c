/**
 The outbox: queued updates with retries, exponential backoff and queue bounds. The
 table keeps every row; ids are given out in increasing order and never reused.
 */
module Outbox {
  import opened Base

  const NANOS_PER_MS := 1_000_000
  const BASE_DELAY_MS := 250
  const MAX_DELAY_MS := 30_000
  const MAX_ATTEMPTS := 8
  const MAX_PENDING_UPDATES := 10_000
  const MAX_PENDING_BYTES := 1_073_741_824

  datatype UpdateState = Pending | Sent | Acked | Dead

  /** A row; the payload is represented by its stored length. */
  datatype Row = Row(workspace: string, payloadLen: nat, retryCount: nat, nextRetryAt: Option<int>, state: UpdateState)

  /** Rows by id, and the id the next row will get. */
  datatype Table = Table(rows: map<nat, Row>, nextId: nat)

  /** The table as it is created. */
  const EMPTY := Table(map[], 1)

  function Pow2(n: nat): nat {
    if n == 0 then 1 else 2 * Pow2(n - 1)
  }

  /** Delay before the next attempt, in milliseconds, after `attempt` earlier failures. */
  function BackoffDelay(attempt: nat): int {
    Min(BASE_DELAY_MS * Pow2(Min(attempt, 7)), MAX_DELAY_MS)
  }

  predicate Active(row: Row) {
    row.state == Pending || row.state == Sent
  }

  predicate Counted(t: Table, ws: string, id: nat) {
    id in t.rows && t.rows[id].workspace == ws && Active(t.rows[id])
  }

  /** Pending or sent rows of a workspace with ids below `n`, and their stored bytes. */
  function CountBelow(t: Table, ws: string, n: nat): nat {
    if n == 0 then 0 else CountBelow(t, ws, n - 1) + (if Counted(t, ws, n - 1) then 1 else 0)
  }

  function BytesBelow(t: Table, ws: string, n: nat): nat {
    if n == 0 then 0 else BytesBelow(t, ws, n - 1) + (if Counted(t, ws, n - 1) then t.rows[n - 1].payloadLen else 0)
  }

  predicate OverLimit(t: Table, ws: string) {
    CountBelow(t, ws, t.nextId) >= MAX_PENDING_UPDATES || BytesBelow(t, ws, t.nextId) >= MAX_PENDING_BYTES
  }

  predicate Ready(t: Table, id: nat, now: int) {
    && id in t.rows && t.rows[id].state == Pending
    && (t.rows[id].nextRetryAt.None? || t.rows[id].nextRetryAt.value <= now)
  }

  // ----- One operation -----

  datatype Event =
    | OnEnqueue(workspace: string, payloadLen: nat, now: int)
    | OnSent(id: nat, now: int)
    | OnAcked(id: nat, now: int)
    | OnFailed(id: nat, now: int)

  /** The operation changes the table. */
  predicate Effective(t: Table, e: Event) {
    match e
    case OnEnqueue(ws, _, _) => !OverLimit(t, ws)
    case OnSent(id, _) => id in t.rows && t.rows[id].state == Pending
    case OnAcked(id, _) => id in t.rows && t.rows[id].state == Sent
    case OnFailed(id, _) => id in t.rows && t.rows[id].state == Sent
  }

  /** A row after one more failed attempt: dead after the last one, else due again after the backoff. */
  function Failed(row: Row, now: int): Row {
    var retries := row.retryCount + 1;
    if retries >= MAX_ATTEMPTS then row.(state := Dead, retryCount := retries)
    else
      row.(state := Pending, retryCount := retries,
      nextRetryAt := Some(now + BackoffDelay(row.retryCount) * NANOS_PER_MS))
  }

  function Step(t: Table, e: Event): Table {
    if !Effective(t, e) then t
    else
      match e
      case OnEnqueue(ws, len, _) => Table(t.rows[t.nextId := Row(ws, len, 0, None, Pending)], t.nextId + 1)
      case OnSent(id, _) => t.(rows := t.rows[id := t.rows[id].(state := Sent)])
      case OnAcked(id, _) => t.(rows := t.rows[id := t.rows[id].(state := Acked)])
      case OnFailed(id, now) => t.(rows := t.rows[id := Failed(t.rows[id], now)])
  }

  // ----- Runs -----

  /** The table after a run of operations on a new queue. */
  ghost function After(run: seq<Event>): Table {
    if run == [] then EMPTY else Step(After(run[..|run| - 1]), run[|run| - 1])
  }

  ghost function Sends(run: seq<Event>, id: nat): nat {
    if run == [] then 0
    else
      var init, e := run[..|run| - 1], run[|run| - 1];
      Sends(init, id) + (if e.OnSent? && e.id == id && Effective(After(init), e) then 1 else 0)
  }

  ghost function Acks(run: seq<Event>, id: nat): nat {
    if run == [] then 0
    else
      var init, e := run[..|run| - 1], run[|run| - 1];
      Acks(init, id) + (if e.OnAcked? && e.id == id && Effective(After(init), e) then 1 else 0)
  }

  ghost predicate FailsAt(init: seq<Event>, e: Event, id: nat) {
    e.OnFailed? && e.id == id && Effective(After(init), e)
  }

  ghost function Failures(run: seq<Event>, id: nat): nat {
    if run == [] then 0
    else
      var init, e := run[..|run| - 1], run[|run| - 1];
      Failures(init, id) + (if FailsAt(init, e, id) then 1 else 0)
  }

  /** When an update first failed. */
  ghost function FirstFailure(run: seq<Event>, id: nat): Option<int> {
    if run == [] then None
    else
      var init, e := run[..|run| - 1], run[|run| - 1];
      if FirstFailure(init, id).Some? then FirstFailure(init, id)
      else if FailsAt(init, e, id) then Some(e.now)
      else None
  }

  // ----- What holds in every run -----

  /** Ids are below the next id, so a new row never replaces one. */
  ghost predicate FreshIds(t: Table) {
    t.nextId > 0 && forall id :: id in t.rows ==> 0 < id < t.nextId
  }

  lemma {:induction false} RunsKeepFreshIds(run: seq<Event>)
    ensures FreshIds(After(run))
  {
    if run != [] { RunsKeepFreshIds(run[..|run| - 1]); }
  }

  /** How the counters of a row relate to what happened to it. */
  ghost predicate CountersAgree(t: Table, id: nat, sends: nat, failures: nat, acks: nat) {
    if id !in t.rows then sends == 0 && failures == 0 && acks == 0
    else
      var row := t.rows[id];
      && row.retryCount == failures <= 8 && acks <= 1
      && (row.state == Dead <==> failures == 8)
      && (row.state == Acked <==> acks == 1)
      && sends == failures + acks + (if row.state == Sent then 1 else 0)
  }

  /**
   In every run the retry count is the number of failed attempts, a row is dead
   exactly after the eighth and acked exactly after its one acknowledgement, every
   send has failed, was acknowledged or is under way, and no row is sent more than
   eight times.
   */
  lemma {:induction false} RunsCountAttempts(run: seq<Event>, id: nat)
    ensures CountersAgree(After(run), id, Sends(run, id), Failures(run, id), Acks(run, id))
    ensures Sends(run, id) <= 8
    decreases |run|
  {
    if run != [] {
      var init, e := run[..|run| - 1], run[|run| - 1];
      RunsCountAttempts(init, id);
      RunsKeepFreshIds(init);
      CountersStep(After(init), e, id, Sends(init, id), Failures(init, id), Acks(init, id));
    }
  }

  lemma {:induction false} CountersStep(t: Table, e: Event, id: nat, sends: nat, failures: nat, acks: nat)
    requires FreshIds(t) && CountersAgree(t, id, sends, failures, acks)
    ensures var sent := e.OnSent? && e.id == id && Effective(t, e);
            var failed := e.OnFailed? && e.id == id && Effective(t, e);
            var acked := e.OnAcked? && e.id == id && Effective(t, e);
            CountersAgree(Step(t, e), id, if sent then sends + 1 else sends,
                          if failed then failures + 1 else failures, if acked then acks + 1 else acks)
  {
    hide OverLimit, BackoffDelay;
  }

  /** Acked and dead rows never change again. */
  lemma {:induction false} TerminalRowsStay(run: seq<Event>, more: seq<Event>, id: nat)
    requires id in After(run).rows && !Active(After(run).rows[id])
    ensures id in After(run + more).rows && After(run + more).rows[id] == After(run).rows[id]
    decreases |more|
  {
    if more == [] {
      assert run + more == run;
    } else {
      TerminalRowsStay(run, more[..|more| - 1], id);
      assert (run + more)[..|run + more| - 1] == run + more[..|more| - 1];
      RunsKeepFreshIds(run + more[..|more| - 1]);
    }
  }

  // ----- Queue bounds -----

  /** When a row was accepted, the queue before it was under both limits. */
  ghost predicate Bounded(t: Table, ws: string) {
    forall id: nat :: Counted(t, ws, id) ==>
                        CountBelow(t, ws, id) < MAX_PENDING_UPDATES && BytesBelow(t, ws, id) < MAX_PENDING_BYTES
  }

  /** Rows that count in the second table count in the first, with the same bytes. */
  ghost predicate Shrinks(t: Table, t': Table, ws: string, n: nat) {
    forall id: nat :: id < n && Counted(t', ws, id) ==>
                        Counted(t, ws, id) && t'.rows[id].payloadLen == t.rows[id].payloadLen
  }

  lemma {:induction false} ShrinkingCounts(t: Table, t': Table, ws: string, n: nat)
    requires Shrinks(t, t', ws, n)
    ensures CountBelow(t', ws, n) <= CountBelow(t, ws, n) && BytesBelow(t', ws, n) <= BytesBelow(t, ws, n)
  {
    if n > 0 { ShrinkingCounts(t, t', ws, n - 1); }
  }

  lemma {:induction false} StepShrinks(t: Table, e: Event, ws: string, n: nat)
    requires FreshIds(t) && n <= t.nextId
    ensures Shrinks(t, Step(t, e), ws, n)
  {
    hide OverLimit, BackoffDelay;
  }

  lemma {:induction false} StepKeepsBounds(t: Table, e: Event, ws: string)
    requires FreshIds(t) && Bounded(t, ws)
    ensures Bounded(Step(t, e), ws)
  {
    var t' := Step(t, e);
    forall id: nat | Counted(t', ws, id)
      ensures CountBelow(t', ws, id) < MAX_PENDING_UPDATES && BytesBelow(t', ws, id) < MAX_PENDING_BYTES
    {
      StepFreshIds(t, e);
      if id <= t.nextId {
        StepShrinks(t, e, ws, t.nextId);
        assert Shrinks(t, t', ws, id);
        ShrinkingCounts(t, t', ws, id);
      }
    }
  }

  lemma {:induction false} StepFreshIds(t: Table, e: Event)
    requires FreshIds(t)
    ensures forall id :: id in Step(t, e).rows ==> id <= t.nextId
    ensures t.nextId in Step(t, e).rows ==>
              e.OnEnqueue? && !OverLimit(t, e.workspace) && Step(t, e).rows[t.nextId].workspace == e.workspace
  {
    hide OverLimit, BackoffDelay;
  }

  lemma {:induction false} RunsKeepBounds(run: seq<Event>, ws: string)
    ensures Bounded(After(run), ws)
  {
    if run != [] {
      RunsKeepBounds(run[..|run| - 1], ws);
      RunsKeepFreshIds(run[..|run| - 1]);
      StepKeepsBounds(After(run[..|run| - 1]), run[|run| - 1], ws);
    }
  }

  lemma {:induction false} NewestCounted(t: Table, ws: string, n: nat) returns (newest: Option<nat>)
    ensures newest.None? ==> CountBelow(t, ws, n) == 0 && BytesBelow(t, ws, n) == 0
    ensures newest.Some? ==> newest.value < n && Counted(t, ws, newest.value)
    ensures newest.Some? ==> CountBelow(t, ws, n) == CountBelow(t, ws, newest.value) + 1
    ensures newest.Some? ==> BytesBelow(t, ws, n) == BytesBelow(t, ws, newest.value) + t.rows[newest.value].payloadLen
  {
    if n == 0 {
      newest := None;
    } else if Counted(t, ws, n - 1) {
      newest := Some(n - 1);
    } else {
      newest := NewestCounted(t, ws, n - 1);
    }
  }

  /**
   In every run a workspace has at most ten thousand pending or sent rows, and their
   bytes stay below one gibibyte plus its newest such row.
   */
  lemma {:induction false} RunsStayWithinLimits(run: seq<Event>, ws: string) returns (newest: Option<nat>)
    ensures var t := After(run);
            && CountBelow(t, ws, t.nextId) <= 10_000
            && (newest.None? ==> BytesBelow(t, ws, t.nextId) == 0)
            && (newest.Some? ==> Counted(t, ws, newest.value)
                                 && BytesBelow(t, ws, t.nextId) < 1024 * 1024 * 1024 + t.rows[newest.value].payloadLen)
  {
    hide Counted;
    RunsKeepBounds(run, ws);
    newest := NewestCounted(After(run), ws, After(run).nextId);
  }

  // ----- Real time -----

  /** The clock never goes back, and rows are sent only while they are ready. */
  ghost predicate Disciplined(run: seq<Event>) {
    run == [] ||
    (var init, e := run[..|run| - 1], run[|run| - 1];
     && Disciplined(init)
     && (init != [] ==> init[|init| - 1].now <= e.now)
     && (e.OnSent? ==> Ready(After(init), e.id, e.now)))
  }

  /** 250 ms doubled `r` times, summed: the least time `r` backoffs take. */
  function BackoffSum(r: nat): int {
    BASE_DELAY_MS * (Pow2(r) - 1) * NANOS_PER_MS
  }

  /** A row that has failed is not due before its backoffs have passed, and is not sent before it is due. */
  ghost predicate OnTime(row: Row, first: Option<int>, clock: int) {
    && (row.retryCount == 0 <==> first.None?)
    && (0 < row.retryCount < MAX_ATTEMPTS ==>
          && row.nextRetryAt.Some? && row.nextRetryAt.value >= first.value + BackoffSum(row.retryCount)
          && (row.state == Sent ==> clock >= row.nextRetryAt.value))
    && (first.Some? ==> first.value <= clock)
  }

  /** The delay starts at 250 ms, doubles with every failure and stays at 30 s from the eighth on. */
  lemma {:induction false} BackoffShape(attempt: nat)
    ensures attempt < 7 ==> BackoffDelay(attempt) == 250 * Pow2(attempt)
    ensures attempt >= 7 ==> BackoffDelay(attempt) == 30_000
  {
    assert Pow2(6) == 64 && Pow2(7) == 128;
    if attempt < 7 { PowGrows(attempt, 6); }
  }

  lemma {:induction false} BackoffValue(r: nat)
    requires r < 7
    ensures BackoffSum(r + 1) == BackoffSum(r) + BackoffDelay(r) * NANOS_PER_MS
  {
    BackoffShape(r);
    hide BackoffDelay;
  }

  lemma {:induction false} PowGrows(m: nat, n: nat)
    requires m <= n
    ensures Pow2(m) <= Pow2(n)
    decreases n
  {
    if m < n { PowGrows(m, n - 1); }
  }

  /** In every disciplined run every row is on time. */
  lemma {:induction false} RunsBackOff(run: seq<Event>, id: nat)
    requires Disciplined(run) && run != []
    ensures id in After(run).rows ==> OnTime(After(run).rows[id], FirstFailure(run, id), run[|run| - 1].now)
    ensures id !in After(run).rows ==> FirstFailure(run, id).None?
    decreases |run|
  {
    var init, e := run[..|run| - 1], run[|run| - 1];
    RunsKeepFreshIds(init);
    RunsCountAttempts(init, id);
    if init != [] { RunsBackOff(init, id); }
    BackoffStep(After(init), e, id, FirstFailure(init, id), if init == [] then e.now else init[|init| - 1].now);
  }

  lemma {:induction false} BackoffStep(t: Table, e: Event, id: nat, first: Option<int>, clock: int)
    requires FreshIds(t) && clock <= e.now
    requires e.OnSent? ==> Ready(t, e.id, e.now)
    requires id in t.rows ==> OnTime(t.rows[id], first, clock) && t.rows[id].retryCount <= MAX_ATTEMPTS
    requires id in t.rows && t.rows[id].retryCount == MAX_ATTEMPTS ==> t.rows[id].state == Dead
    requires id !in t.rows ==> first.None?
    ensures var failed := e.OnFailed? && e.id == id && Effective(t, e);
            var first' := if first.Some? then first else if failed then Some(e.now) else None;
            var t' := Step(t, e);
            if id in t'.rows then OnTime(t'.rows[id], first', e.now) else first'.None?
  {
    hide OverLimit, BackoffSum, BackoffDelay;
    if id in t.rows && t.rows[id].retryCount < 7 { BackoffValue(t.rows[id].retryCount); }
    NoBackoff();
  }

  lemma {:induction false} NoBackoff()
    ensures BackoffSum(0) == 0
  {
  }

  /**
   In every disciplined run, after r failures (1 to 7) an update is not due before its
   first failure plus 250 * (2^r - 1) milliseconds.
   */
  lemma {:induction false} RetryIsNotDueEarly(run: seq<Event>, id: nat)
    requires Disciplined(run) && 1 <= Failures(run, id) <= 7
    ensures FirstFailure(run, id).Some? && id in After(run).rows && After(run).rows[id].nextRetryAt.Some?
    ensures After(run).rows[id].nextRetryAt.value
         >= FirstFailure(run, id).value + 250 * (Pow2(Failures(run, id)) - 1) * 1_000_000
  {
    RunsCountAttempts(run, id);
    RunsBackOff(run, id);
  }

  /** No update dies less than 250 * (2^7 - 1) = 31,750 milliseconds after its first failure. */
  lemma {:induction false} NoEarlyDeath(run: seq<Event>, e: Event, id: nat)
    requires Disciplined(run + [e])
    requires id in After(run).rows && After(run).rows[id].state != Dead
    requires id in After(run + [e]).rows && After(run + [e]).rows[id].state == Dead
    ensures FirstFailure(run, id).Some? && e.now >= FirstFailure(run, id).value + 31_750 * 1_000_000
  {
    assert (run + [e])[..|run|] == run;
    RunsKeepFreshIds(run);
    RunsCountAttempts(run, id);
    assert run != [];
    RunsBackOff(run, id);
    assert Pow2(7) == 128;
    hide OverLimit, BackoffDelay;
  }

  // ----- The queue -----

  datatype BackpressureStatus = BackpressureStatus(pendingCount: nat, pendingBytes: nat, isOverLimit: bool)

  datatype OutboxError = OutboxBackpressure(pendingCount: nat, pendingBytes: nat) | NoSuchUpdate

  class OutboxQueue {
    var rows: map<nat, Row>
    var nextId: nat

    /** A queue over the table as it is. */
    constructor (table: Table)
      ensures View() == table
    {
      rows, nextId := table.rows, table.nextId;
    }

    function View(): Table
      reads this
    {
      Table(rows, nextId)
    }

    /** Counts the pending and sent rows of a workspace and adds up their bytes. */
    method CheckBackpressure(ws: string) returns (status: BackpressureStatus)
      ensures status.pendingCount == CountBelow(View(), ws, nextId)
      ensures status.pendingBytes == BytesBelow(View(), ws, nextId)
      ensures status.isOverLimit <==> OverLimit(View(), ws)
      ensures status.isOverLimit <==> status.pendingCount >= 10_000 || status.pendingBytes >= 1024 * 1024 * 1024
    {
      var count, bytes := 0, 0;
      for id := 0 to nextId
        invariant count == CountBelow(View(), ws, id) && bytes == BytesBelow(View(), ws, id)
      {
        if id in rows && rows[id].workspace == ws && (rows[id].state == Pending || rows[id].state == Sent) {
          count, bytes := count + 1, bytes + rows[id].payloadLen;
        }
      }
      status := BackpressureStatus(count, bytes, count >= MAX_PENDING_UPDATES || bytes >= MAX_PENDING_BYTES);
    }

    /** Adds an update unless the workspace is over its bounds. */
    method Enqueue(ws: string, payloadLen: nat, now: int) returns (r: Result<nat, OutboxError>)
      modifies this
      ensures View() == Step(old(View()), OnEnqueue(ws, payloadLen, now))
      ensures r.Ok? <==> CountBelow(old(View()), ws, old(nextId)) < 10_000
                         && BytesBelow(old(View()), ws, old(nextId)) < 1024 * 1024 * 1024
      ensures r.Ok? ==> r.value == old(nextId)
      ensures r.Err? ==>
                r.error == OutboxBackpressure(CountBelow(old(View()), ws, nextId), BytesBelow(old(View()), ws, nextId))
    {
      hide CountBelow, BytesBelow, OverLimit;
      var status := CheckBackpressure(ws);
      if status.isOverLimit {
        return Err(OutboxBackpressure(status.pendingCount, status.pendingBytes));
      }
      rows := rows[nextId := Row(ws, payloadLen, 0, None, Pending)];
      r := Ok(nextId);
      nextId := nextId + 1;
    }

    /** Takes a pending update into flight. */
    method MarkSent(id: nat, ghost now: int) returns (changed: bool)
      modifies this
      ensures View() == Step(old(View()), OnSent(id, now))
      ensures changed <==> Effective(old(View()), OnSent(id, now))
    {
      changed := id in rows && rows[id].state == Pending;
      if changed {
        rows := rows[id := rows[id].(state := Sent)];
      }
    }

    /** Settles an update that is in flight. */
    method MarkAcked(id: nat, ghost now: int) returns (changed: bool)
      modifies this
      ensures View() == Step(old(View()), OnAcked(id, now))
      ensures changed <==> Effective(old(View()), OnAcked(id, now))
    {
      changed := id in rows && rows[id].state == Sent;
      if changed {
        rows := rows[id := rows[id].(state := Acked)];
      }
    }

    /** Records a failed attempt: schedules the next one or gives the update up. */
    method MarkFailed(id: nat, now: int) returns (r: Result<bool, OutboxError>)
      modifies this
      ensures View() == Step(old(View()), OnFailed(id, now))
      ensures r == if id !in old(rows) then Err(NoSuchUpdate) else Ok(Effective(old(View()), OnFailed(id, now)))
    {
      if id !in rows {
        return Err(NoSuchUpdate);
      }
      var row := rows[id];
      if row.state != Sent {
        return Ok(false);
      }
      var newRetryCount := row.retryCount + 1;
      if newRetryCount >= MAX_ATTEMPTS {
        rows := rows[id := row.(state := Dead, retryCount := newRetryCount)];
      } else {
        var delay := BackoffDelay(row.retryCount);
        var nextRetry := now + delay * NANOS_PER_MS;
        rows := rows[id := row.(state := Pending, retryCount := newRetryCount, nextRetryAt := Some(nextRetry))];
      }
      return Ok(true);
    }

    /** The ids of all rows that may be sent now, in increasing order. */
    method ReadyToSend(now: int) returns (ids: seq<nat>)
      requires FreshIds(View())
      ensures forall i, j :: 0 <= i < j < |ids| ==> ids[i] < ids[j]
      ensures forall id :: id in ids <==> Ready(View(), id, now)
    {
      ids := [];
      for id := 0 to nextId
        invariant forall i, j :: 0 <= i < j < |ids| ==> ids[i] < ids[j]
        invariant forall i :: 0 <= i < |ids| ==> ids[i] < id
        invariant forall k: nat :: k in ids <==> k < id && Ready(View(), k, now)
      {
        if id in rows && rows[id].state == Pending
           && (rows[id].nextRetryAt.None? || rows[id].nextRetryAt.value <= now) {
          ids := ids + [id];
        }
      }
    }
  }
}
