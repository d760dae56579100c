/** Runs of the outbox, judged by their events: where rows come from, when they are due, and what is pending. */
module OutboxLedger {
  import opened Base
  import opened Outbox

  // ----- Where rows come from -----

  ghost predicate AcceptedAt(init: seq<Event>, e: Event) {
    e.OnEnqueue? && Effective(After(init), e)
  }

  /** How many updates a run has accepted. */
  ghost function Accepts(run: seq<Event>): nat {
    if run == [] then 0
    else
      var init, e := run[..|run| - 1], run[|run| - 1];
      Accepts(init) + (if AcceptedAt(init, e) then 1 else 0)
  }

  datatype Update = Update(workspace: string, payloadLen: nat)

  /** The update that was accepted as number `id`. */
  ghost function Origin(run: seq<Event>, id: nat): Option<Update> {
    if run == [] then None
    else
      var init, e := run[..|run| - 1], run[|run| - 1];
      if AcceptedAt(init, e) && Accepts(run) == id then Some(Update(e.workspace, e.payloadLen)) else Origin(init, id)
  }

  /** The rows of a table are the accepted updates, numbered from one in order, as they were enqueued. */
  lemma {:induction false} RowsAreAccepted(run: seq<Event>, id: nat)
    ensures After(run).nextId == Accepts(run) + 1
    ensures id in After(run).rows <==> Origin(run, id).Some?
    ensures id in After(run).rows <==> 0 < id <= Accepts(run)
    ensures id in After(run).rows ==>
              Origin(run, id) == Some(Update(After(run).rows[id].workspace, After(run).rows[id].payloadLen))
    decreases |run|
  {
    hide OverLimit, BackoffDelay;
    if run != [] {
      RowsAreAccepted(run[..|run| - 1], id);
    }
  }

  // ----- When rows are due -----

  /** When an update last failed. */
  ghost function LastFailure(run: seq<Event>, id: nat): int {
    if run == [] then 0
    else
      var init, e := run[..|run| - 1], run[|run| - 1];
      if FailsAt(init, e, id) then e.now else LastFailure(init, id)
  }

  /** The retry time a row carries after some failures. */
  ghost predicate RetrySet(row: Row, failures: nat, last: int) {
    && (failures == 0 ==> row.nextRetryAt == None)
    && (1 <= failures <= 7 ==> row.nextRetryAt == Some(last + 250 * Pow2(failures - 1) * 1_000_000))
  }

  lemma {:induction false} RetryStep(t: Table, e: Event, id: nat, failures: nat, last: int)
    requires FreshIds(t) && (id in t.rows ==> RetrySet(t.rows[id], failures, last) && t.rows[id].retryCount == failures)
    requires id !in t.rows ==> failures == 0
    ensures var failed := e.OnFailed? && e.id == id && Effective(t, e);
            id in Step(t, e).rows ==>
              RetrySet(Step(t, e).rows[id], if failed then failures + 1 else failures, if failed then e.now else last)
  {
    hide OverLimit, BackoffDelay, Pow2;
    BackoffShape(failures);
  }

  /** In every run a row that failed up to seven times is due 250 ms, doubled per earlier failure, after the last. */
  lemma {:induction false} RunsSetRetry(run: seq<Event>, id: nat)
    ensures id in After(run).rows ==> RetrySet(After(run).rows[id], Failures(run, id), LastFailure(run, id))
    decreases |run|
  {
    hide RetrySet, OverLimit;
    if run != [] {
      var init, e := run[..|run| - 1], run[|run| - 1];
      RunsSetRetry(init, id);
      RunsKeepFreshIds(init);
      RunsCountAttempts(init, id);
      RetryStep(After(init), e, id, Failures(init, id), LastFailure(init, id));
    }
  }

  /**
   In every run an update is ready exactly if it was accepted, has not been
   acknowledged or given up, is not under way, and its backoff is over; one that never
   failed is ready at once.
   */
  lemma {:induction false} ReadyExactly(run: seq<Event>, id: nat, now: int)
    ensures var f := Failures(run, id);
            Ready(After(run), id, now) <==>
            && 0 < id <= Accepts(run) && Acks(run, id) == 0 && Sends(run, id) == f < 8
            && (f == 0 || now >= LastFailure(run, id) + 250 * Pow2(f - 1) * 1_000_000)
  {
    hide After, Sends, Failures, Acks, Accepts, Origin, LastFailure, Pow2;
    RunsCountAttempts(run, id);
    RunsSetRetry(run, id);
    RowsAreAccepted(run, id);
  }

  // ----- What is pending -----

  /** The pending and sent rows of a workspace. */
  ghost function Outstanding(t: Table, ws: string): set<nat> {
    set id | id in t.rows && t.rows[id].workspace == ws && (t.rows[id].state == Pending || t.rows[id].state == Sent)
  }

  lemma {:induction false} CountIsCardinality(t: Table, ws: string, n: nat)
    ensures CountBelow(t, ws, n) == |set id | id in Outstanding(t, ws) && id < n|
  {
    var all := set id | id in Outstanding(t, ws) && id < n;
    if n > 0 {
      CountIsCardinality(t, ws, n - 1);
      var before := set id | id in Outstanding(t, ws) && id < n - 1;
      if Counted(t, ws, n - 1) {
        assert all == before + {n - 1};
      } else {
        assert all == before;
      }
    } else {
      assert all == {};
    }
  }

  /** The count a workspace is held to is the number of its pending and sent rows. */
  lemma {:induction false} CountsOutstanding(run: seq<Event>, ws: string)
    ensures CountBelow(After(run), ws, After(run).nextId) == |Outstanding(After(run), ws)|
  {
    var t := After(run);
    RunsKeepFreshIds(run);
    CountIsCardinality(t, ws, t.nextId);
    assert (set id | id in Outstanding(t, ws) && id < t.nextId) == Outstanding(t, ws);
  }

  ghost function One(t: Table, ws: string, id: nat): int {
    if id in Outstanding(t, ws) then 1 else 0
  }

  ghost function Bytes(t: Table, ws: string, id: nat): int {
    if id in Outstanding(t, ws) then t.rows[id].payloadLen else 0
  }

  /** Changing one row changes count and bytes by that row. */
  lemma {:induction false} OneRowChanges(t: Table, t': Table, ws: string, id: nat, n: nat)
    requires t.rows - {id} == t'.rows - {id}
    ensures CountBelow(t', ws, n) - CountBelow(t, ws, n) == if id < n then One(t', ws, id) - One(t, ws, id) else 0
    ensures BytesBelow(t', ws, n) - BytesBelow(t, ws, n) == if id < n then Bytes(t', ws, id) - Bytes(t, ws, id) else 0
  {
    if n > 0 {
      OneRowChanges(t, t', ws, id, n - 1);
      if n - 1 != id {
        assert n - 1 in t.rows <==> n - 1 in t.rows - {id};
        assert n - 1 in t'.rows <==> n - 1 in t'.rows - {id};
        assert n - 1 in t.rows ==> t.rows[n - 1] == (t.rows - {id})[n - 1] == t'.rows[n - 1];
      }
    }
  }

  /** What an operation adds to the pending updates of a workspace. */
  ghost function Change(t: Table, e: Event, ws: string): int {
    if !Effective(t, e) then 0
    else
      match e
      case OnEnqueue(w, _, _) => if w == ws then 1 else 0
      case OnSent(_, _) => 0
      case OnAcked(id, _) => if t.rows[id].workspace == ws then -1 else 0
      case OnFailed(id, _) => if t.rows[id].workspace == ws && t.rows[id].retryCount >= 7 then -1 else 0
  }

  ghost function SizeOf(t: Table, e: Event): nat {
    if e.OnEnqueue? then e.payloadLen else if e.id in t.rows then t.rows[e.id].payloadLen else 0
  }

  /**
   Every operation moves the count and the bytes of every workspace by what it adds or
   settles: an accepted update comes in, an acknowledged or given up one goes out, and
   nothing else changes them.
   */
  lemma {:induction false} LedgerBalances(run: seq<Event>, e: Event, ws: string)
    ensures var t, t' := After(run), After(run + [e]);
            && CountBelow(t', ws, t'.nextId) == CountBelow(t, ws, t.nextId) + Change(t, e, ws)
            && BytesBelow(t', ws, t'.nextId) == BytesBelow(t, ws, t.nextId) + Change(t, e, ws) * SizeOf(t, e)
  {
    hide OverLimit, BackoffDelay, CountBelow, BytesBelow;
    assert (run + [e])[..|run|] == run;
    var t, t' := After(run), Step(After(run), e);
    RunsKeepFreshIds(run);
    if Effective(t, e) {
      var id := if e.OnEnqueue? then t.nextId else e.id;
      assert t.rows - {id} == t'.rows - {id};
      OneRowChanges(t, t', ws, id, t'.nextId);
      if e.OnEnqueue? {
        LastUncounted(t, ws);
      }
    }
  }

  lemma {:induction false} LastUncounted(t: Table, ws: string)
    requires FreshIds(t)
    ensures CountBelow(t, ws, t.nextId + 1) == CountBelow(t, ws, t.nextId)
    ensures BytesBelow(t, ws, t.nextId + 1) == BytesBelow(t, ws, t.nextId)
  {
  }

  /** An acknowledged update stays acknowledged: it is never ready, and nothing that happens to it has an effect. */
  lemma {:induction false} AckIsFinal(run: seq<Event>, id: nat, now: int, more: seq<Event>, e: Event)
    requires Effective(After(run), OnAcked(id, now))
    ensures var t := After(run + [OnAcked(id, now)] + more);
            && id in t.rows && t.rows[id].state == Acked
            && (forall clock :: !Ready(t, id, clock))
            && (!e.OnEnqueue? && e.id == id ==> !Effective(t, e))
  {
    hide OverLimit, BackoffDelay;
    var run' := run + [OnAcked(id, now)];
    assert run'[..|run|] == run;
    TerminalRowsStay(run', more, id);
  }
}
