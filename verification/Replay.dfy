/**
 History replay: a document at a point in time, from the nearest earlier snapshot and
 the log entries after it. Documents, snapshot payloads and updates are opaque; loading
 and applying are parameters that may fail.
 */
module Replay {
  import opened Base

  datatype SnapshotPoint<P> = SnapshotPoint(seqNo: int, capturedAt: int, payload: P)
  datatype WalEntry<U> = WalEntry(seqNo: int, appliedAt: int, payload: U)

  /** How documents come to be: empty, loaded from a snapshot, or by applying an update. */
  datatype Docs<!D, !P, !U> = Docs(empty: D, load: P -> Option<D>, apply: (D, U) -> Option<D>)

  datatype ReplayResult<D> = ReplayResult(document: D, baseSnapshotSeq: int, appliedOps: nat, capped: bool)
  datatype ReplayError = BadSnapshot(seqNo: int) | BadUpdate(seqNo: int)

  // ----- Selecting and ordering log entries -----

  /** A part of the log: after a sequence number, up to one, applied by a time; each bound is optional. */
  datatype Window = Window(after: Option<int>, upTo: Option<int>, inTime: Option<int>)

  predicate In<U>(w: Window, e: WalEntry<U>) {
    && (w.after.Some? ==> e.seqNo > w.after.value)
    && (w.upTo.Some? ==> e.seqNo <= w.upTo.value)
    && (w.inTime.Some? ==> e.appliedAt <= w.inTime.value)
  }

  function Select<U>(wal: seq<WalEntry<U>>, w: Window): seq<WalEntry<U>> {
    if wal == [] then []
    else
      var init, last := Select(wal[..|wal| - 1], w), wal[|wal| - 1];
      if In(w, last) then init + [last] else init
  }

  /** Inserts after all entries that are not later in sequence. */
  function Insert<U>(s: seq<WalEntry<U>>, e: WalEntry<U>): seq<WalEntry<U>> {
    if s == [] || s[|s| - 1].seqNo <= e.seqNo then s + [e]
    else Insert(s[..|s| - 1], e) + [s[|s| - 1]]
  }

  /** Stable sort by sequence number. */
  function SortBySeq<U>(s: seq<WalEntry<U>>): seq<WalEntry<U>> {
    if s == [] then [] else Insert(SortBySeq(s[..|s| - 1]), s[|s| - 1])
  }

  ghost predicate Sorted<U>(s: seq<WalEntry<U>>) {
    forall i, j :: 0 <= i < j < |s| ==> s[i].seqNo <= s[j].seqNo
  }

  ghost predicate AllUpTo<U>(s: seq<WalEntry<U>>, base: int) {
    forall i :: 0 <= i < |s| ==> s[i].seqNo <= base
  }

  ghost predicate AllAfter<U>(s: seq<WalEntry<U>>, base: int) {
    forall i :: 0 <= i < |s| ==> s[i].seqNo > base
  }

  lemma {:induction false} InsertKeepsBounds<U>(s: seq<WalEntry<U>>, e: WalEntry<U>, base: int)
    ensures AllUpTo(s, base) && e.seqNo <= base ==> AllUpTo(Insert(s, e), base)
    ensures AllAfter(s, base) && e.seqNo > base ==> AllAfter(Insert(s, e), base)
  {
    if s != [] && s[|s| - 1].seqNo > e.seqNo { InsertKeepsBounds(s[..|s| - 1], e, base); }
  }

  lemma {:induction false} InsertSorts<U>(s: seq<WalEntry<U>>, e: WalEntry<U>)
    requires Sorted(s)
    ensures Sorted(Insert(s, e))
  {
    if s != [] && s[|s| - 1].seqNo > e.seqNo {
      InsertSorts(s[..|s| - 1], e);
      InsertKeepsBounds(s[..|s| - 1], e, s[|s| - 1].seqNo);
    }
  }

  lemma {:induction false} InsertAdds<U>(s: seq<WalEntry<U>>, e: WalEntry<U>)
    ensures multiset(Insert(s, e)) == multiset(s) + multiset{e}
  {
    if s != [] && s[|s| - 1].seqNo > e.seqNo {
      InsertAdds(s[..|s| - 1], e);
      assert s == s[..|s| - 1] + [s[|s| - 1]];
    }
  }

  /** Sorting orders by sequence number and keeps every entry. */
  lemma {:induction false} SortSorts<U>(s: seq<WalEntry<U>>)
    ensures Sorted(SortBySeq(s)) && multiset(SortBySeq(s)) == multiset(s)
  {
    if s != [] {
      SortSorts(s[..|s| - 1]);
      InsertSorts(SortBySeq(s[..|s| - 1]), s[|s| - 1]);
      InsertAdds(SortBySeq(s[..|s| - 1]), s[|s| - 1]);
      assert s == s[..|s| - 1] + [s[|s| - 1]];
    }
  }

  /** The entries with one sequence number. */
  function AtSeq(seqNo: int): Window {
    Window(Some(seqNo - 1), Some(seqNo), None)
  }

  lemma {:induction false} SelectAppend<U>(s: seq<WalEntry<U>>, e: WalEntry<U>, w: Window)
    ensures Select(s + [e], w) == Select(s, w) + if In(w, e) then [e] else []
  {
    assert (s + [e])[..|s|] == s;
  }

  lemma {:induction false} InsertIsStable<U>(s: seq<WalEntry<U>>, e: WalEntry<U>, seqNo: int)
    ensures Select(Insert(s, e), AtSeq(seqNo)) == Select(s + [e], AtSeq(seqNo))
  {
    hide Select;
    var w := AtSeq(seqNo);
    if s != [] && s[|s| - 1].seqNo > e.seqNo {
      var init, last := s[..|s| - 1], s[|s| - 1];
      InsertIsStable(init, e, seqNo);
      assert s == init + [last];
      SelectAppend(Insert(init, e), last, w);
      SelectAppend(init, e, w);
      SelectAppend(init, last, w);
      SelectAppend(s, e, w);
    }
  }

  /** Sorting keeps entries with the same sequence number in the order in which they are listed. */
  lemma {:induction false} SortIsStable<U>(s: seq<WalEntry<U>>, seqNo: int)
    ensures Select(SortBySeq(s), AtSeq(seqNo)) == Select(s, AtSeq(seqNo))
  {
    hide Select;
    if s != [] {
      var init, last := s[..|s| - 1], s[|s| - 1];
      SortIsStable(init, seqNo);
      InsertIsStable(SortBySeq(init), last, seqNo);
      assert s == init + [last];
      SelectAppend(init, last, AtSeq(seqNo));
      SelectAppend(SortBySeq(init), last, AtSeq(seqNo));
    }
  }

  // ----- Replaying -----

  function Fold<D, P, U>(docs: Docs<D, P, U>, d: Option<D>, entries: seq<WalEntry<U>>): Option<D> {
    if entries == [] then d
    else
      match Fold(docs, d, entries[..|entries| - 1])
      case None => None
      case Some(doc) => docs.apply(doc, entries[|entries| - 1].payload)
  }

  lemma {:induction false} FoldConcat<D, P, U>(docs: Docs<D, P, U>, d: Option<D>, a: seq<WalEntry<U>>,
                                               b: seq<WalEntry<U>>)
    ensures Fold(docs, d, a + b) == Fold(docs, Fold(docs, d, a), b)
    decreases |b|
  {
    if b == [] {
      assert a + b == a;
    } else {
      FoldConcat(docs, d, a, b[..|b| - 1]);
      assert (a + b)[..|a + b| - 1] == a + b[..|b| - 1];
    }
  }

  /** The latest snapshot captured by the target time; among equally late ones, the last listed. */
  function NearestSnapshot<P>(snapshots: seq<SnapshotPoint<P>>, target: int): Option<SnapshotPoint<P>> {
    if snapshots == [] then None
    else
      var best, last := NearestSnapshot(snapshots[..|snapshots| - 1], target), snapshots[|snapshots| - 1];
      if last.capturedAt <= target && (best.None? || last.capturedAt >= best.value.capturedAt) then Some(last) else best
  }

  /** No snapshot captured in time is later, and none listed after it is as late. */
  lemma {:induction false} NearestIsNearest<P>(snapshots: seq<SnapshotPoint<P>>, target: int) returns (k: nat)
    ensures NearestSnapshot(snapshots, target).None? ==>
              forall j :: 0 <= j < |snapshots| ==> snapshots[j].capturedAt > target
    ensures NearestSnapshot(snapshots, target).Some? ==>
              && k < |snapshots| && NearestSnapshot(snapshots, target).value == snapshots[k]
              && snapshots[k].capturedAt <= target
              && forall j :: 0 <= j < |snapshots| && snapshots[j].capturedAt <= target ==>
                               snapshots[j].capturedAt < snapshots[k].capturedAt
                               || (snapshots[j].capturedAt == snapshots[k].capturedAt && j <= k)
  {
    k := 0;
    if snapshots != [] {
      var init, last := snapshots[..|snapshots| - 1], snapshots[|snapshots| - 1];
      k := NearestIsNearest(init, target);
      if NearestSnapshot(snapshots, target) == Some(last)
         && (NearestSnapshot(init, target).None? || last.capturedAt >= init[k].capturedAt) {
        k := |snapshots| - 1;
      }
    }
  }

  /** Where replay starts: a snapshot's document and sequence number, or the empty document and zero. */
  function Start<D, P, U>(docs: Docs<D, P, U>, snapshots: seq<SnapshotPoint<P>>, target: int): (Option<D>, int) {
    match NearestSnapshot(snapshots, target)
    case None => (Some(docs.empty), 0)
    case Some(s) => (docs.load(s.payload), s.seqNo)
  }

  /** The entries replayed after the start, in sequence order. */
  function Replayable<U>(wal: seq<WalEntry<U>>, base: int, target: int): seq<WalEntry<U>> {
    SortBySeq(Select(wal, Window(Some(base), None, Some(target))))
  }

  /** What a scrub returns: the fold of the first `maxOps` replayable entries over the start. */
  ghost predicate IsScrub<D, P, U>(docs: Docs<D, P, U>, snapshots: seq<SnapshotPoint<P>>, wal: seq<WalEntry<U>>,
                                   target: int,
                                   maxOps: nat, r: Result<ReplayResult<D>, ReplayError>) {
    var (d, base) := Start(docs, snapshots, target);
    var entries := Replayable(wal, base, target);
    var n := Min(maxOps, |entries|);
    match r
    case Ok(v) =>
      && Fold(docs, d, entries[..n]) == Some(v.document) && v.baseSnapshotSeq == base
      && v.appliedOps == n && (v.capped <==> |entries| > maxOps)
    case Err(BadSnapshot(s)) => d.None? && s == base
    case Err(BadUpdate(s)) => exists i :: 0 <= i < n && FailsAt(docs, d, entries, i) && s == entries[i].seqNo
  }

  /** Replay succeeds up to entry `i` and fails on it. */
  ghost predicate FailsAt<D, P, U>(docs: Docs<D, P, U>, d: Option<D>, entries: seq<WalEntry<U>>, i: nat)
    requires i < |entries|
  {
    Fold(docs, d, entries[..i]).Some? && Fold(docs, d, entries[..i + 1]).None?
  }

  method FindBase<P>(snapshots: seq<SnapshotPoint<P>>, target: int) returns (best: Option<SnapshotPoint<P>>)
    ensures best == NearestSnapshot(snapshots, target)
  {
    best := None;
    for i := 0 to |snapshots|
      invariant best == NearestSnapshot(snapshots[..i], target)
    {
      assert snapshots[..i + 1][..i] == snapshots[..i];
      var s := snapshots[i];
      if s.capturedAt <= target && (best.None? || s.capturedAt >= best.value.capturedAt) {
        best := Some(s);
      }
    }
    assert snapshots[..|snapshots|] == snapshots;
  }

  /** Rebuilds the document at a point in time. */
  method ScrubToTime<D, P, U>(docs: Docs<D, P, U>, snapshots: seq<SnapshotPoint<P>>, wal: seq<WalEntry<U>>, target: int,
                              maxOps: nat) returns (r: Result<ReplayResult<D>, ReplayError>)
    ensures IsScrub(docs, snapshots, wal, target, maxOps, r)
  {
    hide NearestSnapshot, Select, SortBySeq;
    var base := FindBase(snapshots, target);
    var loaded := if base.Some? then docs.load(base.value.payload) else Some(docs.empty);
    var baseSeq := if base.Some? then base.value.seqNo else 0;
    if loaded.None? {
      return Err(BadSnapshot(baseSeq));
    }
    var document := loaded.value;
    var entries := SortBySeq(Select(wal, Window(Some(baseSeq), None, Some(target))));
    var applied := 0;
    var n := Min(maxOps, |entries|);
    while applied < n
      invariant 0 <= applied <= n
      invariant Fold(docs, loaded, entries[..applied]) == Some(document)
    {
      assert entries[..applied + 1][..applied] == entries[..applied];
      var next := docs.apply(document, entries[applied].payload);
      if next.None? {
        assert FailsAt(docs, loaded, entries, applied);
        return Err(BadUpdate(entries[applied].seqNo));
      }
      document := next.value;
      applied := applied + 1;
    }
    return Ok(ReplayResult(document, baseSeq, applied, |entries| > maxOps));
  }

  // ----- What is replayed -----

  lemma {:induction false} SelectCounts<U>(wal: seq<WalEntry<U>>, w: Window, e: WalEntry<U>)
    ensures multiset(Select(wal, w))[e] == if In(w, e) then multiset(wal)[e] else 0
  {
    hide In;
    if wal != [] {
      var init, last := wal[..|wal| - 1], wal[|wal| - 1];
      SelectCounts(init, w, e);
      assert wal == init + [last];
    }
  }

  /**
   Exactly the entries after the snapshot's sequence number that were applied by the
   target time are replayed, each as often as it is listed.
   */
  lemma {:induction false} ReplayableEntries<U>(wal: seq<WalEntry<U>>, base: int, target: int, e: WalEntry<U>)
    ensures multiset(Replayable(wal, base, target))[e]
         == if e.seqNo > base && e.appliedAt <= target then multiset(wal)[e] else 0
    ensures e in Replayable(wal, base, target) <==> e in wal && e.seqNo > base && e.appliedAt <= target
  {
    var w := Window(Some(base), None, Some(target));
    hide Select, SortBySeq;
    SortSorts(Select(wal, w));
    SelectCounts(wal, w, e);
    assert e in Replayable(wal, base, target) <==> e in multiset(Replayable(wal, base, target));
    assert e in wal <==> e in multiset(wal);
  }

  /** An entry applied after the target time, or covered by the snapshot, does not change what is replayed. */
  lemma {:induction false} OtherEntriesAreSkipped<U>(a: seq<WalEntry<U>>, e: WalEntry<U>, b: seq<WalEntry<U>>,
                                                     base: int, target: int)
    requires e.appliedAt > target || e.seqNo <= base
    ensures Replayable(a + [e] + b, base, target) == Replayable(a + b, base, target)
  {
    SelectSkips(a, e, b, Window(Some(base), None, Some(target)));
  }

  lemma {:induction false} SelectSkips<U>(a: seq<WalEntry<U>>, e: WalEntry<U>, b: seq<WalEntry<U>>, w: Window)
    requires !In(w, e)
    ensures Select(a + [e] + b, w) == Select(a + b, w)
    decreases |b|
  {
    hide In, Select;
    if b == [] {
      assert a + [e] + b == a + [e] && a + b == a;
      SelectAppend(a, e, w);
    } else {
      var init, last := b[..|b| - 1], b[|b| - 1];
      SelectSkips(a, e, init, w);
      assert a + [e] + b == (a + [e] + init) + [last] && a + b == (a + init) + [last];
      SelectAppend(a + [e] + init, last, w);
      SelectAppend(a + init, last, w);
    }
  }

  /** So wherever such an entry is listed, a scrub has the results it has without it. */
  lemma {:induction false} ScrubIgnoresLateEntries<D, P, U>(docs: Docs<D, P, U>, snapshots: seq<SnapshotPoint<P>>,
                                                            a: seq<WalEntry<U>>, e: WalEntry<U>, b: seq<WalEntry<U>>,
                                                            target: int, maxOps: nat,
                                                            r: Result<ReplayResult<D>, ReplayError>)
    requires e.appliedAt > target || e.seqNo <= Start(docs, snapshots, target).1
    ensures IsScrub(docs, snapshots, a + [e] + b, target, maxOps, r)
       <==> IsScrub(docs, snapshots, a + b, target, maxOps, r)
  {
    hide Replayable, Fold, Start;
    OtherEntriesAreSkipped(a, e, b, Start(docs, snapshots, target).1, target);
  }

  /** Documents that record the updates applied to them. */
  function Recorder<P, U>(load: P -> Option<seq<U>>): Docs<seq<U>, P, U> {
    Docs([], load, (d, u) => Some(d + [u]))
  }

  function Payloads<U>(entries: seq<WalEntry<U>>): (r: seq<U>)
    ensures |r| == |entries| && forall i :: 0 <= i < |r| ==> r[i] == entries[i].payload
  {
    seq(|entries|, i requires 0 <= i < |entries| => entries[i].payload)
  }

  lemma {:induction false} FoldRecords<P, U>(load: P -> Option<seq<U>>, d: seq<U>, entries: seq<WalEntry<U>>)
    ensures Fold(Recorder(load), Some(d), entries) == Some(d + Payloads(entries))
  {
    if entries != [] {
      var init, last := entries[..|entries| - 1], entries[|entries| - 1];
      FoldRecords(load, d, init);
      assert d + Payloads(entries) == (d + Payloads(init)) + [last.payload];
    } else {
      assert d + Payloads(entries) == d;
    }
  }

  /** Each replayed update is applied once, in order, on top of the snapshot. */
  lemma {:induction false} ScrubAppliesInOrder<P, U>(load: P -> Option<seq<U>>, snapshots: seq<SnapshotPoint<P>>,
                                                     wal: seq<WalEntry<U>>, target: int, maxOps: nat,
                                                     r: Result<ReplayResult<seq<U>>, ReplayError>)
    requires IsScrub(Recorder(load), snapshots, wal, target, maxOps, r)
    ensures var (d, base) := Start(Recorder(load), snapshots, target);
            var entries := Replayable(wal, base, target);
            && (r.Ok? <==> d.Some?)
            && (r.Ok? ==> r.value.document == d.value + Payloads(entries[..Min(maxOps, |entries|)]))
  {
    hide Replayable, Start, Fold;
    var d, base := Start(Recorder(load), snapshots, target).0, Start(Recorder(load), snapshots, target).1;
    var entries := Replayable(wal, base, target);
    if d.Some? {
      forall i | 0 <= i <= |entries| ensures Fold(Recorder(load), d, entries[..i]).Some? {
        FoldRecords(load, d.value, entries[..i]);
      }
      FoldRecords(load, d.value, entries[..Min(maxOps, |entries|)]);
    } else {
      FoldOfNone(Recorder(load), entries[..Min(maxOps, |entries|)]);
      forall i | 0 <= i <= |entries| ensures Fold(Recorder(load), d, entries[..i]).None? {
        FoldOfNone(Recorder(load), entries[..i]);
      }
    }
  }

  // ----- Agreement with replay from scratch -----

  /**
   Snapshots are honest: each loads to the replay of the entries up to its sequence
   number, and those entries were applied before it was captured. Sequence numbers
   are positive.
   */
  ghost predicate Consistent<D, P, U>(docs: Docs<D, P, U>, snapshots: seq<SnapshotPoint<P>>, wal: seq<WalEntry<U>>) {
    && (forall i :: 0 <= i < |wal| ==> wal[i].seqNo > 0)
    && forall k :: 0 <= k < |snapshots| ==> Honest(docs, snapshots[k], wal)
  }

  ghost predicate Honest<D, P, U>(docs: Docs<D, P, U>, s: SnapshotPoint<P>, wal: seq<WalEntry<U>>) {
    && docs.load(s.payload).Some?
    && docs.load(s.payload) == Fold(docs, Some(docs.empty), SortBySeq(Select(wal, Window(None, Some(s.seqNo), None))))
    && forall i :: 0 <= i < |wal| && wal[i].seqNo <= s.seqNo ==> wal[i].appliedAt <= s.capturedAt
  }

  /** All entries applied by a time, in sequence order. */
  function FullLog<U>(wal: seq<WalEntry<U>>, target: int): seq<WalEntry<U>> {
    SortBySeq(Select(wal, Window(None, None, Some(target))))
  }

  /** The full log holds exactly the entries applied in time, each as often as it is listed. */
  lemma {:induction false} FullLogEntries<U>(wal: seq<WalEntry<U>>, target: int, e: WalEntry<U>)
    ensures multiset(FullLog(wal, target))[e] == if e.appliedAt <= target then multiset(wal)[e] else 0
    ensures Sorted(FullLog(wal, target))
  {
    hide Select, SortBySeq;
    var w := Window(None, None, Some(target));
    SortSorts(Select(wal, w));
    SelectCounts(wal, w, e);
  }

  lemma {:induction false} InsertLow<U>(low: seq<WalEntry<U>>, high: seq<WalEntry<U>>, e: WalEntry<U>, base: int)
    requires AllAfter(high, base) && e.seqNo <= base
    ensures Insert(low + high, e) == Insert(low, e) + high
    decreases |high|
  {
    var all := low + high;
    if high == [] {
      assert all == low;
    } else {
      InsertLow(low, high[..|high| - 1], e, base);
      assert all[..|all| - 1] == low + high[..|high| - 1];
      assert high == high[..|high| - 1] + [high[|high| - 1]];
    }
  }

  lemma {:induction false} InsertHigh<U>(low: seq<WalEntry<U>>, high: seq<WalEntry<U>>, e: WalEntry<U>, base: int)
    requires AllUpTo(low, base) && e.seqNo > base
    ensures Insert(low + high, e) == low + Insert(high, e)
    decreases |high|
  {
    var all := low + high;
    if high == [] {
      assert all == low && low + [e] == low + ([] + [e]);
    } else {
      InsertHigh(low, high[..|high| - 1], e, base);
      assert all[..|all| - 1] == low + high[..|high| - 1];
      assert all + [e] == low + (high + [e]);
      var r, last := Insert(high[..|high| - 1], e), high[|high| - 1];
      assert low + r + [last] == low + (r + [last]);
    }
  }

  /** The ordered log splits at a sequence number whose entries were all applied in time. */
  lemma {:induction false} FullLogSplits<U>(wal: seq<WalEntry<U>>, base: int, target: int)
    requires forall i :: 0 <= i < |wal| && wal[i].seqNo <= base ==> wal[i].appliedAt <= target
    ensures FullLog(wal, target)
         == SortBySeq(Select(wal, Window(None, Some(base), None))) + Replayable(wal, base, target)
    ensures AllUpTo(SortBySeq(Select(wal, Window(None, Some(base), None))), base)
    ensures AllAfter(Replayable(wal, base, target), base)
    decreases |wal|
  {
    hide Select, SortBySeq, Insert, AllUpTo, AllAfter;
    if wal == [] {
      EmptyLog<U>(base);
    } else {
      var init, e := wal[..|wal| - 1], wal[|wal| - 1];
      FullLogSplits(init, base, target);
      var low := SortBySeq(Select(init, Window(None, Some(base), None)));
      var high := Replayable(init, base, target);
      SelectLast(init, e, Window(None, Some(base), None));
      SelectLast(init, e, Window(Some(base), None, Some(target)));
      SelectLast(init, e, Window(None, None, Some(target)));
      assert wal == init + [e];
      if e.seqNo <= base {
        InsertLow(low, high, e, base);
        InsertKeepsBounds(low, e, base);
      } else if e.appliedAt <= target {
        InsertHigh(low, high, e, base);
        InsertKeepsBounds(high, e, base);
      }
    }
  }

  lemma {:induction false} EmptyLog<U>(base: int)
    ensures forall w :: SortBySeq(Select<U>([], w)) == []
    ensures AllUpTo<U>([], base) && AllAfter<U>([], base)
  {
  }

  lemma {:induction false} SelectLast<U>(init: seq<WalEntry<U>>, e: WalEntry<U>, w: Window)
    ensures SortBySeq(Select(init + [e], w))
         == if In(w, e) then Insert(SortBySeq(Select(init, w)), e) else SortBySeq(Select(init, w))
  {
    assert (init + [e])[..|init|] == init;
    var s := Select(init, w);
    assert (s + [e])[..|s|] == s;
  }

  lemma {:induction false} NothingUpToZero<U>(wal: seq<WalEntry<U>>)
    requires forall i :: 0 <= i < |wal| ==> wal[i].seqNo > 0
    ensures Select(wal, Window(None, Some(0), None)) == []
    decreases |wal|
  {
    if wal != [] { NothingUpToZero(wal[..|wal| - 1]); }
  }

  /**
   Scrubbing agrees with replaying the whole ordered log from the empty document: the
   result is the replay of a prefix of it, all of it unless the scrub was capped, and
   a capped scrub stops exactly `maxOps` entries after its snapshot.
   */
  lemma {:induction false} ScrubAgreesWithFullReplay<D, P, U>(docs: Docs<D, P, U>, snapshots: seq<SnapshotPoint<P>>,
                                                              wal: seq<WalEntry<U>>, target: int, maxOps: nat,
                                                              r: Result<ReplayResult<D>, ReplayError>)
    requires Consistent(docs, snapshots, wal) && IsScrub(docs, snapshots, wal, target, maxOps, r)
    ensures var base := Start(docs, snapshots, target).1;
            var covered := |SortBySeq(Select(wal, Window(None, Some(base), None)))|;
            var log := FullLog(wal, target);
            && covered <= |log|
            && (r.Ok? ==>
                  && r.value.baseSnapshotSeq == base
                  && covered + r.value.appliedOps <= |log|
                  && Fold(docs, Some(docs.empty), log[..covered + r.value.appliedOps]) == Some(r.value.document)
                  && (r.value.capped ==> r.value.appliedOps == maxOps && covered + maxOps < |log|)
                  && (!r.value.capped ==> Fold(docs, Some(docs.empty), log) == Some(r.value.document)))
            && (r.Err? ==> Fold(docs, Some(docs.empty), log).None?)
  {
    hide Select, SortBySeq, Consistent, Fold, Start;
    var d, base := Start(docs, snapshots, target).0, Start(docs, snapshots, target).1;
    var low := SortBySeq(Select(wal, Window(None, Some(base), None)));
    var high := Replayable(wal, base, target);
    StartIsHonest(docs, snapshots, wal, target);
    FullLogSplits(wal, base, target);
    var log := FullLog(wal, target);
    var n := Min(maxOps, |high|);
    assert log[..|low| + n] == low + high[..n];
    FoldConcat(docs, Some(docs.empty), low, high[..n]);
    FoldConcat(docs, Some(docs.empty), low, high);
    if r.Ok? {
      assert high[..|high|] == high;
    } else if r.error.BadUpdate? {
      var i :| 0 <= i < n && FailsAt(docs, d, high, i) && r.error.seqNo == high[i].seqNo;
      FoldConcat(docs, d, high[..i + 1], high[i + 1..]);
      assert high[..i + 1] + high[i + 1..] == high;
      FoldOfNone(docs, high[i + 1..]);
    }
  }

  lemma {:induction false} FoldOfNone<D, P, U>(docs: Docs<D, P, U>, entries: seq<WalEntry<U>>)
    ensures Fold(docs, None, entries) == None
  {
    if entries != [] { FoldOfNone(docs, entries[..|entries| - 1]); }
  }

  lemma {:induction false} StartIsHonest<D, P, U>(docs: Docs<D, P, U>, snapshots: seq<SnapshotPoint<P>>,
                                                  wal: seq<WalEntry<U>>, target: int)
    requires Consistent(docs, snapshots, wal)
    ensures var (d, base) := Start(docs, snapshots, target);
            && d.Some?
            && Fold(docs, Some(docs.empty), SortBySeq(Select(wal, Window(None, Some(base), None)))) == d
            && forall i :: 0 <= i < |wal| && wal[i].seqNo <= base ==> wal[i].appliedAt <= target
  {
    var k := NearestIsNearest(snapshots, target);
    match NearestSnapshot(snapshots, target)
    case None => NothingUpToZero(wal);
    case Some(s) => assert Honest(docs, s, wal);
  }

  // ----- The order in which the log is listed -----

  ghost predicate DistinctSeqs<U>(s: seq<WalEntry<U>>) {
    forall i, j :: 0 <= i < j < |s| ==> s[i].seqNo != s[j].seqNo
  }

  ghost predicate Rising<U>(s: seq<WalEntry<U>>) {
    forall i, j :: 0 <= i < j < |s| ==> s[i].seqNo < s[j].seqNo
  }

  lemma {:induction false} InSnoc<U>(s: seq<WalEntry<U>>, x: WalEntry<U>)
    requires s != []
    ensures x in s <==> x in s[..|s| - 1] || x == s[|s| - 1]
  {
  }

  lemma {:induction false} InsertMembers<U>(s: seq<WalEntry<U>>, e: WalEntry<U>, x: WalEntry<U>)
    ensures x in Insert(s, e) <==> x in s || x == e
  {
    if s != [] && s[|s| - 1].seqNo > e.seqNo {
      InsertMembers(s[..|s| - 1], e, x);
      InSnoc(s, x);
    }
  }

  lemma {:induction false} SortMembers<U>(s: seq<WalEntry<U>>, x: WalEntry<U>)
    ensures x in SortBySeq(s) <==> x in s
  {
    if s != [] {
      SortMembers(s[..|s| - 1], x);
      InsertMembers(SortBySeq(s[..|s| - 1]), s[|s| - 1], x);
      InSnoc(s, x);
    }
  }

  lemma {:induction false} SelectMembers<U>(wal: seq<WalEntry<U>>, w: Window, x: WalEntry<U>)
    ensures x in Select(wal, w) <==> x in wal && In(w, x)
  {
    if wal != [] {
      SelectMembers(wal[..|wal| - 1], w, x);
      InSnoc(wal, x);
    }
  }

  lemma {:induction false} InsertRises<U>(s: seq<WalEntry<U>>, e: WalEntry<U>)
    requires Rising(s) && forall i :: 0 <= i < |s| ==> s[i].seqNo != e.seqNo
    ensures Rising(Insert(s, e))
  {
    if s != [] && s[|s| - 1].seqNo > e.seqNo {
      InsertRises(s[..|s| - 1], e);
      InsertKeepsBounds(s[..|s| - 1], e, s[|s| - 1].seqNo - 1);
    }
  }

  /** Sorting selected entries with distinct sequence numbers makes them rise. */
  lemma {:induction false} SortRises<U>(wal: seq<WalEntry<U>>, w: Window)
    requires DistinctSeqs(wal)
    ensures Rising(SortBySeq(Select(wal, w)))
    decreases |wal|
  {
    if wal != [] {
      var init, e := wal[..|wal| - 1], wal[|wal| - 1];
      SortRises(init, w);
      SelectLast(init, e, w);
      assert wal == init + [e];
      var s := SortBySeq(Select(init, w));
      forall i | 0 <= i < |s| ensures s[i].seqNo != e.seqNo {
        SortMembers(Select(init, w), s[i]);
        SelectMembers(init, w, s[i]);
      }
      InsertRises(s, e);
    }
  }

  ghost predicate SameMembers<U>(s: seq<WalEntry<U>>, t: seq<WalEntry<U>>) {
    (forall i :: 0 <= i < |s| ==> s[i] in t) && (forall i :: 0 <= i < |t| ==> t[i] in s)
  }

  /** Rising lists of the same entries are the same list. */
  lemma {:induction false} RisingIsUnique<U>(s: seq<WalEntry<U>>, t: seq<WalEntry<U>>)
    requires Rising(s) && Rising(t) && SameMembers(s, t)
    ensures s == t
    decreases |s|
  {
    assert s != [] ==> s[0] in t;
    assert t != [] ==> t[0] in s;
    if s != [] && t != [] {
      var m, n := |s| - 1, |t| - 1;
      assert s[m] in t && t[n] in s;
      assert s[m] == t[n];
      forall i | 0 <= i < m ensures s[..m][i] in t[..n] { InSnoc(t, s[i]); }
      forall i | 0 <= i < n ensures t[..n][i] in s[..m] { InSnoc(s, t[i]); }
      RisingIsUnique(s[..m], t[..n]);
      assert s == s[..m] + [s[m]] && t == t[..n] + [t[n]];
    }
  }

  /** With distinct sequence numbers, the order in which the log is listed does not matter. */
  lemma {:induction false} ListingOrderIsIrrelevant<U>(wal: seq<WalEntry<U>>, wal': seq<WalEntry<U>>, base: int,
                                                       target: int)
    requires SameMembers(wal, wal') && DistinctSeqs(wal) && DistinctSeqs(wal')
    ensures Replayable(wal, base, target) == Replayable(wal', base, target)
  {
    hide Select, SortBySeq, In;
    var w := Window(Some(base), None, Some(target));
    var s, t := SortBySeq(Select(wal, w)), SortBySeq(Select(wal', w));
    SortRises(wal, w);
    SortRises(wal', w);
    forall i | 0 <= i < |s| ensures s[i] in t { MovesOver(wal, wal', w, s[i]); }
    forall i | 0 <= i < |t| ensures t[i] in s { MovesOver(wal', wal, w, t[i]); }
    RisingIsUnique(s, t);
  }

  lemma {:induction false} MovesOver<U>(wal: seq<WalEntry<U>>, wal': seq<WalEntry<U>>, w: Window, x: WalEntry<U>)
    requires x in SortBySeq(Select(wal, w)) && SameMembers(wal, wal')
    ensures x in SortBySeq(Select(wal', w))
  {
    SortMembers(Select(wal, w), x);
    SelectMembers(wal, w, x);
    SelectMembers(wal', w, x);
    SortMembers(Select(wal', w), x);
  }
}
