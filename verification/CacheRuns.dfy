/** Runs of the document cache, judged by the operations alone. */
module CacheRuns {
  import opened Base
  import opened DocCache

  /** How many subscriptions to a document are held after a run; the count saturates, and putting resets it. */
  function Held<Doc>(ops: seq<Op<Doc>>, id: Uuid): nat {
    if ops == [] then 0
    else
      var before := Held(ops[..|ops| - 1], id);
      match ops[|ops| - 1]
      case Subscribe(x, _, _) => if x == id then Min(before + 1, 0xFFFF_FFFF_FFFF_FFFF) else before
      case Put(x, _, _) => if x == id then 0 else before
      case Unsubscribe(x) => if x == id && before > 0 then before - 1 else before
  }

  /** A resident document has this many subscribers; one that is not resident has none. */
  ghost predicate HasSubscribers<Doc>(c: Cache<Doc>, id: Uuid, n: nat) {
    if id in c.entries then c.entries[id].subscribers == n else n == 0
  }

  /** Eviction takes only documents without subscribers. */
  lemma {:induction false} EvictKeepsSubscribers<Doc>(c: Cache<Doc>, budget: nat, id: Uuid, n: nat)
    requires HasSubscribers(c, id, n) && (id in c.lru ==> IsIdle(c, id))
    ensures HasSubscribers(Evict(c, budget), id, n)
  {
    hide Evict, Total;
    var k := EvictIsShortestPrefix(c, budget);
    assert id in Elems(c.lru[..k]) ==> id in c.lru;
  }

  lemma {:induction false} StepCounts<Doc>(c: Cache<Doc>, op: Op<Doc>, budget: nat, id: Uuid, ops: seq<Op<Doc>>)
    requires WellFormed(c) && HasSubscribers(c, id, Held(ops, id))
    ensures HasSubscribers(Apply(c, op, budget), id, Held(ops + [op], id))
  {
    hide Evict, Total, Without, NoDuplicates;
    var n, x := Held(ops, id), op.id;
    assert (ops + [op])[..|ops|] == ops;
    assert id in c.lru <==> IsIdle(c, id);
    WithoutElems(c.lru, x);
    match op
    case Subscribe(_, doc, bytes) =>
      if x !in c.entries {
        var c' := Cache(c.entries[x := Entry(doc, 1, bytes)], c.lru);
        EvictKeepsSubscribers(c', budget, id, if x == id then 1 else n);
      }
    case Put(_, doc, bytes) =>
      var c' := Cache(c.entries[x := Entry(doc, 0, bytes)], Without(c.lru, x) + [x]);
      EvictKeepsSubscribers(c', budget, id, if x == id then 0 else n);
    case Unsubscribe(_) =>
      if x in c.entries && c.entries[x].subscribers == 1 {
        var e := c.entries[x].(subscribers := 0);
        EvictKeepsSubscribers(Cache(c.entries[x := e], c.lru + [x]), budget, id, if x == id then 0 else n);
      }
  }

  /**
   In every run a document with subscriptions left is resident with exactly that many
   subscribers, whatever the budget, and a resident document without any has none.
   */
  lemma {:induction false} RunsCountSubscribers<Doc>(ops: seq<Op<Doc>>, budget: nat, id: Uuid)
    ensures Held(ops, id) > 0 ==> id in After(ops, budget).entries
    ensures id in After(ops, budget).entries ==> After(ops, budget).entries[id].subscribers == Held(ops, id)
    decreases |ops|
  {
    hide WellFormed, Apply;
    if ops != [] {
      var init, op := ops[..|ops| - 1], ops[|ops| - 1];
      RunsCountSubscribers(init, budget, id);
      RunsStayWellFormed(init, budget);
      StepCounts(After(init, budget), op, budget, id, init);
      assert ops == init + [op];
    }
  }

  // ----- The order of the list -----

  /** The operation after which a document was last released: put, or left by its last subscriber. */
  function ReleasedAt<Doc>(ops: seq<Op<Doc>>, id: Uuid): nat {
    if ops == [] then 0
    else
      var init, op := ops[..|ops| - 1], ops[|ops| - 1];
      if op.id == id && (op.Put? || (op.Unsubscribe? && Held(init, id) == 1)) then |ops| else ReleasedAt(init, id)
  }

  lemma {:induction false} ReleasedInRun<Doc>(ops: seq<Op<Doc>>, id: Uuid)
    ensures ReleasedAt(ops, id) <= |ops|
  {
    if ops != [] { ReleasedInRun(ops[..|ops| - 1], id); }
  }

  /** Earlier released documents come first. */
  ghost predicate ByRelease<Doc>(ops: seq<Op<Doc>>, s: seq<Uuid>) {
    forall i, j :: 0 <= i < j < |s| ==> ReleasedAt(ops, s[i]) < ReleasedAt(ops, s[j])
  }

  /** Where the elements of a list without `id` stood. */
  lemma {:induction false} WithoutPlaces(s: seq<Uuid>, id: Uuid, i: nat, j: nat) returns (p: nat, q: nat)
    requires i <= j < |Without(s, id)|
    ensures p <= q < |s| && s[p] == Without(s, id)[i] && s[q] == Without(s, id)[j]
    ensures i < j ==> p < q
  {
    if s[0] == id {
      p, q := WithoutPlaces(s[1..], id, i, j);
      p, q := p + 1, q + 1;
    } else if j == 0 {
      p, q := 0, 0;
    } else {
      p, q := WithoutPlaces(s[1..], id, if i == 0 then 0 else i - 1, j - 1);
      p, q := if i == 0 then 0 else p + 1, q + 1;
    }
  }

  lemma {:induction false} WithoutKeepsRelease<Doc>(ops: seq<Op<Doc>>, s: seq<Uuid>, id: Uuid)
    requires ByRelease(ops, s)
    ensures ByRelease(ops, Without(s, id))
  {
    hide ReleasedAt, Without;
    var t := Without(s, id);
    forall i, j | 0 <= i < j < |t| ensures ReleasedAt(ops, t[i]) < ReleasedAt(ops, t[j]) {
      var p, q := WithoutPlaces(s, id, i, j);
    }
  }

  /** Other documents keep their place in time. */
  lemma {:induction false} NextKeepsRelease<Doc>(ops: seq<Op<Doc>>, op: Op<Doc>, s: seq<Uuid>)
    requires ByRelease(ops, s) && forall x :: x in s && x == op.id ==> ReleasedAt(ops + [op], x) == ReleasedAt(ops, x)
    ensures ByRelease(ops + [op], s)
  {
    assert (ops + [op])[..|ops|] == ops;
  }

  /** A document released by the last operation goes to the end. */
  lemma {:induction false} ReleasedIsLast<Doc>(ops: seq<Op<Doc>>, op: Op<Doc>, s: seq<Uuid>)
    requires ByRelease(ops, s) && op.id !in s && ReleasedAt(ops + [op], op.id) == |ops| + 1
    ensures ByRelease(ops + [op], s + [op.id])
  {
    NextKeepsRelease(ops, op, s);
    assert (ops + [op])[..|ops|] == ops;
    forall i | 0 <= i < |s| ensures ReleasedAt(ops + [op], s[i]) <= |ops| {
      assert s[i] != op.id;
      ReleasedInRun(ops, s[i]);
    }
  }

  lemma {:induction false} EvictKeepsRelease<Doc>(ops: seq<Op<Doc>>, c: Cache<Doc>, budget: nat)
    requires ByRelease(ops, c.lru)
    ensures ByRelease(ops, Evict(c, budget).lru)
  {
    hide Evict, Total, ReleasedAt;
    var k := EvictIsShortestPrefix(c, budget);
  }

  lemma {:induction false} StepKeepsRelease<Doc>(c: Cache<Doc>, op: Op<Doc>, budget: nat, ops: seq<Op<Doc>>)
    requires WellFormed(c) && HasSubscribers(c, op.id, Held(ops, op.id)) && ByRelease(ops, c.lru)
    ensures ByRelease(ops + [op], Apply(c, op, budget).lru)
  {
    hide Evict, Total, Without, NoDuplicates, ByRelease, Held;
    var x := op.id;
    assert (ops + [op])[..|ops|] == ops;
    assert x in c.lru <==> IsIdle(c, x);
    WithoutElems(c.lru, x);
    WithoutKeepsRelease(ops, c.lru, x);
    match op
    case Subscribe(_, doc, bytes) =>
      if x in c.entries {
        NextKeepsRelease(ops, op, Without(c.lru, x));
      } else {
        NextKeepsRelease(ops, op, c.lru);
        EvictKeepsRelease(ops + [op], Cache(c.entries[x := Entry(doc, 1, bytes)], c.lru), budget);
      }
    case Put(_, doc, bytes) =>
      ReleasedIsLast(ops, op, Without(c.lru, x));
      EvictKeepsRelease(ops + [op], Cache(c.entries[x := Entry(doc, 0, bytes)], Without(c.lru, x) + [x]), budget);
    case Unsubscribe(_) =>
      if x in c.entries && c.entries[x].subscribers == 1 {
        ReleasedIsLast(ops, op, c.lru);
        var e := c.entries[x].(subscribers := 0);
        EvictKeepsRelease(ops + [op], Cache(c.entries[x := e], c.lru + [x]), budget);
      } else {
        NextKeepsRelease(ops, op, c.lru);
      }
  }

  /** In every run the unsubscribed residents are listed in the order in which they were last released. */
  lemma {:induction false} RunsListByRelease<Doc>(ops: seq<Op<Doc>>, budget: nat)
    ensures ByRelease(ops, After(ops, budget).lru)
    decreases |ops|
  {
    hide WellFormed, Apply, ByRelease, Held;
    if ops == [] {
      NothingReleased(ops);
    } else {
      var init, op := ops[..|ops| - 1], ops[|ops| - 1];
      RunsListByRelease(init, budget);
      RunsCountSubscribers(init, budget, op.id);
      RunsStayWellFormed(init, budget);
      StepKeepsRelease(After(init, budget), op, budget, init);
      assert ops == init + [op];
    }
  }

  lemma {:induction false} NothingReleased<Doc>(ops: seq<Op<Doc>>)
    ensures ByRelease(ops, [])
  {
  }
}
