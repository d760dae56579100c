/**
 The document cache: subscribed documents are pinned, unsubscribed ones wait in
 least-recently-used order and are evicted from the front while the cache is over its
 memory budget.

 The first half is the cache as an ordered list; the second half is the manager,
 which keeps no list but stamps documents with logical ticks.
 */
module DocCache {
  import opened Base

  type Uuid = int

  // ----- The cache as an ordered list -----

  datatype Entry<+Doc> = Entry(doc: Doc, subscribers: nat, bytes: nat)

  /** Resident documents, and the unsubscribed ones from least to most recently used. */
  datatype Cache<+Doc> = Cache(entries: map<Uuid, Entry<Doc>>, lru: seq<Uuid>)

  /** The memory the resident documents account for. */
  ghost function Total<Doc>(entries: map<Uuid, Entry<Doc>>): nat
    decreases |entries|
  {
    if entries.Keys == {} then 0
    else
      var id := Pick(entries.Keys);
      entries[id].bytes + Total(entries - {id})
  }

  lemma {:induction false} TotalSplits<Doc>(entries: map<Uuid, Entry<Doc>>, id: Uuid)
    requires id in entries
    ensures Total(entries) == entries[id].bytes + Total(entries - {id})
    decreases |entries|
  {
    var first := Pick(entries.Keys);
    if first != id {
      TotalSplits(entries - {first}, id);
      TotalSplits(entries - {id}, first);
      assert entries - {first} - {id} == entries - {id} - {first};
    }
  }

  lemma {:induction false} TotalWith<Doc>(entries: map<Uuid, Entry<Doc>>, id: Uuid, e: Entry<Doc>)
    ensures Total(entries[id := e]) == e.bytes + Total(entries - {id})
  {
    TotalSplits(entries[id := e], id);
    assert entries[id := e] - {id} == entries - {id};
  }

  function Without(s: seq<Uuid>, id: Uuid): seq<Uuid> {
    if s == [] then []
    else if s[0] == id then Without(s[1..], id)
    else [s[0]] + Without(s[1..], id)
  }

  const U64_MAX: nat := 0xFFFF_FFFF_FFFF_FFFF
  const USIZE_MAX: nat := 0xFFFF_FFFF_FFFF_FFFF

  function SatAdd(a: nat, b: nat, max: nat): nat {
    if a + b > max then max else a + b
  }

  function SatSub(a: nat, b: nat): nat {
    if b > a then 0 else a - b
  }

  /** Drops documents from the front of the list while the cache is over budget. */
  ghost function Evict<Doc>(c: Cache<Doc>, budget: nat): Cache<Doc>
    decreases |c.lru|
  {
    if Total(c.entries) <= budget || c.lru == [] then c else Evict(DropFirst(c), budget)
  }

  function DropFirst<Doc>(c: Cache<Doc>): Cache<Doc>
    requires c.lru != []
  {
    Cache(c.entries - {c.lru[0]}, c.lru[1..])
  }

  ghost function SubscribeSpec<Doc>(c: Cache<Doc>, id: Uuid, emptyDoc: Doc, bytes: nat, budget: nat): Cache<Doc> {
    if id in c.entries then
      var e := c.entries[id];
      Cache(c.entries[id := e.(subscribers := SatAdd(e.subscribers, 1, USIZE_MAX))], Without(c.lru, id))
    else Evict(Cache(c.entries[id := Entry(emptyDoc, 1, bytes)], c.lru), budget)
  }

  ghost function PutSpec<Doc>(c: Cache<Doc>, id: Uuid, doc: Doc, bytes: nat, budget: nat): Cache<Doc> {
    Evict(Cache(c.entries[id := Entry(doc, 0, bytes)], Without(c.lru, id) + [id]), budget)
  }

  ghost function UnsubscribeSpec<Doc>(c: Cache<Doc>, id: Uuid, budget: nat): Cache<Doc> {
    if id !in c.entries || c.entries[id].subscribers == 0 then c
    else
      var e := c.entries[id].(subscribers := c.entries[id].subscribers - 1);
      if e.subscribers > 0 then Cache(c.entries[id := e], c.lru)
      else Evict(Cache(c.entries[id := e], c.lru + [id]), budget)
  }

  // ----- What the list guarantees -----

  function Elems(s: seq<Uuid>): set<Uuid> {
    set id | id in s
  }

  /** The cache without the first `n` documents of its list. */
  function DropFirstN<Doc>(c: Cache<Doc>, n: nat): Cache<Doc>
    requires n <= |c.lru|
    decreases n
  {
    if n == 0 then c else DropFirstN(DropFirst(c), n - 1)
  }

  lemma {:induction false} DropFirstNRemovesPrefix<Doc>(c: Cache<Doc>, n: nat)
    requires n <= |c.lru|
    ensures DropFirstN(c, n).lru == c.lru[n..]
    ensures DropFirstN(c, n).entries == c.entries - Elems(c.lru[..n])
    decreases n
  {
    if n > 0 {
      DropFirstNRemovesPrefix(DropFirst(c), n - 1);
      var gone := Elems(c.lru[1..][..n - 1]);
      assert c.lru[..n] == [c.lru[0]] + c.lru[1..][..n - 1];
      assert Elems(c.lru[..n]) == {c.lru[0]} + gone;
    } else {
      assert Elems(c.lru[..0]) == {};
    }
  }

  /**
   Eviction removes exactly the shortest prefix of the list that brings the total
   within budget, or the whole list if no prefix does; nothing else changes.
   */
  lemma {:induction false} EvictIsShortestPrefix<Doc>(c: Cache<Doc>, budget: nat) returns (n: nat)
    ensures n <= |c.lru| && Evict(c, budget) == DropFirstN(c, n)
    ensures Evict(c, budget).lru == c.lru[n..]
    ensures Evict(c, budget).entries == c.entries - Elems(c.lru[..n])
    ensures forall m :: 0 <= m < n ==> Total(DropFirstN(c, m).entries) > budget
    ensures n < |c.lru| ==> Total(Evict(c, budget).entries) <= budget
    decreases |c.lru|
  {
    hide Total;
    if Total(c.entries) <= budget || c.lru == [] {
      n := 0;
    } else {
      var m := EvictIsShortestPrefix(DropFirst(c), budget);
      n := m + 1;
      forall i | 0 <= i < n ensures Total(DropFirstN(c, i).entries) > budget {
        assert i == 0 || DropFirstN(c, i) == DropFirstN(DropFirst(c), i - 1);
      }
    }
    DropFirstNRemovesPrefix(c, n);
  }

  /** A document that is not in the list is not touched by eviction. */
  lemma {:induction false} EvictKeepsPinned<Doc>(c: Cache<Doc>, budget: nat, id: Uuid)
    requires id !in c.lru
    ensures id in Evict(c, budget).entries <==> id in c.entries
    ensures id in c.entries ==> Evict(c, budget).entries[id] == c.entries[id]
  {
    hide Evict;
    var n := EvictIsShortestPrefix(c, budget);
  }

  /** Within budget, or nothing left that could be evicted. */
  ghost predicate Settled<Doc>(c: Cache<Doc>, budget: nat) {
    Total(c.entries) <= budget || c.lru == []
  }

  lemma {:induction false} EvictSettles<Doc>(c: Cache<Doc>, budget: nat)
    ensures Settled(Evict(c, budget), budget)
    decreases |c.lru|
  {
    if !(Total(c.entries) <= budget || c.lru == []) { EvictSettles(DropFirst(c), budget); }
  }

  // ----- Whole runs of the list -----

  datatype Op<Doc> =
    | Subscribe(id: Uuid, doc: Doc, bytes: nat)
    | Put(id: Uuid, doc: Doc, bytes: nat)
    | Unsubscribe(id: Uuid)

  ghost function Apply<Doc>(c: Cache<Doc>, op: Op<Doc>, budget: nat): Cache<Doc> {
    match op
    case Subscribe(id, doc, bytes) => SubscribeSpec(c, id, doc, bytes, budget)
    case Put(id, doc, bytes) => PutSpec(c, id, doc, bytes, budget)
    case Unsubscribe(id) => UnsubscribeSpec(c, id, budget)
  }

  /** The cache after a run of operations from empty. */
  ghost function After<Doc>(ops: seq<Op<Doc>>, budget: nat): Cache<Doc> {
    if ops == [] then Cache(map[], []) else Apply(After(ops[..|ops| - 1], budget), ops[|ops| - 1], budget)
  }

  ghost predicate NoDuplicates(s: seq<Uuid>) {
    s == [] || (s[0] !in s[1..] && NoDuplicates(s[1..]))
  }

  predicate IsIdle<Doc>(c: Cache<Doc>, id: Uuid) {
    id in c.entries && c.entries[id].subscribers == 0
  }

  /** The list holds each unsubscribed resident exactly once and nothing else. */
  ghost predicate WellFormed<Doc>(c: Cache<Doc>) {
    NoDuplicates(c.lru) && forall id :: id in c.lru <==> IsIdle(c, id)
  }

  lemma {:induction false} InCons(s: seq<Uuid>, id: Uuid)
    requires s != []
    ensures id in s <==> id == s[0] || id in s[1..]
  {
  }

  lemma {:induction false} WithoutElems(s: seq<Uuid>, id: Uuid)
    ensures forall x :: x in Without(s, id) <==> x in s && x != id
    ensures NoDuplicates(s) ==> NoDuplicates(Without(s, id))
  {
    if s != [] {
      WithoutElems(s[1..], id);
      if s[0] != id { assert Without(s, id)[1..] == Without(s[1..], id); }
      forall x ensures x in Without(s, id) <==> x in s && x != id {
        InCons(s, x);
        if s[0] != id { InCons(Without(s, id), x); }
      }
    }
  }

  lemma {:induction false} AppendNew(s: seq<Uuid>, id: Uuid)
    requires NoDuplicates(s) && id !in s
    ensures NoDuplicates(s + [id])
    decreases |s|
  {
    if s == [] {
      assert (s + [id])[1..] == [];
    } else {
      InCons(s, id);
      AppendNew(s[1..], id);
      assert (s + [id])[1..] == s[1..] + [id];
    }
  }

  lemma {:induction false} EvictKeepsWellFormed<Doc>(c: Cache<Doc>, budget: nat)
    requires WellFormed(c)
    ensures WellFormed(Evict(c, budget))
    decreases |c.lru|
  {
    if !(Total(c.entries) <= budget || c.lru == []) {
      forall id ensures id in c.lru[1..] <==> IsIdle(DropFirst(c), id) { InCons(c.lru, id); }
      EvictKeepsWellFormed(DropFirst(c), budget);
    }
  }

  /** Every run leaves the list exact, and the cache within budget unless every resident has a subscriber. */
  lemma {:induction false} RunsStayWellFormed<Doc>(ops: seq<Op<Doc>>, budget: nat)
    ensures WellFormed(After(ops, budget))
    ensures Total(After(ops, budget).entries) <= budget
            || forall id :: id in After(ops, budget).entries ==> After(ops, budget).entries[id].subscribers > 0
    decreases |ops|
  {
    RunsSettle(ops, budget);
    var c := After(ops, budget);
    if c.lru == [] {
      forall id | id in c.entries ensures c.entries[id].subscribers > 0 { assert id in c.lru <==> IsIdle(c, id); }
    }
  }

  lemma {:induction false} RunsSettle<Doc>(ops: seq<Op<Doc>>, budget: nat)
    ensures WellFormed(After(ops, budget)) && Settled(After(ops, budget), budget)
    decreases |ops|
  {
    if ops == [] {
      assert Total(After(ops, budget).entries) == 0;
    } else {
      RunsSettle(ops[..|ops| - 1], budget);
      ApplySettles(After(ops[..|ops| - 1], budget), ops[|ops| - 1], budget);
    }
  }

  /** Every operation keeps the list exact and leaves the cache settled. */
  lemma {:induction false} ApplySettles<Doc>(c: Cache<Doc>, op: Op<Doc>, budget: nat)
    requires WellFormed(c) && Settled(c, budget)
    ensures WellFormed(Apply(c, op, budget)) && Settled(Apply(c, op, budget), budget)
  {
    hide Total, Evict, Without, NoDuplicates;
    var id := op.id;
    WithoutElems(c.lru, id);
    match op
    case Subscribe(_, doc, bytes) =>
      if id in c.entries {
        var e := c.entries[id];
        TotalWith(c.entries, id, e.(subscribers := SatAdd(e.subscribers, 1, USIZE_MAX)));
        TotalSplits(c.entries, id);
        assert c.lru == [] ==> Without(c.lru, id) == [] by { EmptyWithout(id); }
      } else {
        var c' := Cache(c.entries[id := Entry(doc, 1, bytes)], c.lru);
        EvictKeepsWellFormed(c', budget);
        EvictSettles(c', budget);
      }
    case Put(_, doc, bytes) =>
      AppendNew(Without(c.lru, id), id);
      var c' := Cache(c.entries[id := Entry(doc, 0, bytes)], Without(c.lru, id) + [id]);
      EvictKeepsWellFormed(c', budget);
      EvictSettles(c', budget);
    case Unsubscribe(_) =>
      if id in c.entries && c.entries[id].subscribers > 0 {
        var e := c.entries[id].(subscribers := c.entries[id].subscribers - 1);
        TotalWith(c.entries, id, e);
        TotalSplits(c.entries, id);
        if e.subscribers == 0 {
          assert id !in c.lru;
          AppendNew(c.lru, id);
          var c' := Cache(c.entries[id := e], c.lru + [id]);
          EvictKeepsWellFormed(c', budget);
          EvictSettles(c', budget);
        }
      }
  }

  lemma {:induction false} EmptyWithout(id: Uuid)
    ensures Without([], id) == []
  {
  }

  // ----- Ticks and the list -----

  datatype ManagedDoc<+Doc> = ManagedDoc(doc: Doc, subscribers: nat, estimatedBytes: nat, lruTick: nat)

  ghost function Entries<Doc>(docs: map<Uuid, ManagedDoc<Doc>>): map<Uuid, Entry<Doc>> {
    map id | id in docs :: Entry(docs[id].doc, docs[id].subscribers, docs[id].estimatedBytes)
  }

  /** Resident without subscribers. */
  predicate Cached<Doc>(docs: map<Uuid, ManagedDoc<Doc>>, id: Uuid) {
    id in docs && docs[id].subscribers == 0
  }

  function Tick<Doc>(docs: map<Uuid, ManagedDoc<Doc>>, id: Uuid): nat {
    if id in docs then docs[id].lruTick else 0
  }

  /** Ticks increase along the list. */
  ghost predicate Sorted<Doc>(docs: map<Uuid, ManagedDoc<Doc>>, s: seq<Uuid>) {
    s == [] || ((forall id :: id in s[1..] ==> Tick(docs, s[0]) < Tick(docs, id)) && Sorted(docs, s[1..]))
  }

  /** The list holds the unsubscribed documents in the order of their ticks. */
  ghost predicate IsLruOrder<Doc>(docs: map<Uuid, ManagedDoc<Doc>>, lru: seq<Uuid>) {
    (forall id :: id in lru <==> Cached(docs, id)) && Sorted(docs, lru)
  }

  /** Unsubscribed documents carry ticks that have been given out. */
  ghost predicate TicksBelow<Doc>(docs: map<Uuid, ManagedDoc<Doc>>, next: nat) {
    forall id :: Cached(docs, id) ==> 0 < Tick(docs, id) < next
  }

  /** The two maps differ at `id` at most. */
  ghost predicate SameElsewhere<Doc>(before: map<Uuid, ManagedDoc<Doc>>, after: map<Uuid, ManagedDoc<Doc>>, id: Uuid) {
    before - {id} == after - {id}
  }

  lemma {:induction false} ElsewhereFrame<Doc>(before: map<Uuid, ManagedDoc<Doc>>, after: map<Uuid, ManagedDoc<Doc>>,
                                               id: Uuid, x: Uuid)
    requires SameElsewhere(before, after, id) && x != id
    ensures Cached(before, x) <==> Cached(after, x)
    ensures Tick(before, x) == Tick(after, x)
  {
    assert x in before - {id} <==> x in before;
    assert x in after - {id} <==> x in after;
    assert x in before ==> (before - {id})[x] == before[x] && (after - {id})[x] == after[x];
  }

  lemma {:induction false} SameElems(s: seq<Uuid>, t: seq<Uuid>, id: Uuid)
    requires forall x :: x in s <==> x in t
    ensures id in s <==> id in t
  {
  }

  /** Ticks determine the list. */
  lemma {:induction false} SortedIsUnique<Doc>(docs: map<Uuid, ManagedDoc<Doc>>, s: seq<Uuid>, t: seq<Uuid>)
    requires Sorted(docs, s) && Sorted(docs, t)
    requires forall id :: id in s <==> id in t
    ensures s == t
    decreases |s|
  {
    if s == [] {
      if t != [] { SameElems(s, t, t[0]); }
    } else {
      SameElems(s, t, s[0]);
      SameElems(s, t, t[0]);
      InCons(s, t[0]);
      InCons(t, s[0]);
      forall id ensures id in s[1..] <==> id in t[1..] {
        InCons(s, id);
        InCons(t, id);
      }
      SortedIsUnique(docs, s[1..], t[1..]);
    }
  }

  lemma {:induction false} SortedFrame<Doc>(docs: map<Uuid, ManagedDoc<Doc>>, docs': map<Uuid, ManagedDoc<Doc>>,
                                            s: seq<Uuid>)
    requires Sorted(docs, s)
    requires forall id :: id in s ==> Tick(docs, id) == Tick(docs', id)
    ensures Sorted(docs', s)
    decreases |s|
  {
    hide Tick;
    if s != [] { SortedFrame(docs, docs', s[1..]); }
  }

  lemma {:induction false} WithoutKeepsOrder<Doc>(docs: map<Uuid, ManagedDoc<Doc>>, s: seq<Uuid>, id: Uuid)
    requires Sorted(docs, s)
    ensures Sorted(docs, Without(s, id))
    decreases |s|
  {
    hide Tick;
    if s != [] {
      WithoutKeepsOrder(docs, s[1..], id);
      WithoutElems(s[1..], id);
      if s[0] != id { assert Without(s, id)[1..] == Without(s[1..], id); }
    }
  }

  lemma {:induction false} AppendKeepsOrder<Doc>(docs: map<Uuid, ManagedDoc<Doc>>, s: seq<Uuid>, id: Uuid)
    requires Sorted(docs, s) && forall x :: x in s ==> Tick(docs, x) < Tick(docs, id)
    ensures Sorted(docs, s + [id])
    decreases |s|
  {
    hide Tick;
    if s == [] {
      assert (s + [id])[1..] == [];
    } else {
      AppendKeepsOrder(docs, s[1..], id);
      assert (s + [id])[1..] == s[1..] + [id];
    }
  }

  /** The first of the list has the least tick, and the others follow it. */
  lemma {:induction false} FirstIsOldest<Doc>(docs: map<Uuid, ManagedDoc<Doc>>, s: seq<Uuid>)
    requires IsLruOrder(docs, s) && s != []
    ensures Cached(docs, s[0]) && forall id :: Cached(docs, id) && id != s[0] ==> Tick(docs, s[0]) < Tick(docs, id)
    ensures IsLruOrder(docs - {s[0]}, s[1..])
  {
    assert s[0] in s;
    var docs' := docs - {s[0]};
    forall id ensures Cached(docs, id) && id != s[0] ==> Tick(docs, s[0]) < Tick(docs, id)
      ensures id in s[1..] <==> Cached(docs', id)
    {
      InCons(s, id);
    }
    SortedFrame(docs, docs', s[1..]);
  }

  lemma {:induction false} TicksBelowRemoved<Doc>(docs: map<Uuid, ManagedDoc<Doc>>, id: Uuid, next: nat)
    requires TicksBelow(docs, next)
    ensures TicksBelow(docs - {id}, next)
  {
    forall x | Cached(docs - {id}, x) ensures 0 < Tick(docs - {id}, x) < next {
      assert Cached(docs, x) && Tick(docs - {id}, x) == Tick(docs, x);
    }
  }

  lemma {:induction false} RemovedBytes<Doc>(docs: map<Uuid, ManagedDoc<Doc>>, id: Uuid)
    requires id in docs
    ensures Total(Entries(docs)) == docs[id].estimatedBytes + Total(Entries(docs) - {id})
  {
    TotalSplits(Entries(docs), id);
  }

  /** What replacing one document does to the entries and to their total. */
  lemma {:induction false} EntriesUpdate<Doc>(before: map<Uuid, ManagedDoc<Doc>>, after: map<Uuid, ManagedDoc<Doc>>,
                                              id: Uuid, e: Entry<Doc>)
    requires SameElsewhere(before, after, id)
    requires id in after && e == Entry(after[id].doc, after[id].subscribers, after[id].estimatedBytes)
    ensures Entries(after) == Entries(before)[id := e]
    ensures Total(Entries(after))
         == Total(Entries(before)) - BytesOf(before, id) + e.bytes
    ensures id in before ==> before[id].estimatedBytes <= Total(Entries(before))
  {
    hide Total;
    forall x | x != id ensures (x in before <==> x in after) && (x in before ==> before[x] == after[x]) {
      assert x in before - {id} <==> x in before;
      assert x in after - {id} <==> x in after;
      assert x in before ==> (before - {id})[x] == before[x] && (after - {id})[x] == after[x];
    }
    assert Entries(after) == Entries(before)[id := e];
    TotalWith(Entries(before), id, e);
    if id in before { RemovedBytes(before, id); } else { assert Entries(before) - {id} == Entries(before); }
  }

  /** Documents that others have subscribed to are as they were. */
  ghost predicate KeepsPinned<Doc>(before: map<Uuid, ManagedDoc<Doc>>, after: map<Uuid, ManagedDoc<Doc>>, id: Uuid) {
    forall x :: x in before && x != id && before[x].subscribers > 0 ==> x in after && after[x] == before[x]
  }

  /** Only documents without subscribers are gone, and the others are as they were. */
  ghost predicate OnlyCachedGone<Doc>(before: map<Uuid, ManagedDoc<Doc>>, after: map<Uuid, ManagedDoc<Doc>>) {
    && (forall x :: x in after ==> x in before && after[x] == before[x])
    && (forall x :: x in before && before[x].subscribers > 0 ==> x in after)
  }

  function BytesOf<Doc>(docs: map<Uuid, ManagedDoc<Doc>>, id: Uuid): nat {
    if id in docs then docs[id].estimatedBytes else 0
  }

  predicate LastSubscriber<Doc>(docs: map<Uuid, ManagedDoc<Doc>>, id: Uuid) {
    id in docs && docs[id].subscribers == 1
  }

  // ----- The manager -----

  class DocManager<Doc> {
    var docs: map<Uuid, ManagedDoc<Doc>>
    const maxMemoryBytes: nat
    var totalMemoryBytes: nat
    var nextLruTick: nat
    /** The unsubscribed documents from least to most recently used. */
    ghost var lru: seq<Uuid>

    /** The cache this manager stands for. */
    ghost function View(): Cache<Doc>
      reads this
    {
      Cache(Entries(docs), lru)
    }

    /** The ticks spell the list, are below the next tick, and the recorded total is the true one. */
    ghost predicate Valid()
      reads this
    {
      && IsLruOrder(docs, lru)
      && 0 < nextLruTick && TicksBelow(docs, nextLruTick)
      && totalMemoryBytes == Total(Entries(docs))
    }

    /** What holds between public operations. */
    ghost predicate Invariant()
      reads this
    {
      Valid() && Settled(View(), maxMemoryBytes)
    }

    constructor (maxMemoryBytes: nat)
      ensures Invariant() && Relieved() && View() == Cache(map[], []) && this.maxMemoryBytes == maxMemoryBytes
    {
      docs, this.maxMemoryBytes, totalMemoryBytes, nextLruTick := map[], maxMemoryBytes, 0, 1;
      lru := [];
    }

    /** The unsubscribed document with the least tick. */
    method OldestCached() returns (oldest: Option<Uuid>)
      ensures oldest.None? ==> forall id :: !Cached(docs, id)
      ensures oldest.Some? ==> Cached(docs, oldest.value)
      ensures oldest.Some? ==> forall id :: Cached(docs, id) ==> Tick(docs, oldest.value) <= Tick(docs, id)
      ensures Valid() ==> oldest == if lru == [] then None else Some(lru[0])
    {
      oldest := None;
      var rest := docs.Keys;
      while rest != {}
        invariant rest <= docs.Keys
        invariant oldest.Some? ==> Cached(docs, oldest.value)
        invariant forall id :: Cached(docs, id) && id !in rest ==>
                                 oldest.Some? && Tick(docs, oldest.value) <= Tick(docs, id)
        decreases rest
      {
        ghost var some := Pick(rest);
        var id :| id in rest;
        if docs[id].subscribers == 0 && (oldest.None? || docs[id].lruTick < docs[oldest.value].lruTick) {
          oldest := Some(id);
        }
        rest := rest - {id};
      }
      if Valid() {
        if lru != [] { FirstIsOldest(docs, lru); }
        if oldest.Some? { assert oldest.value in lru; }
      }
    }

    /** The recorded total is within the budget, or no document is left that could be evicted. */
    ghost predicate Relieved()
      reads this
    {
      totalMemoryBytes <= maxMemoryBytes || forall id :: !Cached(docs, id)
    }

    method EvictUnderPressure()
      modifies this
      ensures Relieved() && OnlyCachedGone(old(docs), docs) && nextLruTick == old(nextLruTick)
      ensures old(Valid()) ==> Valid() && View() == Evict(old(View()), maxMemoryBytes)
    {
      hide Total, IsLruOrder, Tick;
      while totalMemoryBytes > maxMemoryBytes
        invariant OnlyCachedGone(old(docs), docs) && nextLruTick == old(nextLruTick)
        invariant old(Valid()) ==> Valid() && Evict(View(), maxMemoryBytes) == Evict(old(View()), maxMemoryBytes)
        decreases |docs|
      {
        var evictId := OldestCached();
        if evictId.None? {
          break;
        }
        var id := evictId.value;
        if Valid() {
          FirstIsOldest(docs, lru);
          RemovedBytes(docs, id);
          TicksBelowRemoved(docs, id, nextLruTick);
          assert Entries(docs - {id}) == Entries(docs) - {id};
        }
        totalMemoryBytes := SatSub(totalMemoryBytes, docs[id].estimatedBytes);
        docs := docs - {id};
        lru := if lru == [] then [] else lru[1..];
      }
    }

    method BumpLruTick() returns (tick: nat)
      modifies this`nextLruTick
      ensures tick == old(nextLruTick)
      ensures nextLruTick == if tick < U64_MAX then tick + 1 else U64_MAX
    {
      tick := nextLruTick;
      nextLruTick := SatAdd(nextLruTick, 1, U64_MAX);
    }

    /**
     Subscribes to a document, creating it empty if it is not resident. All clauses but
     the last hold whatever has saturated before.
     */
    method SubscribeOrCreate(id: Uuid, emptyDoc: Doc, emptyBytes: nat) returns (doc: Doc)
      modifies this
      ensures id in docs && docs[id].doc == doc && docs[id].subscribers > 0
      ensures doc == if id in old(docs) then old(docs[id].doc) else emptyDoc
      ensures docs[id].estimatedBytes == if id in old(docs) then old(docs[id].estimatedBytes) else emptyBytes
      ensures docs[id].subscribers == if id in old(docs) then Min(old(docs[id].subscribers) + 1, USIZE_MAX) else 1
      ensures KeepsPinned(old(docs), docs, id) && (old(Relieved()) ==> Relieved())
      ensures old(Invariant() && (id in docs || totalMemoryBytes + emptyBytes <= USIZE_MAX)) ==>
                Invariant() && View() == SubscribeSpec(old(View()), id, emptyDoc, emptyBytes, maxMemoryBytes)
    {
      hide Total, Evict, Without, IsLruOrder, TicksBelow;
      ghost var before := docs;
      if id in docs {
        var entry := docs[id];
        docs := docs[id := entry.(subscribers := SatAdd(entry.subscribers, 1, USIZE_MAX), lruTick := 0)];
        lru := Without(lru, id);
        ghost var e := Entry(entry.doc, docs[id].subscribers, entry.estimatedBytes);
        EntriesUpdate(before, docs, id, e);
        assert forall x :: Cached(docs, x) ==> Cached(before, x);
        if old(Invariant()) {
          Pinned(before, docs, old(lru), id, nextLruTick);
          assert old(lru) == [] ==> lru == [] by { NotListed([], id); }
        }
        return entry.doc;
      }
      totalMemoryBytes := SatAdd(totalMemoryBytes, emptyBytes, USIZE_MAX);
      docs := docs[id := ManagedDoc(emptyDoc, 1, emptyBytes, 0)];
      EntriesUpdate(before, docs, id, Entry(emptyDoc, 1, emptyBytes));
      if old(Invariant()) { Pinned(before, docs, lru, id, nextLruTick); }
      EvictSettles(View(), maxMemoryBytes);
      EvictUnderPressure();
      return emptyDoc;
    }

    /** Inserts a loaded document without subscribers; it becomes the most recently used one. */
    method PutDoc(id: Uuid, doc: Doc, bytes: nat)
      modifies this
      ensures KeepsPinned(old(docs), docs, id) && Relieved()
      ensures id in docs ==> docs[id].doc == doc && docs[id].subscribers == 0 && docs[id].estimatedBytes == bytes
      ensures old(Invariant() && nextLruTick < U64_MAX && totalMemoryBytes - BytesOf(docs, id) + bytes <= USIZE_MAX) ==>
                Invariant() && View() == PutSpec(old(View()), id, doc, bytes, maxMemoryBytes)
    {
      hide Total, Evict, Without, IsLruOrder, TicksBelow;
      ghost var before := docs;
      if id in docs {
        RemovedBytes(docs, id);
        totalMemoryBytes := SatSub(totalMemoryBytes, docs[id].estimatedBytes);
        docs := docs - {id};
      }
      totalMemoryBytes := SatAdd(totalMemoryBytes, bytes, USIZE_MAX);
      var lruTick := BumpLruTick();
      docs := docs[id := ManagedDoc(doc, 0, bytes, lruTick)];
      lru := Without(lru, id) + [id];
      EntriesUpdate(before, docs, id, Entry(doc, 0, bytes));
      if old(Invariant()) { Released(before, docs, old(lru), id, old(nextLruTick)); }
      EvictSettles(View(), maxMemoryBytes);
      EvictUnderPressure();
    }

    /** Drops one subscription; the last one releases the document to the end of the list. */
    method Unsubscribe(id: Uuid) returns (done: bool)
      modifies this
      ensures done <==> id in old(docs) && old(docs[id].subscribers) > 0
      ensures done && id in docs ==> docs[id].subscribers == old(docs[id].subscribers) - 1
      ensures done && id !in docs ==> old(docs[id].subscribers) == 1
      ensures KeepsPinned(old(docs), docs, id) && (old(Relieved()) ==> Relieved())
      ensures old(Invariant() && (LastSubscriber(docs, id) ==> nextLruTick < U64_MAX)) ==>
                Invariant() && View() == UnsubscribeSpec(old(View()), id, maxMemoryBytes)
    {
      hide Total, Evict, Without, IsLruOrder, TicksBelow;
      if id !in docs || docs[id].subscribers == 0 {
        return false;
      }
      ghost var before := docs;
      var entry := docs[id].(subscribers := docs[id].subscribers - 1);
      ghost var e := Entry(entry.doc, entry.subscribers, entry.estimatedBytes);
      docs := docs[id := entry];
      if entry.subscribers == 0 {
        var lruTick := BumpLruTick();
        docs := docs[id := docs[id].(lruTick := lruTick)];
        lru := lru + [id];
        EntriesUpdate(before, docs, id, e);
        if old(Invariant()) { Released(before, docs, old(lru), id, old(nextLruTick)); }
        EvictSettles(View(), maxMemoryBytes);
        EvictUnderPressure();
      } else {
        EntriesUpdate(before, docs, id, e);
        assert forall x :: Cached(docs, x) ==> Cached(before, x);
        if old(Invariant()) { Pinned(before, docs, lru, id, nextLruTick); }
      }
      return true;
    }

    /** The ids of the unsubscribed documents, least recently used first. */
    method CachedLruDocIds() returns (ids: seq<Uuid>)
      ensures NoDuplicates(ids) && (forall id :: id in ids <==> Cached(docs, id)) && Ascending(docs, ids)
      ensures Valid() ==> ids == lru
    {
      ids := [];
      var rest := docs.Keys;
      while rest != {}
        invariant rest <= docs.Keys
        invariant forall id :: id in ids <==> Cached(docs, id) && id !in rest
        invariant NoDuplicates(ids) && Ascending(docs, ids)
        decreases rest
      {
        ghost var some := Pick(rest);
        var id :| id in rest;
        if docs[id].subscribers == 0 {
          InsertKeepsOrder(docs, ids, id);
          ids := InsertByTick(docs, ids, id);
        }
        rest := rest - {id};
      }
      if Valid() {
        DistinctTicksSort(docs, lru, ids);
        SortedIsUnique(docs, ids, lru);
      }
    }
  }

  /** Subscribing takes a document out of the list. */
  lemma {:induction false} Pinned<Doc>(before: map<Uuid, ManagedDoc<Doc>>, after: map<Uuid, ManagedDoc<Doc>>,
                                       s: seq<Uuid>, id: Uuid, next: nat)
    requires IsLruOrder(before, s) && TicksBelow(before, next)
    requires SameElsewhere(before, after, id) && !Cached(after, id)
    ensures IsLruOrder(after, Without(s, id)) && TicksBelow(after, next)
    ensures !Cached(before, id) ==> Without(s, id) == s && id !in s
  {
    hide SameElsewhere, Cached, Tick, Without, NoDuplicates;
    WithoutElems(s, id);
    WithoutKeepsOrder(before, s, id);
    forall x | x != id ensures (Cached(before, x) <==> Cached(after, x)) && Tick(before, x) == Tick(after, x) {
      ElsewhereFrame(before, after, id, x);
    }
    SortedFrame(before, after, Without(s, id));
    if !Cached(before, id) { NotListed(s, id); }
  }

  lemma {:induction false} NotListed(s: seq<Uuid>, id: Uuid)
    requires id !in s
    ensures Without(s, id) == s
    decreases |s|
  {
    if s != [] {
      InCons(s, id);
      NotListed(s[1..], id);
    }
  }

  /** A document that becomes unsubscribed with the newest tick goes to the end of the list. */
  lemma {:induction false} Released<Doc>(before: map<Uuid, ManagedDoc<Doc>>, after: map<Uuid, ManagedDoc<Doc>>,
                                         s: seq<Uuid>, id: Uuid, next: nat)
    requires IsLruOrder(before, s) && 0 < next && TicksBelow(before, next)
    requires SameElsewhere(before, after, id) && Cached(after, id) && Tick(after, id) == next
    ensures IsLruOrder(after, Without(s, id) + [id]) && TicksBelow(after, next + 1)
    ensures !Cached(before, id) ==> Without(s, id) == s
  {
    hide SameElsewhere, Cached, Tick, Without, NoDuplicates;
    WithoutElems(s, id);
    WithoutKeepsOrder(before, s, id);
    forall x | x != id ensures (Cached(before, x) <==> Cached(after, x)) && Tick(before, x) == Tick(after, x) {
      ElsewhereFrame(before, after, id, x);
    }
    SortedFrame(before, after, Without(s, id));
    AppendKeepsOrder(after, Without(s, id), id);
    if !Cached(before, id) { NotListed(s, id); }
  }

  /** Stable insertion by tick, as sorting by key does. */
  function InsertByTick<Doc>(docs: map<Uuid, ManagedDoc<Doc>>, s: seq<Uuid>, id: Uuid): seq<Uuid> {
    if s == [] || Tick(docs, id) < Tick(docs, s[0]) then [id] + s
    else [s[0]] + InsertByTick(docs, s[1..], id)
  }

  /** Ticks do not decrease along the list. */
  ghost predicate Ascending<Doc>(docs: map<Uuid, ManagedDoc<Doc>>, s: seq<Uuid>) {
    s == [] || ((forall id :: id in s[1..] ==> Tick(docs, s[0]) <= Tick(docs, id)) && Ascending(docs, s[1..]))
  }

  lemma {:induction false} InsertKeepsOrder<Doc>(docs: map<Uuid, ManagedDoc<Doc>>, s: seq<Uuid>, id: Uuid)
    requires Ascending(docs, s) && NoDuplicates(s) && id !in s
    ensures Ascending(docs, InsertByTick(docs, s, id)) && NoDuplicates(InsertByTick(docs, s, id))
    ensures forall x :: x in InsertByTick(docs, s, id) <==> x == id || x in s
    decreases |s|
  {
    hide Tick;
    var r := InsertByTick(docs, s, id);
    if s == [] || Tick(docs, id) < Tick(docs, s[0]) {
      assert r[1..] == s;
    } else {
      InCons(s, id);
      InsertKeepsOrder(docs, s[1..], id);
      assert r[1..] == InsertByTick(docs, s[1..], id);
    }
    forall x ensures x in r <==> x == id || x in s {
      InCons(r, x);
      if s != [] { InCons(s, x); }
    }
  }

  /** Unsubscribed documents have different ticks. */
  lemma {:induction false} SortedTicksDiffer<Doc>(docs: map<Uuid, ManagedDoc<Doc>>, s: seq<Uuid>, x: Uuid, y: Uuid)
    requires Sorted(docs, s) && x in s && y in s && x != y
    ensures Tick(docs, x) != Tick(docs, y)
    decreases |s|
  {
    hide Tick;
    InCons(s, x);
    InCons(s, y);
    if x != s[0] && y != s[0] { SortedTicksDiffer(docs, s[1..], x, y); }
  }

  lemma {:induction false} DistinctTicksSort<Doc>(docs: map<Uuid, ManagedDoc<Doc>>, lru: seq<Uuid>, ids: seq<Uuid>)
    requires Sorted(docs, lru) && Ascending(docs, ids) && NoDuplicates(ids)
    requires forall x :: x in ids ==> x in lru
    ensures Sorted(docs, ids)
    decreases |ids|
  {
    hide Tick;
    if ids != [] {
      forall x | x in ids[1..] ensures x in ids && Tick(docs, ids[0]) != Tick(docs, x) {
        InCons(ids, x);
        SortedTicksDiffer(docs, lru, ids[0], x);
      }
      DistinctTicksSort(docs, lru, ids[1..]);
    }
  }
}
