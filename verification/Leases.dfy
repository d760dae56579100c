/**
 Advisory section leases: kept in memory and mirrored in a table, so that a restart
 finds them again. Leases end by time only.
 */
module Leases {
  import opened Base
  import opened Utf8

  const NANOS_PER_SEC := 1_000_000_000
  const U32_MAX := 0xFFFF_FFFF

  datatype LeaseMode = Exclusive | Shared

  function ModeText(mode: LeaseMode): string {
    match mode
    case Exclusive => "exclusive"
    case Shared => "shared"
  }

  function ParseMode(text: string): Option<LeaseMode> {
    if text == "exclusive" then Some(Exclusive)
    else if text == "shared" then Some(Shared)
    else None
  }

  datatype LeaseKey = LeaseKey(workspaceId: string, docId: string, sectionId: string, agentId: string)

  datatype SectionLease = SectionLease(key: LeaseKey, ttlSec: nat, mode: LeaseMode, note: Option<string>,
                                       expiresAt: int)

  /** A table row, keyed by its primary key. */
  datatype LeaseRow = LeaseRow(ttlSec: int, mode: string, note: Option<string>, expiresAt: int)

  datatype LeaseClaim = LeaseClaim(key: LeaseKey, ttlSec: nat, mode: LeaseMode, note: Option<string>)

  datatype LeaseConflict = LeaseConflict(agentId: string, sectionId: string)

  datatype LeaseError = ZeroTtl | InvalidRow

  function RowOf(lease: SectionLease): LeaseRow {
    LeaseRow(lease.ttlSec, ModeText(lease.mode), lease.note, lease.expiresAt)
  }

  /** Reads a row back; the time to live must be a u32 and the mode a known one. */
  function LeaseOf(key: LeaseKey, row: LeaseRow): Option<SectionLease> {
    if 0 <= row.ttlSec <= U32_MAX && ParseMode(row.mode).Some? then
      Some(SectionLease(key, row.ttlSec, ParseMode(row.mode).value, row.note, row.expiresAt))
    else None
  }

  lemma {:induction false} RowReadsBack(lease: SectionLease)
    requires lease.ttlSec <= U32_MAX
    ensures LeaseOf(lease.key, RowOf(lease)) == Some(lease)
  {
  }

  /** A row is readable exactly if its time to live is a u32 and its mode one of the two words, and reads as it says. */
  lemma {:induction false} RowMeans(key: LeaseKey, row: LeaseRow, lease: SectionLease)
    ensures LeaseOf(key, row) == Some(lease) <==>
            && lease.key == key && lease.ttlSec == row.ttlSec <= 4_294_967_295
            && lease.note == row.note && lease.expiresAt == row.expiresAt
            && row.mode == (if lease.mode == Exclusive then "exclusive" else "shared")
  {
    assert "exclusive" != "shared" by { assert |"exclusive"| != |"shared"|; }
  }

  // ----- Memory and table as values -----

  type Leases = map<LeaseKey, SectionLease>
  type Rows = map<LeaseKey, LeaseRow>

  datatype State = State(leases: Leases, rows: Rows)

  function Live(leases: Leases, now: int): Leases {
    map k | k in leases && leases[k].expiresAt > now :: leases[k]
  }

  function LiveRows(rows: Rows, now: int): Rows {
    map k | k in rows && rows[k].expiresAt > now :: rows[k]
  }

  function Pruned(st: State, now: int): State {
    State(Live(st.leases, now), LiveRows(st.rows, now))
  }

  function Stored(st: State, lease: SectionLease): State {
    State(st.leases[lease.key := lease], st.rows[lease.key := RowOf(lease)])
  }

  function Claimed(claim: LeaseClaim, now: int): SectionLease {
    SectionLease(claim.key, claim.ttlSec, claim.mode, claim.note, now + claim.ttlSec * NANOS_PER_SEC)
  }

  function Extended(lease: SectionLease, now: int): SectionLease {
    lease.(expiresAt := now + lease.ttlSec * NANOS_PER_SEC)
  }

  /** The operations that change leases. */
  datatype Event = Claim(claim: LeaseClaim, now: int) | Activity(key: LeaseKey, now: int) | Prune(now: int)

  function Step(st: State, e: Event): State {
    match e
    case Claim(claim, now) => if claim.ttlSec == 0 then st else Stored(Pruned(st, now), Claimed(claim, now))
    case Activity(key, now) =>
      var p := Pruned(st, now);
      if key in p.leases then Stored(p, Extended(p.leases[key], now)) else p
    case Prune(now) => Pruned(st, now)
  }

  /** Every row of the table that has not expired can be read. */
  ghost predicate Readable(rows: Rows, now: int) {
    forall k :: k in rows && rows[k].expiresAt > now ==> LeaseOf(k, rows[k]).Some?
  }

  function Loaded(rows: Rows, now: int): Leases
    requires Readable(rows, now)
  {
    map k | k in rows && rows[k].expiresAt > now :: LeaseOf(k, rows[k]).value
  }

  /** A store just opened on a table. */
  ghost function Opened(rows: Rows, now: int): State
    requires Readable(rows, now)
  {
    State(Loaded(rows, now), LiveRows(rows, now))
  }

  ghost function Run(st: State, events: seq<Event>): State {
    if events == [] then st else Step(Run(st, events[..|events| - 1]), events[|events| - 1])
  }

  predicate FitsU32(e: Event) {
    e.Claim? ==> e.claim.ttlSec <= U32_MAX
  }

  // ----- The table mirrors memory -----

  ghost predicate WellKeyed(leases: Leases) {
    forall k :: k in leases ==> leases[k].key == k && leases[k].ttlSec <= U32_MAX
  }

  ghost predicate Mirrors(st: State) {
    && WellKeyed(st.leases)
    && st.rows.Keys == st.leases.Keys
    && forall k :: k in st.leases ==> st.rows[k] == RowOf(st.leases[k])
  }

  /**
   A lease written to the table is found there: the next load yields it, unless it has
   expired by then, in place of any lease with its key, and every other row as before.
   */
  lemma {:induction false} UpsertLoads(rows: Rows, lease: SectionLease, now: int)
    requires lease.ttlSec <= U32_MAX && Readable(rows, now)
    ensures var rows' := rows[lease.key := RowOf(lease)];
            && Readable(rows', now)
            && Loaded(rows', now) == if lease.expiresAt > now then Loaded(rows, now)[lease.key := lease]
                                     else Loaded(rows, now) - {lease.key}
  {
    RowReadsBack(lease);
    var rows' := rows[lease.key := RowOf(lease)];
    assert forall k :: k in rows' && k != lease.key ==> k in rows && rows'[k] == rows[k];
  }

  lemma {:induction false} OpenMirrors(rows: Rows, now: int)
    requires Readable(rows, now)
    ensures Mirrors(Opened(rows, now))
  {
    var st := Opened(rows, now);
    forall k | k in st.leases ensures st.rows[k] == RowOf(st.leases[k]) {
      assert LeaseOf(k, rows[k]).Some?;
    }
  }

  lemma {:induction false} StepMirrors(st: State, e: Event)
    requires Mirrors(st) && FitsU32(e)
    ensures Mirrors(Step(st, e))
  {
    hide RowOf;
    var now := e.now;
    var p := Pruned(st, now);
    forall k ensures k in p.rows <==> k in p.leases {
      if k in st.leases { ExpiryIsMirrored(st.leases[k]); }
    }
    assert Mirrors(p);
  }

  lemma {:induction false} ExpiryIsMirrored(lease: SectionLease)
    ensures RowOf(lease).expiresAt == lease.expiresAt
  {
  }

  /** In every run the table holds exactly what memory holds. */
  lemma {:induction false} RunsMirror(rows: Rows, start: int, events: seq<Event>)
    requires Readable(rows, start) && forall i :: 0 <= i < |events| ==> FitsU32(events[i])
    ensures Mirrors(Run(Opened(rows, start), events))
    decreases |events|
  {
    if events == [] {
      OpenMirrors(rows, start);
    } else {
      RunsMirror(rows, start, events[..|events| - 1]);
      StepMirrors(Run(Opened(rows, start), events[..|events| - 1]), events[|events| - 1]);
    }
  }

  /** Opening a store on a mirroring table finds exactly the leases that have not expired. */
  lemma {:induction false} ReopenFindsLive(st: State, now: int)
    requires Mirrors(st)
    ensures Readable(st.rows, now) && Loaded(st.rows, now) == Live(st.leases, now)
    ensures Opened(st.rows, now) == Pruned(st, now)
  {
    forall k | k in st.rows ensures LeaseOf(k, st.rows[k]) == Some(st.leases[k]) {
      RowReadsBack(st.leases[k]);
    }
  }

  /** A restart at any time after any run yields exactly the unexpired leases. */
  lemma {:induction false} RestartIsLossless(rows: Rows, start: int, events: seq<Event>, now: int)
    requires Readable(rows, start) && forall i :: 0 <= i < |events| ==> FitsU32(events[i])
    ensures var st := Run(Opened(rows, start), events);
            Readable(st.rows, now) && Opened(st.rows, now) == Pruned(st, now)
  {
    RunsMirror(rows, start, events);
    ReopenFindsLive(Run(Opened(rows, start), events), now);
  }

  // ----- Conflicts -----

  /** Lexicographic order by code point. */
  predicate StrLess(a: string, b: string) {
    b != [] && (a == [] || a[0] < b[0] || (a[0] == b[0] && StrLess(a[1..], b[1..])))
  }

  /** A strict total order: exactly one of less, equal and greater holds, and less is transitive. */
  lemma {:induction false} StrLessIsTotalOrder(a: string, b: string, c: string)
    ensures a == b || StrLess(a, b) || StrLess(b, a)
    ensures !(StrLess(a, b) && StrLess(b, a)) && !(a == b && StrLess(a, b))
    ensures StrLess(a, b) && StrLess(b, c) ==> StrLess(a, c)
    decreases |a|
  {
    if a != [] && b != [] && a[0] == b[0] {
      StrLessIsTotalOrder(a[1..], b[1..], if c == [] then [] else c[1..]);
      assert a[1..] == b[1..] ==> a == b by { assert a == [a[0]] + a[1..] && b == [b[0]] + b[1..]; }
    }
  }

  /** The order by code point is the order of the UTF-8 bytes. */
  lemma {:induction false} StrLessIsByteOrder(a: string, b: string)
    ensures StrLess(a, b) <==> BytesLess(Encode(a), Encode(b))
    decreases |a|
  {
    hide EncodeChar, BytesLess;
    EmptyIsLeast(Encode(a), Encode(b));
    if a != [] && b != [] {
      var x, y := Encode(a[1..]), Encode(b[1..]);
      if a[0] == b[0] {
        StrLessIsByteOrder(a[1..], b[1..]);
        CommonPrefix(EncodeChar(a[0]), x, y);
      } else if a[0] < b[0] {
        CharsKeepOrder(a[0], b[0], x, y);
      } else {
        CharsKeepOrder(b[0], a[0], y, x);
        BytesLessIsAsymmetric(Encode(a), Encode(b));
      }
    }
  }

  ghost predicate Before(c: LeaseConflict, rest: seq<LeaseConflict>) {
    forall i :: 0 <= i < |rest| ==> StrLess(c.agentId, rest[i].agentId)
  }

  /** Sorted by agent with no agent repeated. */
  ghost predicate SortedByAgent(s: seq<LeaseConflict>) {
    s == [] || (Before(s[0], s[1..]) && SortedByAgent(s[1..]))
  }

  function InsertByAgent(s: seq<LeaseConflict>, c: LeaseConflict): seq<LeaseConflict> {
    if s == [] || StrLess(c.agentId, s[0].agentId) then [c] + s else [s[0]] + InsertByAgent(s[1..], c)
  }

  ghost predicate Names(s: seq<LeaseConflict>, agent: string) {
    exists i :: 0 <= i < |s| && s[i].agentId == agent
  }

  lemma {:induction false} NamesCons(s: seq<LeaseConflict>, agent: string)
    requires s != []
    ensures Names(s, agent) <==> s[0].agentId == agent || Names(s[1..], agent)
  {
    if Names(s, agent) && s[0].agentId != agent {
      var i :| 0 <= i < |s| && s[i].agentId == agent;
      assert s[1..][i - 1].agentId == agent;
    }
    if Names(s[1..], agent) {
      var i :| 0 <= i < |s[1..]| && s[1..][i].agentId == agent;
      assert s[i + 1].agentId == agent;
    }
  }

  lemma {:induction false} InsertNames(s: seq<LeaseConflict>, c: LeaseConflict, agent: string)
    ensures Names(InsertByAgent(s, c), agent) <==> Names(s, agent) || agent == c.agentId
    decreases |s|
  {
    var r := InsertByAgent(s, c);
    NamesCons(r, agent);
    if s == [] || StrLess(c.agentId, s[0].agentId) {
      assert r[1..] == s;
    } else {
      InsertNames(s[1..], c, agent);
      assert r[1..] == InsertByAgent(s[1..], c);
      NamesCons(s, agent);
    }
  }

  lemma {:induction false} InsertKeepsSorted(s: seq<LeaseConflict>, c: LeaseConflict)
    requires SortedByAgent(s) && !Names(s, c.agentId)
    ensures SortedByAgent(InsertByAgent(s, c))
    decreases |s|
  {
    hide StrLess;
    var r := InsertByAgent(s, c);
    if s == [] {
      assert r[1..] == [];
    } else if StrLess(c.agentId, s[0].agentId) {
      assert r[1..] == s;
      forall i | 0 <= i < |s| ensures StrLess(c.agentId, s[i].agentId) {
        if i > 0 {
          assert s[1..][i - 1] == s[i];
          StrLessIsTotalOrder(c.agentId, s[0].agentId, s[i].agentId);
        }
      }
    } else {
      NamesCons(s, c.agentId);
      InsertKeepsSorted(s[1..], c);
      var rest := InsertByAgent(s[1..], c);
      assert r[1..] == rest;
      forall i | 0 <= i < |rest| ensures StrLess(s[0].agentId, rest[i].agentId) {
        InsertNames(s[1..], c, rest[i].agentId);
        assert Names(rest, rest[i].agentId);
        StrLessIsTotalOrder(c.agentId, s[0].agentId, []);
        if rest[i].agentId != c.agentId {
          var j :| 0 <= j < |s[1..]| && s[1..][j].agentId == rest[i].agentId;
        }
      }
    }
  }

  /** The other agents' live leases on a section. */
  ghost predicate IsConflict(leases: Leases, key: LeaseKey, excluding: Option<string>, now: int, agent: string) {
    var k := key.(agentId := agent);
    k in leases && leases[k].expiresAt > now && excluding != Some(agent)
  }

  ghost predicate AreConflicts(s: seq<LeaseConflict>, leases: Leases, key: LeaseKey, excluding: Option<string>,
                               now: int) {
    && SortedByAgent(s)
    && (forall i :: 0 <= i < |s| ==> s[i].sectionId == key.sectionId)
    && forall agent :: Names(s, agent) <==> IsConflict(leases, key, excluding, now, agent)
  }

  /** A lease outlives every event before its end that is not about it. */
  lemma {:induction false} LeaseSurvives(st: State, key: LeaseKey, events: seq<Event>)
    requires Mirrors(st) && key in st.leases
    requires forall i :: 0 <= i < |events| ==> FitsU32(events[i])
    requires forall i :: 0 <= i < |events| ==> events[i].now < st.leases[key].expiresAt && !About(events[i], key)
    ensures Mirrors(Run(st, events))
    ensures key in Run(st, events).leases && Run(st, events).leases[key] == st.leases[key]
    decreases |events|
  {
    hide RowOf;
    if events != [] {
      var before, e := Run(st, events[..|events| - 1]), events[|events| - 1];
      LeaseSurvives(st, key, events[..|events| - 1]);
      StepMirrors(before, e);
      assert !About(e, key) && e.now < before.leases[key].expiresAt;
      if e.Activity? && e.key in Pruned(before, e.now).leases {
        assert before.leases[e.key].key == e.key;
      }
    }
  }

  predicate About(e: Event, key: LeaseKey) {
    match e
    case Claim(claim, _) => claim.key == key
    case Activity(k, _) => k == key
    case Prune(_) => false
  }

  // ----- The store -----

  /** The database connection: one table of leases. */
  class Table {
    var rows: Rows

    constructor (rows: Rows)
      ensures this.rows == rows
    {
      this.rows := rows;
    }

    method DeleteExpired(now: int)
      modifies this
      ensures rows == LiveRows(old(rows), now)
    {
      rows := LiveRows(rows, now);
    }

    /** Inserts a row or replaces the one with its key. */
    method Upsert(lease: SectionLease)
      modifies this
      ensures rows == old(rows)[lease.key := RowOf(lease)]
    {
      rows := rows[lease.key := RowOf(lease)];
    }
  }

  class LeaseStore {
    var leases: Leases

    constructor ()
      ensures leases == map[]
    {
      leases := map[];
    }

    ghost function View(table: Table): State
      reads this, table
    {
      State(leases, table.rows)
    }

    method PruneExpired(table: Table, now: int) returns (removed: nat)
      modifies this, table
      ensures View(table) == Step(old(View(table)), Prune(now))
      ensures removed == |old(leases)| - |leases|
    {
      var before := |leases|;
      LiveIsSmaller(leases, now);
      leases := Live(leases, now);
      removed := before - |leases|;
      table.DeleteExpired(now);
    }

    /** Reads every row that has not expired into memory, or fails on one that cannot be read. */
    method LoadFromTable(table: Table, now: int) returns (r: Option<LeaseError>)
      requires leases == map[]
      modifies this
      ensures r.None? <==> Readable(table.rows, now)
      ensures r.None? ==> leases == Loaded(table.rows, now)
    {
      var rest := set k | k in table.rows && table.rows[k].expiresAt > now;
      ghost var all := rest;
      while rest != {}
        invariant rest <= all && table.rows == old(table.rows)
        invariant forall k :: k in all && k !in rest ==> LeaseOf(k, table.rows[k]).Some?
        invariant leases.Keys == all - rest
        invariant forall k :: k in leases ==> Some(leases[k]) == LeaseOf(k, table.rows[k])
        decreases rest
      {
        ghost var some := Pick(rest);
        var k :| k in rest;
        var lease := LeaseOf(k, table.rows[k]);
        if lease.None? {
          return Some(InvalidRow);
        }
        leases := leases[k := lease.value];
        rest := rest - {k};
      }
      r := None;
    }

    /** Drops expired rows and loads the others. */
    static method Open(table: Table, now: int) returns (r: Option<LeaseError>, store: LeaseStore)
      modifies table
      ensures fresh(store)
      ensures table.rows == LiveRows(old(table.rows), now)
      ensures r.None? <==> Readable(old(table.rows), now)
      ensures r.None? ==> store.View(table) == Opened(old(table.rows), now)
    {
      store := new LeaseStore();
      var _ := store.PruneExpired(table, now);
      assert store.leases == map[];
      LiveRowsSameReadable(old(table.rows), now);
      r := store.LoadFromTable(table, now);
    }

    /** Agents other than the excluded one with a live lease on the section, by name. */
    method ConflictsForSection(key: LeaseKey, excluding: Option<string>, now: int)
      returns (conflicts: seq<LeaseConflict>)
      requires WellKeyed(leases)
      ensures AreConflicts(conflicts, leases, key, excluding, now)
    {
      conflicts := [];
      var rest := leases.Keys;
      while rest != {}
        invariant rest <= leases.Keys
        invariant SortedByAgent(conflicts)
        invariant forall i :: 0 <= i < |conflicts| ==> conflicts[i].sectionId == key.sectionId
        invariant forall agent :: Names(conflicts, agent) <==>
                                  IsConflict(leases, key, excluding, now, agent) && key.(agentId := agent) !in rest
        decreases rest
      {
        ghost var some := Pick(rest);
        var k :| k in rest;
        var lease := leases[k];
        if lease.key.workspaceId == key.workspaceId && lease.key.docId == key.docId
           && lease.key.sectionId == key.sectionId && lease.expiresAt > now && excluding != Some(lease.key.agentId) {
          var c := LeaseConflict(lease.key.agentId, lease.key.sectionId);
          assert key.(agentId := k.agentId) == k;
          InsertKeepsSorted(conflicts, c);
          InsertSection(conflicts, c);
          forall agent
            ensures Names(InsertByAgent(conflicts, c), agent) <==> Names(conflicts, agent) || agent == c.agentId
          {
            InsertNames(conflicts, c, agent);
          }
          conflicts := InsertByAgent(conflicts, c);
        }
        rest := rest - {k};
      }
    }

    /** Claims or refreshes a lease and reports who else holds one on the section. */
    method ClaimLease(table: Table, claim: LeaseClaim, now: int)
      returns (r: Result<SectionLease, LeaseError>, conflicts: seq<LeaseConflict>)
      requires WellKeyed(leases)
      modifies this, table
      ensures View(table) == Step(old(View(table)), Claim(claim, now))
      ensures claim.ttlSec <= U32_MAX && Mirrors(old(View(table))) ==> Mirrors(View(table))
      ensures r == if claim.ttlSec == 0 then Err(ZeroTtl) else Ok(Claimed(claim, now))
      ensures claim.ttlSec > 0 ==> AreConflicts(conflicts, old(leases), claim.key, Some(claim.key.agentId), now)
    {
      ghost var before := View(table);
      if claim.ttlSec <= U32_MAX && Mirrors(before) { StepMirrors(before, Claim(claim, now)); }
      conflicts := [];
      if claim.ttlSec == 0 {
        return Err(ZeroTtl), conflicts;
      }
      var _ := PruneExpired(table, now);
      conflicts := ConflictsForSection(claim.key, Some(claim.key.agentId), now);
      PrunedConflicts(conflicts, old(leases), claim.key, Some(claim.key.agentId), now);
      var lease := SectionLease(claim.key, claim.ttlSec, claim.mode, claim.note, now + claim.ttlSec * NANOS_PER_SEC);
      table.Upsert(lease);
      leases := leases[lease.key := lease];
      r := Ok(lease);
    }

    /** Extends a live lease by another full time to live. */
    method RecordActivity(table: Table, key: LeaseKey, now: int) returns (r: Option<SectionLease>)
      requires WellKeyed(leases)
      modifies this, table
      ensures View(table) == Step(old(View(table)), Activity(key, now))
      ensures Mirrors(old(View(table))) ==> Mirrors(View(table))
      ensures r.Some? <==> key in old(leases) && old(leases[key].expiresAt) > now
      ensures r.Some? ==> r.value == Extended(old(leases[key]), now)
    {
      ghost var before := View(table);
      if Mirrors(before) { StepMirrors(before, Activity(key, now)); }
      var _ := PruneExpired(table, now);
      if key !in leases {
        return None;
      }
      var lease := leases[key].(expiresAt := now + leases[key].ttlSec * NANOS_PER_SEC);
      leases := leases[key := lease];
      table.Upsert(lease);
      r := Some(lease);
    }
  }

  lemma {:induction false} LiveIsSmaller(leases: Leases, now: int)
    ensures |Live(leases, now)| <= |leases|
  {
    SubsetIsSmaller(Live(leases, now).Keys, leases.Keys);
  }

  lemma {:induction false} SubsetIsSmaller(s: set<LeaseKey>, t: set<LeaseKey>)
    requires s <= t
    ensures |s| <= |t|
  {
    assert t == s + (t - s);
  }

  lemma {:induction false} LiveRowsSameReadable(rows: Rows, now: int)
    ensures Readable(LiveRows(rows, now), now) <==> Readable(rows, now)
    ensures Readable(rows, now) ==> Loaded(LiveRows(rows, now), now) == Loaded(rows, now)
  {
    var live := LiveRows(rows, now);
    assert forall k :: k in rows && rows[k].expiresAt > now ==> k in live && live[k] == rows[k];
  }

  lemma {:induction false} InsertSection(s: seq<LeaseConflict>, c: LeaseConflict)
    requires forall i :: 0 <= i < |s| ==> s[i].sectionId == c.sectionId
    ensures forall i :: 0 <= i < |InsertByAgent(s, c)| ==> InsertByAgent(s, c)[i].sectionId == c.sectionId
    decreases |s|
  {
    hide StrLess;
    if s != [] { InsertSection(s[1..], c); }
  }

  /** Pruning first does not change who conflicts. */
  lemma {:induction false} PrunedConflicts(s: seq<LeaseConflict>, leases: Leases, key: LeaseKey,
                                           excluding: Option<string>, now: int)
    requires AreConflicts(s, Live(leases, now), key, excluding, now)
    ensures AreConflicts(s, leases, key, excluding, now)
  {
    forall agent
      ensures IsConflict(leases, key, excluding, now, agent) <==>
              IsConflict(Live(leases, now), key, excluding, now, agent)
    {
    }
  }
}
