/** Runs of the lease store, judged by their events: who holds what, and until when. */
module LeaseRuns {
  import opened Base
  import opened Leases

  /** What is known of a lease: when it ends, and what it was claimed with. */
  datatype Hold = Hold(end: int, ttlSec: nat, mode: LeaseMode, note: Option<string>)

  function Unexpired(h: Option<Hold>, now: int): Option<Hold> {
    if h.Some? && h.value.end > now then h else None
  }

  /** What a run makes of the lease under a key; times are in nanoseconds. */
  function Holding(start: Option<Hold>, events: seq<Event>, key: LeaseKey): Option<Hold> {
    if events == [] then start
    else
      var h := Holding(start, events[..|events| - 1], key);
      match events[|events| - 1]
      case Claim(c, now) =>
        if c.ttlSec == 0 then h
        else if c.key == key then Some(Hold(now + c.ttlSec * 1_000_000_000, c.ttlSec, c.mode, c.note))
        else Unexpired(h, now)
      case Activity(k, now) =>
        var u := Unexpired(h, now);
        if k == key && u.Some? then Some(u.value.(end := now + u.value.ttlSec * 1_000_000_000)) else u
      case Prune(now) => Unexpired(h, now)
  }

  function HoldOf(leases: Leases, key: LeaseKey): Option<Hold> {
    if key in leases then
      var l := leases[key];
      Some(Hold(l.expiresAt, l.ttlSec, l.mode, l.note))
    else None
  }

  ghost predicate OwnKeys(leases: Leases) {
    forall k :: k in leases ==> leases[k].key == k
  }

  lemma {:induction false} StepHolds(st: State, e: Event, key: LeaseKey)
    requires OwnKeys(st.leases)
    ensures OwnKeys(Step(st, e).leases)
    ensures HoldOf(Step(st, e).leases, key) == Holding(HoldOf(st.leases, key), [e], key)
  {
    hide RowOf;
    var h := HoldOf(st.leases, key);
    assert Holding(h, [e][..0], key) == h;
    assert HoldOf(Live(st.leases, e.now), key) == Unexpired(h, e.now);
  }

  /** In every run the lease under a key is what the events about it and the clock leave of it. */
  lemma {:induction false} RunsHold(st: State, events: seq<Event>, key: LeaseKey)
    requires OwnKeys(st.leases)
    ensures OwnKeys(Run(st, events).leases)
    ensures HoldOf(Run(st, events).leases, key) == Holding(HoldOf(st.leases, key), events, key)
    decreases |events|
  {
    hide Step, OwnKeys, HoldOf;
    if events != [] {
      var init, e := events[..|events| - 1], events[|events| - 1];
      RunsHold(st, init, key);
      StepHolds(Run(st, init), e, key);
      assert [e][..0] == [] && Holding(HoldOf(Run(st, init).leases, key), [e][..0], key)
                               == HoldOf(Run(st, init).leases, key);
    }
  }

  // ----- How long a lease lasts -----

  predicate LiveAt(st: State, key: LeaseKey, time: int) {
    key in st.leases && st.leases[key].expiresAt > time
  }

  /** No event is about the key, and none is later than the time. */
  ghost predicate Quiet(events: seq<Event>, key: LeaseKey, time: int) {
    forall i :: 0 <= i < |events| ==> !About(events[i], key) && events[i].now <= time
  }

  lemma {:induction false} HoldingWhenQuiet(h: Hold, events: seq<Event>, key: LeaseKey, time: int)
    requires Quiet(events, key, time)
    ensures Holding(Some(h), events, key) == Some(h) || (Holding(Some(h), events, key) == None && h.end <= time)
    decreases |events|
  {
    if events != [] { HoldingWhenQuiet(h, events[..|events| - 1], key, time); }
  }

  lemma {:induction false} LastsUntilEnd(st: State, events: seq<Event>, key: LeaseKey, time: int)
    requires OwnKeys(st.leases) && key in st.leases && Quiet(events, key, time)
    ensures LiveAt(Run(st, events), key, time) <==> time < st.leases[key].expiresAt
  {
    hide Run, Holding, Quiet, OwnKeys;
    RunsHold(st, events, key);
    HoldingWhenQuiet(HoldOf(st.leases, key).value, events, key, time);
  }

  /**
   A lease that saw activity at t and has n seconds to live is live, whatever happens to
   other leases, at every later time before t plus n seconds and at none from then on.
   */
  lemma {:induction false} ActivityLasts(st: State, key: LeaseKey, t: int, events: seq<Event>, time: int)
    requires OwnKeys(st.leases) && LiveAt(st, key, t) && Quiet(events, key, time)
    ensures LiveAt(Run(Step(st, Activity(key, t)), events), key, time) <==>
            time < t + st.leases[key].ttlSec * 1_000_000_000
  {
    hide Run, Quiet;
    StepHolds(st, Activity(key, t), key);
    LastsUntilEnd(Step(st, Activity(key, t)), events, key, time);
  }

  /** So is a claimed lease, from its claim on. */
  lemma {:induction false} ClaimLasts(st: State, claim: LeaseClaim, t: int, events: seq<Event>, time: int)
    requires OwnKeys(st.leases) && claim.ttlSec > 0 && Quiet(events, claim.key, time)
    ensures LiveAt(Run(Step(st, Claim(claim, t)), events), claim.key, time) <==>
            time < t + claim.ttlSec * 1_000_000_000
  {
    hide Run, Quiet;
    StepHolds(st, Claim(claim, t), claim.key);
    LastsUntilEnd(Step(st, Claim(claim, t)), events, claim.key, time);
  }

  /** After any run an agent is in conflict exactly if the events leave it a lease on the section that has not ended. */
  lemma {:induction false} ConflictsFollowEvents(st: State, events: seq<Event>, key: LeaseKey,
                                                 excluding: Option<string>, now: int, agent: string)
    requires OwnKeys(st.leases)
    ensures var k := key.(agentId := agent);
            IsConflict(Run(st, events).leases, key, excluding, now, agent) <==>
            excluding != Some(agent) && Unexpired(Holding(HoldOf(st.leases, k), events, k), now).Some?
  {
    hide Run, Holding, OwnKeys;
    RunsHold(st, events, key.(agentId := agent));
  }
}
