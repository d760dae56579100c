/**
 The greedy diagonal search of the diff engine and its backtracker, over any
 element type; the repository instantiates it for characters and for lines.

 Diagonal k holds the points (x, x - k). Round d computes, for every diagonal of
 d's parity within distance d, the furthest point at distance d from the origin.
 */
module Myers {
  import opened EditDistance

  /** Entry of the diagonal buffer for diagonal `k`. */
  function At(v: seq<int>, offset: nat, k: int): int
    requires 0 <= k + offset < |v|
  {
    v[k + offset]
  }

  /** (x, x - k) is the last point of diagonal `k` at distance `d`. */
  ghost predicate Furthest<T>(a: seq<T>, b: seq<T>, d: int, k: int, x: int) {
    && 0 <= x && 0 <= x - k
    && Dist(a, b, x, x - k) == d
    && Dist(a, b, x + 1, x + 1 - k) == d + 2
  }

  /** The buffer holds the result of round `d` on every diagonal of that round. */
  ghost predicate Round<T>(a: seq<T>, b: seq<T>, v: seq<int>, offset: nat, d: int) {
    RoundBelow(a, b, v, offset, d, d + 1)
  }

  /** The same, for the diagonals of round `d` that lie below `bound`. */
  ghost predicate RoundBelow<T>(a: seq<T>, b: seq<T>, v: seq<int>, offset: nat, d: int, bound: int) {
    && d <= offset && |v| == 2 * offset + 1
    && forall k :: -d <= k <= d && k < bound && (k + d) % 2 == 0 ==> Furthest(a, b, d, k, At(v, offset, k))
  }

  /** The diagonal step from (x, x - k) is over a match. */
  predicate MatchOn<T(==)>(a: seq<T>, b: seq<T>, k: int, x: int) {
    Match(a, b, x, x - k)
  }

  /** Diagonal `k` is a run of matches from column `s` up to column `x`. */
  ghost predicate MatchRun<T>(a: seq<T>, b: seq<T>, k: int, s: int, x: int) {
    forall i :: s <= i < x ==> MatchOn(a, b, k, i)
  }

  /** Points up to a furthest point are within its distance; later ones are not. */
  lemma {:induction false} FurthestSeparates<T>(a: seq<T>, b: seq<T>, d: int, k: int, x: int, i: int)
    requires Furthest(a, b, d, k, x)
    requires 0 <= i && 0 <= i - k
    ensures i <= x ==> Dist(a, b, i, i - k) <= d
    ensures i > x ==> Dist(a, b, i, i - k) >= d + 2
  {
    if i <= x {
      DiagonalMonotone(a, b, i, i - k, x - i);
    } else {
      DiagonalMonotone(a, b, x + 1, x + 1 - k, i - x - 1);
    }
  }

  /**
   What the search knows of the two neighbouring diagonals when it reaches diagonal
   `k` in round `d`: `lo` on k - 1 and `hi` on k + 1, where they exist.
   */
  ghost predicate Neighbours<T>(a: seq<T>, b: seq<T>, d: int, k: int, lo: int, hi: int) {
    && 0 <= d && -d <= k <= d
    && (d == 0 ==> hi == 0)
    && (k > -d ==> Furthest(a, b, d - 1, k - 1, lo))
    && (d > 0 && k < d ==> Furthest(a, b, d - 1, k + 1, hi))
  }

  /** The branch both directions take: down from k + 1, or right from k - 1. */
  predicate ComesDown(d: int, k: int, lo: int, hi: int) {
    k == -d || (k != d && lo < hi)
  }

  /** Where round `d` enters diagonal `k`. */
  function Start(d: int, k: int, lo: int, hi: int): int {
    if ComesDown(d, k, lo, hi) then hi else lo + 1
  }

  /** The entry point lies on the grid and within distance `d`. */
  lemma {:induction false} StartIsNear<T>(a: seq<T>, b: seq<T>, d: int, k: int, lo: int, hi: int)
    requires Neighbours(a, b, d, k, lo, hi)
    ensures var s := Start(d, k, lo, hi); 0 <= s && 0 <= s - k && Dist(a, b, s, s - k) <= d
  {
    if d > 0 {
      var s := Start(d, k, lo, hi);
      if ComesDown(d, k, lo, hi) {
        NeighboursDifferByOne(a, b, s, s - k - 1);
      } else {
        NeighboursDifferByOne(a, b, s - 1, s - k);
      }
    }
  }

  /** From the entry point on, a mismatch on the diagonal leads past distance `d`. */
  lemma {:induction false} MismatchLeavesRound<T>(a: seq<T>, b: seq<T>, d: int, k: int, lo: int, hi: int, i: int)
    requires Neighbours(a, b, d, k, lo, hi)
    requires i >= Start(d, k, lo, hi) && 0 <= i && 0 <= i - k
    requires !MatchOn(a, b, k, i)
    ensures Dist(a, b, i + 1, i + 1 - k) >= d + 2
  {
    if k > -d {
      FurthestSeparates(a, b, d - 1, k - 1, lo, i);
    } else {
      DistanceBounds(a, b, i, i + 1 - k);
    }
    if d > 0 && k < d {
      FurthestSeparates(a, b, d - 1, k + 1, hi, i + 1);
    } else {
      DistanceBounds(a, b, i + 1, i - k);
    }
  }

  lemma {:induction false} MatchesKeepDistance<T>(a: seq<T>, b: seq<T>, k: int, s: int, x: int)
    requires 0 <= s <= x && 0 <= s - k
    requires MatchRun(a, b, k, s, x)
    ensures Dist(a, b, x, x - k) == Dist(a, b, s, s - k)
    decreases x - s
  {
    if s < x {
      MatchesKeepDistance(a, b, k, s, x - 1);
      assert MatchOn(a, b, k, x - 1);
      DiagonalStep(a, b, x - 1, x - 1 - k);
    }
  }

  /** Sliding along matches from the entry point reaches the furthest point of the round. */
  lemma {:induction false} SlideReachesFurthest<T>(a: seq<T>, b: seq<T>, d: int, k: int, lo: int, hi: int, x: int)
    requires Neighbours(a, b, d, k, lo, hi)
    requires x >= Start(d, k, lo, hi)
    requires MatchRun(a, b, k, Start(d, k, lo, hi), x)
    requires !MatchOn(a, b, k, x)
    ensures Furthest(a, b, d, k, x)
  {
    StartIsNear(a, b, d, k, lo, hi);
    MatchesKeepDistance(a, b, k, Start(d, k, lo, hi), x);
    MismatchLeavesRound(a, b, d, k, lo, hi, x);
    DiagonalStep(a, b, x, x - k);
  }

  /**
   Conversely, the furthest point of a round is reached from the entry point by
   matches alone, so a backtracker that makes the same branch choice retraces them.
   */
  lemma {:induction false} FurthestIsReachedBySlide<T>(a: seq<T>, b: seq<T>, d: int, k: int, lo: int, hi: int, x: int)
    requires Neighbours(a, b, d, k, lo, hi)
    requires Furthest(a, b, d, k, x)
    ensures 0 <= Start(d, k, lo, hi) <= x && 0 <= Start(d, k, lo, hi) - k
    ensures MatchRun(a, b, k, Start(d, k, lo, hi), x)
  {
    var s := Start(d, k, lo, hi);
    StartIsNear(a, b, d, k, lo, hi);
    if s > x { FurthestSeparates(a, b, d, k, x, s); }
    forall i | s <= i < x ensures MatchOn(a, b, k, i) {
      if !MatchOn(a, b, k, i) {
        MismatchLeavesRound(a, b, d, k, lo, hi, i);
        FurthestSeparates(a, b, d, k, x, i + 1);
      }
    }
  }

  /**
   The end test may fire at a point past either end, but while the distance of the
   far corner has not been passed it fires only at the corner, in the round of its
   distance.
   */
  lemma {:induction false} EndTestFiresAtCorner<T>(a: seq<T>, b: seq<T>, d: int, k: int, x: int)
    requires Furthest(a, b, d, k, x)
    requires x >= |a| && x - k >= |b|
    requires d <= Dist(a, b, |a|, |b|)
    ensures x == |a| && x - k == |b| && d == Dist(a, b, |a|, |b|)
  {
    PastCorner(a, b, x, x - k);
  }

  /** A round that ends without firing has not reached the corner's distance. */
  lemma {:induction false} EndTestMustFire<T>(a: seq<T>, b: seq<T>, v: seq<int>, offset: nat, d: int)
    requires 0 <= d && Round(a, b, v, offset, d)
    requires d <= Dist(a, b, |a|, |b|)
    requires NoneAtEnd(a, b, v, offset, d, d + 1)
    ensures d < Dist(a, b, |a|, |b|)
  {
    var k := |a| - |b|;
    DistanceBounds(a, b, |a|, |b|);
    DistanceParity(a, b, |a|, |b|);
    if d == Dist(a, b, |a|, |b|) {
      assert (k + d) % 2 == 0;
      FurthestSeparates(a, b, d, k, At(v, offset, k), |a|);
    }
  }

  /** Follows a run of matches. */
  method Slide<T(==)>(a: seq<T>, b: seq<T>, x0: int, y0: int) returns (x: int, y: int)
    requires 0 <= x0 && 0 <= y0
    ensures x0 <= x && x - y == x0 - y0
    ensures MatchRun(a, b, x0 - y0, x0, x)
    ensures !Match(a, b, x, y)
  {
    x, y := x0, y0;
    while x < |a| && y < |b| && a[x] == b[y]
      invariant x0 <= x && x - y == x0 - y0
      invariant MatchRun(a, b, x0 - y0, x0, x)
    {
      x, y := x + 1, y + 1;
    }
  }

  /** What the forward search hands to the backtracker. */
  ghost predicate IsTrace<T>(a: seq<T>, b: seq<T>, trace: seq<seq<int>>, solved: nat) {
    && solved == Dist(a, b, |a|, |b|)
    && |trace| == solved + 1
    && forall d :: 1 <= d <= solved ==> Round(a, b, trace[d], |a| + |b|, d - 1)
  }

  /** The value of the diagonal below `k` that round `d` reads, if there is one. */
  ghost function Lo(v: seq<int>, offset: nat, d: int, k: int): int
    requires 0 <= d <= offset && -d <= k <= d && |v| == 2 * offset + 1
  {
    if k > -d then At(v, offset, k - 1) else 0
  }

  /** The value of the diagonal above `k` that round `d` reads, if there is one. */
  ghost function Hi(v: seq<int>, offset: nat, d: int, k: int): int
    requires 0 < offset && 0 <= d <= offset && -d <= k <= d && |v| == 2 * offset + 1
  {
    if k < d || d == 0 then At(v, offset, k + 1) else 0
  }

  /** What round `d` needs of the buffer: the round before it, or the initial zero. */
  ghost predicate Ready<T>(a: seq<T>, b: seq<T>, v: seq<int>, offset: nat, d: int) {
    && 0 < offset && 0 <= d <= offset && |v| == 2 * offset + 1
    && (d == 0 ==> At(v, offset, 1) == 0)
    && (d > 0 ==> Round(a, b, v, offset, d - 1))
  }

  lemma {:induction false} ReadyNeighbours<T>(a: seq<T>, b: seq<T>, v: seq<int>, offset: nat, d: int, k: int)
    requires Ready(a, b, v, offset, d) && -d <= k <= d && (k + d) % 2 == 0
    ensures Neighbours(a, b, d, k, Lo(v, offset, d, k), Hi(v, offset, d, k))
  {
  }

  /** No diagonal of the buffer below `bound` has passed both ends. */
  ghost predicate NoneAtEnd<T>(a: seq<T>, b: seq<T>, v: seq<int>, offset: nat, d: int, bound: int)
    requires d <= offset && |v| == 2 * offset + 1
  {
    forall k :: -d <= k <= d && k < bound && (k + d) % 2 == 0 ==> At(v, offset, k) < |a| || At(v, offset, k) - k < |b|
  }

  /** The state of round `d` when its loop reaches diagonal `k`. */
  ghost predicate InRound<T>(a: seq<T>, b: seq<T>, v: seq<int>, offset: nat, d: int, k: int) {
    && -d <= k && (k + d) % 2 == 0 && 0 < offset && d <= offset && |v| == 2 * offset + 1
    && (k <= d ==> Ready(a, b, v, offset, d))
    && RoundBelow(a, b, v, offset, d, k)
    && NoneAtEnd(a, b, v, offset, d, k)
  }

  lemma {:induction false} WriteCompletesDiagonal<T>(a: seq<T>, b: seq<T>, v: seq<int>, offset: nat, d: int, k: int,
                                                     x: int)
    requires 0 <= d <= offset && -d <= k <= d && (k + d) % 2 == 0
    requires RoundBelow(a, b, v, offset, d, k) && NoneAtEnd(a, b, v, offset, d, k)
    requires Furthest(a, b, d, k, x) && (x < |a| || x - k < |b|)
    ensures RoundBelow(a, b, v[k + offset := x], offset, d, k + 2)
    ensures NoneAtEnd(a, b, v[k + offset := x], offset, d, k + 2)
  {
    var w := v[k + offset := x];
    forall j | -d <= j <= d && j < k + 2 && (j + d) % 2 == 0
      ensures Furthest(a, b, d, j, At(w, offset, j)) && (At(w, offset, j) < |a| || At(w, offset, j) - j < |b|)
    {
      assert j == k || At(w, offset, j) == At(v, offset, j);
    }
  }

  lemma {:induction false} WriteKeepsPreviousRound<T>(a: seq<T>, b: seq<T>, v: seq<int>, offset: nat, d: int, k: int,
                                                      x: int)
    requires Ready(a, b, v, offset, d) && -d <= k <= d && (k + d) % 2 == 0
    ensures Ready(a, b, v[k + offset := x], offset, d)
  {
    var w := v[k + offset := x];
    if d > 0 {
      forall j | -(d - 1) <= j <= d - 1 && (j + d - 1) % 2 == 0
        ensures Furthest(a, b, d - 1, j, At(w, offset, j))
      {
        assert At(w, offset, j) == At(v, offset, j);
      }
    }
  }

  /**
   One step of a round: the two parities do not share cells of the buffer, so
   writing diagonal `k` completes it and disturbs nothing the round still reads.
   */
  lemma {:induction false} RoundStep<T>(a: seq<T>, b: seq<T>, v: seq<int>, offset: nat, d: int, k: int, x: int)
    requires InRound(a, b, v, offset, d, k) && k <= d <= Dist(a, b, |a|, |b|)
    requires var s := Start(d, k, Lo(v, offset, d, k), Hi(v, offset, d, k)); s <= x && MatchRun(a, b, k, s, x)
    requires !MatchOn(a, b, k, x)
    ensures Furthest(a, b, d, k, x)
    ensures x >= |a| && x - k >= |b| ==> x == |a| && x - k == |b| && d == Dist(a, b, |a|, |b|)
    ensures !(x >= |a| && x - k >= |b|) ==> InRound(a, b, v[k + offset := x], offset, d, k + 2)
  {
    ReadyNeighbours(a, b, v, offset, d, k);
    SlideReachesFurthest(a, b, d, k, Lo(v, offset, d, k), Hi(v, offset, d, k), x);
    if x >= |a| && x - k >= |b| {
      EndTestFiresAtCorner(a, b, d, k, x);
    } else {
      WriteCompletesDiagonal(a, b, v, offset, d, k, x);
      WriteKeepsPreviousRound(a, b, v, offset, d, k, x);
    }
  }

  /**
   One round of the forward search, in place on the diagonal buffer: it either meets
   the far corner, in the round of its distance, or completes the round.
   */
  method RunRound<T(==)>(a: seq<T>, b: seq<T>, v: array<int>, offset: nat, d: int) returns (hit: bool)
    requires v.Length == 2 * offset + 1 && Ready(a, b, v[..], offset, d)
    requires d <= Dist(a, b, |a|, |b|)
    modifies v
    ensures hit <==> d == Dist(a, b, |a|, |b|)
    ensures !hit ==> Round(a, b, v[..], offset, d)
  {
    hide Dist;
    var k := -d;
    while k <= d
      invariant k <= d + 2 && InRound(a, b, v[..], offset, d, k)
    {
      ghost var before := v[..];
      ReadyNeighbours(a, b, before, offset, d, k);
      StartIsNear(a, b, d, k, Lo(before, offset, d, k), Hi(before, offset, d, k));
      var x := if k == -d || (k != d && v[k - 1 + offset] < v[k + 1 + offset])
      then v[k + 1 + offset] else v[k - 1 + offset] + 1;
      var y := x - k;
      x, y := Slide(a, b, x, y);
      RoundStep(a, b, before, offset, d, k, x);
      v[k + offset] := x;
      if x >= |a| && y >= |b| {
        return true;
      }
      assert v[..] == before[k + offset := x];
      k := k + 2;
    }
    EndTestMustFire(a, b, v[..], offset, d);
    return false;
  }

  /**
   The forward search. It stops in the round of the distance between the two
   sequences, and each saved copy of the buffer is the complete result of the
   round before it.
   */
  method Search<T(==)>(a: seq<T>, b: seq<T>) returns (trace: seq<seq<int>>, solved: nat)
    requires a != [] && b != []
    ensures IsTrace(a, b, trace, solved)
  {
    var max := |a| + |b|;
    var offset := max;
    var v := new int[2 * max + 1](_ => 0);
    trace := [];
    solved := 0;
    DistanceBounds(a, b, |a|, |b|);
    for d := 0 to max + 1
      invariant |trace| == d && d <= Dist(a, b, |a|, |b|)
      invariant Ready(a, b, v[..], offset, d)
      invariant forall e :: 1 <= e < d ==> Round(a, b, trace[e], offset, e - 1)
    {
      trace := trace + [v[..]];
      var hit := RunRound(a, b, v, offset, d);
      if hit {
        return trace, d;
      }
    }
    assert false;
  }

  /** The far corner ends its diagonal's run in the last round. */
  lemma {:induction false} CornerIsFurthest<T>(a: seq<T>, b: seq<T>)
    ensures Furthest(a, b, Dist(a, b, |a|, |b|), |a| - |b|, |a|)
  {
    PastCorner(a, b, |a| + 1, |b| + 1);
  }

  function Reversed<T>(s: seq<T>): (r: seq<T>) {
    if s == [] then [] else [s[|s| - 1]] + Reversed(s[..|s| - 1])
  }

  lemma {:induction false} OldOfCons<T>(e: Edit<T>, edits: seq<Edit<T>>)
    ensures OldOf([e] + edits) == (if e.Insert? then [] else [e.item]) + OldOf(edits)
  {
    var all := [e] + edits;
    if edits == [] {
      assert all[..0] == [];
    } else {
      OldOfCons(e, edits[..|edits| - 1]);
      assert all[..|all| - 1] == [e] + edits[..|edits| - 1];
    }
  }

  lemma {:induction false} NewOfCons<T>(e: Edit<T>, edits: seq<Edit<T>>)
    ensures NewOf([e] + edits) == (if e.Delete? then [] else [e.item]) + NewOf(edits)
  {
    var all := [e] + edits;
    if edits == [] {
      assert all[..0] == [];
    } else {
      NewOfCons(e, edits[..|edits| - 1]);
      assert all[..|all| - 1] == [e] + edits[..|edits| - 1];
    }
  }

  lemma {:induction false} CostOfCons<T>(e: Edit<T>, edits: seq<Edit<T>>)
    ensures Cost([e] + edits) == (if e.Equal? then 0 else 1) + Cost(edits)
  {
    var all := [e] + edits;
    if edits == [] {
      assert all[..0] == [];
    } else {
      CostOfCons(e, edits[..|edits| - 1]);
      assert all[..|all| - 1] == [e] + edits[..|edits| - 1];
    }
  }

  /** The entries pushed so far, read backwards, turn a[x..] into b[y..] at the given cost. */
  ghost predicate Spelled<T>(pushed: seq<Edit<T>>, a: seq<T>, b: seq<T>, x: int, y: int, cost: int) {
    && 0 <= x <= |a| && 0 <= y <= |b|
    && IsScript(Reversed(pushed), a[x..], b[y..]) && Cost(Reversed(pushed)) == cost
  }

  /** Pushing one entry extends what has been spelled by that entry's step. */
  lemma {:induction false} PushSpells<T>(pushed: seq<Edit<T>>, e: Edit<T>, a: seq<T>, b: seq<T>, x: int, y: int,
                                         cost: int)
    requires Spelled(pushed, a, b, x, y, cost)
    requires e.Insert? || (x > 0 && e.item == a[x - 1])
    requires e.Delete? || (y > 0 && e.item == b[y - 1])
    ensures Spelled(pushed + [e], a, b, if e.Insert? then x else x - 1, if e.Delete? then y else y - 1,
                    if e.Equal? then cost else cost + 1)
  {
    hide OldOf, NewOf, Cost;
    assert (pushed + [e])[..|pushed|] == pushed;
    OldOfCons(e, Reversed(pushed));
    NewOfCons(e, Reversed(pushed));
    CostOfCons(e, Reversed(pushed));
  }

  /** Retraces a run of matches back to column `s`, pushing an Equal entry for each. */
  method Unslide<T(==)>(a: seq<T>, b: seq<T>, pushed: seq<Edit<T>>, x0: int, y0: int, prevX: int, prevY: int,
                        ghost s: int, ghost cost: int)
    returns (edits: seq<Edit<T>>, x: int, y: int)
    requires Spelled(pushed, a, b, x0, y0, cost)
    requires prevX <= s <= x0 && prevY <= s - (x0 - y0) && (s == prevX || s - (x0 - y0) == prevY)
    requires MatchRun(a, b, x0 - y0, s, x0)
    ensures Spelled(edits, a, b, x, y, cost)
    ensures x == s && y == s - (x0 - y0)
  {
    edits, x, y := pushed, x0, y0;
    while x > prevX && y > prevY
      invariant s <= x <= x0 && x - y == x0 - y0
      invariant Spelled(edits, a, b, x, y, cost)
    {
      assert MatchOn(a, b, x0 - y0, x - 1);
      PushSpells(edits, Equal(a[x - 1]), a, b, x, y, cost);
      edits := edits + [Equal(a[x - 1])];
      x, y := x - 1, y - 1;
    }
  }

  /** Where round `d` came from when it entered diagonal `k`. */
  ghost function PreviousDiagonal(v: seq<int>, offset: nat, d: int, k: int): int
    requires 0 < d <= offset && -d <= k <= d && |v| == 2 * offset + 1
  {
    if ComesDown(d, k, Lo(v, offset, d, k), Hi(v, offset, d, k)) then k + 1 else k - 1
  }

  /** The saved buffer of round `d` leads from its furthest point back to one of round d - 1. */
  lemma {:induction false} BackStep<T>(a: seq<T>, b: seq<T>, v: seq<int>, offset: nat, d: int, x: int, y: int)
    returns (prevK: int, prevX: int, s: int)
    requires 0 < d <= offset && Furthest(a, b, d, x - y, x) && Round(a, b, v, offset, d - 1)
    ensures -d <= x - y <= d
    ensures prevK == PreviousDiagonal(v, offset, d, x - y) && prevX == At(v, offset, prevK)
    ensures Furthest(a, b, d - 1, prevK, prevX)
    ensures s == (if prevK == x - y + 1 then prevX else prevX + 1)
    ensures 0 <= prevX && 0 <= prevX - prevK && s <= x && MatchRun(a, b, x - y, s, x)
  {
    DistanceBounds(a, b, x, y);
    DistanceParity(a, b, x, y);
    var k := x - y;
    ReadyNeighbours(a, b, v, offset, d, k);
    FurthestIsReachedBySlide(a, b, d, k, Lo(v, offset, d, k), Hi(v, offset, d, k), x);
    prevK := PreviousDiagonal(v, offset, d, k);
    prevX := At(v, offset, prevK);
    s := if prevK == k + 1 then prevX else prevX + 1;
  }

  /** Repeats the branch choice of the forward search on its saved buffer. */
  method ChooseBranch(v: seq<int>, offset: nat, d: int, k: int) returns (prevK: int, prevX: int)
    requires 0 < d <= offset && -d <= k <= d && |v| == 2 * offset + 1
    ensures prevK == PreviousDiagonal(v, offset, d, k) && prevX == At(v, offset, prevK)
  {
    prevK := if k == -d || (k != d && v[k - 1 + offset] < v[k + 1 + offset]) then k + 1 else k - 1;
    prevX := v[prevK + offset];
  }

  /** One backward round: a run of matches, then the insertion or deletion of round `d`. */
  method BackRound<T(==)>(a: seq<T>, b: seq<T>, v: seq<int>, offset: nat, d: int,
                          before: seq<Edit<T>>, x0: int, y0: int, ghost cost: int)
    returns (pushed: seq<Edit<T>>, x: int, y: int)
    requires 0 < d <= offset && Furthest(a, b, d, x0 - y0, x0) && Round(a, b, v, offset, d - 1)
    requires Spelled(before, a, b, x0, y0, cost)
    ensures Furthest(a, b, d - 1, x - y, x)
    ensures Spelled(pushed, a, b, x, y, cost + 1)
  {
    var k := x0 - y0;
    ghost var gk, gx, s := BackStep(a, b, v, offset, d, x0, y0);
    var prevK, prevX := ChooseBranch(v, offset, d, k);
    var prevY := prevX - prevK;
    pushed, x, y := Unslide(a, b, before, x0, y0, prevX, prevY, s, cost);
    if x == prevX {
      PushSpells(pushed, Insert(b[y - 1]), a, b, x, y, cost);
      pushed := pushed + [Insert(b[y - 1])];
      y := y - 1;
    } else {
      PushSpells(pushed, Delete(a[x - 1]), a, b, x, y, cost);
      pushed := pushed + [Delete(a[x - 1])];
      x := x - 1;
    }
  }

  /**
   The backtracker. From the far corner it walks the trace down to the origin,
   spelling both sequences and spending one insertion or deletion per round.
   */
  method Backtrack<T(==)>(a: seq<T>, b: seq<T>, trace: seq<seq<int>>, solved: nat, offset: nat)
    returns (edits: seq<Edit<T>>)
    requires IsTrace(a, b, trace, solved) && offset == |a| + |b|
    ensures IsScript(edits, a, b) && Cost(edits) == solved
  {
    hide Dist;
    var x, y := |a|, |b|;
    var pushed: seq<Edit<T>> := [];
    CornerIsFurthest(a, b);
    DistanceBounds(a, b, |a|, |b|);
    var d: int := solved;
    while d > 0
      invariant 0 <= d <= solved
      invariant Furthest(a, b, d, x - y, x)
      invariant Spelled(pushed, a, b, x, y, solved - d)
    {
      pushed, x, y := BackRound(a, b, trace[d], offset, d, pushed, x, y, solved - d);
      d := d - 1;
    }
    DistanceBounds(a, b, x, y);
    FurthestIsReachedBySlide(a, b, 0, 0, 0, 0, x);
    pushed, x, y := Unslide(a, b, pushed, x, y, 0, 0, 0, solved);
    edits := Reversed(pushed);
  }

  function AllInserts<T>(s: seq<T>): (r: seq<Edit<T>>)
    ensures IsScript(r, [], s) && Cost(r) == |s|
  {
    if s == [] then [] else
    var r := AllInserts(s[..|s| - 1]) + [Insert(s[|s| - 1])];
    assert r[..|r| - 1] == AllInserts(s[..|s| - 1]);
    r
  }

  function AllDeletes<T>(s: seq<T>): (r: seq<Edit<T>>)
    ensures IsScript(r, s, []) && Cost(r) == |s|
  {
    if s == [] then [] else
    var r := AllDeletes(s[..|s| - 1]) + [Delete(s[|s| - 1])];
    assert r[..|r| - 1] == AllDeletes(s[..|s| - 1]);
    r
  }

  /** The diff: a script between the two sequences whose cost is their distance. */
  method Edits<T(==)>(a: seq<T>, b: seq<T>) returns (edits: seq<Edit<T>>)
    ensures IsScript(edits, a, b)
    ensures Cost(edits) == Dist(a, b, |a|, |b|)
  {
    if a == [] {
      edits := AllInserts(b);
    } else if b == [] {
      edits := AllDeletes(a);
    } else {
      var trace, solved := Search(a, b);
      edits := Backtrack(a, b, trace, solved, |a| + |b|);
    }
  }
}
