/**
 Edit scripts and the edit distance between two sequences.

 The distance is defined on the unbounded grid: a point may lie past the end of either
 sequence, where nothing matches. Inside the rectangle this is the usual
 insert/delete distance between prefixes. The unbounded form is what a greedy
 diagonal search computes, because such a search may step past either end.
 */
module EditDistance {
  import opened Base

  /** One entry of an edit script, in the order of both texts. */
  datatype Edit<T> = Equal(item: T) | Insert(item: T) | Delete(item: T)

  /** The sequence a script starts from. */
  function OldOf<T>(edits: seq<Edit<T>>): seq<T> {
    if edits == [] then []
    else
      var last := edits[|edits| - 1];
      OldOf(edits[..|edits| - 1]) + (if last.Insert? then [] else [last.item])
  }

  /** The sequence a script leads to. */
  function NewOf<T>(edits: seq<Edit<T>>): seq<T> {
    if edits == [] then []
    else
      var last := edits[|edits| - 1];
      NewOf(edits[..|edits| - 1]) + (if last.Delete? then [] else [last.item])
  }

  /** The items a script keeps. */
  function KeptOf<T>(edits: seq<Edit<T>>): seq<T> {
    if edits == [] then []
    else
      var last := edits[|edits| - 1];
      KeptOf(edits[..|edits| - 1]) + (if last.Equal? then [last.item] else [])
  }

  /** The number of insertions plus deletions. */
  function Cost<T>(edits: seq<Edit<T>>): nat {
    if edits == [] then 0
    else Cost(edits[..|edits| - 1]) + (if edits[|edits| - 1].Equal? then 0 else 1)
  }

  /** A script that turns `a` into `b`. */
  ghost predicate IsScript<T>(edits: seq<Edit<T>>, a: seq<T>, b: seq<T>) {
    OldOf(edits) == a && NewOf(edits) == b
  }

  predicate Match<T(==)>(a: seq<T>, b: seq<T>, x: int, y: int) {
    0 <= x < |a| && 0 <= y < |b| && a[x] == b[y]
  }

  /** The distance from the origin to (x, y). */
  ghost function Dist<T>(a: seq<T>, b: seq<T>, x: nat, y: nat): nat
    decreases x + y
  {
    if x == 0 then y
    else if y == 0 then x
    else if Match(a, b, x - 1, y - 1) then Dist(a, b, x - 1, y - 1)
    else 1 + Min(Dist(a, b, x - 1, y), Dist(a, b, x, y - 1))
  }

  /** Horizontal and vertical neighbours differ by exactly one. */
  lemma {:induction false} NeighboursDifferByOne<T>(a: seq<T>, b: seq<T>, x: nat, y: nat)
    ensures Dist(a, b, x + 1, y) == Dist(a, b, x, y) + 1 || Dist(a, b, x + 1, y) == Dist(a, b, x, y) - 1
    ensures Dist(a, b, x, y + 1) == Dist(a, b, x, y) + 1 || Dist(a, b, x, y + 1) == Dist(a, b, x, y) - 1
    decreases x + y
  {
    if y > 0 { NeighboursDifferByOne(a, b, x, y - 1); }
    if x > 0 { NeighboursDifferByOne(a, b, x - 1, y); }
  }

  /** A diagonal step keeps the distance or adds two; over a match it keeps it. */
  lemma {:induction false} DiagonalStep<T>(a: seq<T>, b: seq<T>, x: nat, y: nat)
    ensures Dist(a, b, x + 1, y + 1) == Dist(a, b, x, y) || Dist(a, b, x + 1, y + 1) == Dist(a, b, x, y) + 2
    ensures Match(a, b, x, y) ==> Dist(a, b, x + 1, y + 1) == Dist(a, b, x, y)
  {
    NeighboursDifferByOne(a, b, x, y);
  }

  lemma {:induction false} DiagonalMonotone<T>(a: seq<T>, b: seq<T>, x: nat, y: nat, n: nat)
    ensures Dist(a, b, x, y) <= Dist(a, b, x + n, y + n)
  {
    if n > 0 {
      DiagonalMonotone(a, b, x, y, n - 1);
      DiagonalStep(a, b, x + n - 1, y + n - 1);
    }
  }

  /** The distance is at least the width of its diagonal and at most x + y. */
  lemma {:induction false} DistanceBounds<T>(a: seq<T>, b: seq<T>, x: nat, y: nat)
    ensures x - y <= Dist(a, b, x, y) && y - x <= Dist(a, b, x, y) <= x + y
    decreases x + y
  {
    if x > 0 && y > 0 {
      DistanceBounds(a, b, x - 1, y - 1);
      DistanceBounds(a, b, x - 1, y);
      DistanceBounds(a, b, x, y - 1);
    }
  }

  /** The distance has the parity of its diagonal. */
  lemma {:induction false} DistanceParity<T>(a: seq<T>, b: seq<T>, x: nat, y: nat)
    ensures exists h :: Dist(a, b, x, y) + x - y == 2 * h
    decreases x + y
  {
    if x == 0 {
      assert Dist(a, b, x, y) + x - y == 2 * 0;
    } else {
      DistanceParity(a, b, x - 1, y);
      var h :| Dist(a, b, x - 1, y) + (x - 1) - y == 2 * h;
      NeighboursDifferByOne(a, b, x - 1, y);
      assert Dist(a, b, x, y) + x - y == 2 * h || Dist(a, b, x, y) + x - y == 2 * (h + 1);
    }
  }

  /** Past the end of `b`, every further row costs exactly one. */
  lemma {:induction false} PastNewEnd<T>(a: seq<T>, b: seq<T>, x: nat, y: nat)
    requires y >= |b|
    ensures Dist(a, b, x, y) == Dist(a, b, x, |b|) + (y - |b|)
    decreases x + y
  {
    if y > |b| {
      PastNewEnd(a, b, x, y - 1);
      if x > 0 {
        PastNewEnd(a, b, x - 1, y);
        NeighboursDifferByOne(a, b, x - 1, |b|);
      }
    }
  }

  /** Past the end of `a`, every further column costs exactly one. */
  lemma {:induction false} PastOldEnd<T>(a: seq<T>, b: seq<T>, x: nat, y: nat)
    requires x >= |a|
    ensures Dist(a, b, x, y) == Dist(a, b, |a|, y) + (x - |a|)
    decreases x + y
  {
    if x > |a| {
      PastOldEnd(a, b, x - 1, y);
      if y > 0 {
        PastOldEnd(a, b, x, y - 1);
        NeighboursDifferByOne(a, b, |a|, y - 1);
      }
    }
  }

  /** Beyond the far corner the distance grows by the overrun on both axes. */
  lemma {:induction false} PastCorner<T>(a: seq<T>, b: seq<T>, x: nat, y: nat)
    requires x >= |a| && y >= |b|
    ensures Dist(a, b, x, y) == Dist(a, b, |a|, |b|) + (x - |a|) + (y - |b|)
  {
    PastOldEnd(a, b, x, y);
    PastNewEnd(a, b, |a|, y);
  }

  /** No script between prefixes is cheaper than the distance. */
  lemma {:induction false} ScriptCostsAtLeastDist<T>(a: seq<T>, b: seq<T>, x: nat, y: nat, edits: seq<Edit<T>>)
    requires x <= |a| && y <= |b|
    requires IsScript(edits, a[..x], b[..y])
    ensures Dist(a, b, x, y) <= Cost(edits)
    decreases |edits|
  {
    if edits != [] {
      var init, last := edits[..|edits| - 1], edits[|edits| - 1];
      var ox := if last.Insert? then x else x - 1;
      var ny := if last.Delete? then y else y - 1;
      assert OldOf(init) == a[..x][..|OldOf(init)|] == a[..ox];
      assert NewOf(init) == b[..y][..|NewOf(init)|] == b[..ny];
      ScriptCostsAtLeastDist(a, b, ox, ny, init);
      match last
      case Equal(c) =>
        assert a[..x][x - 1] == c && b[..y][y - 1] == c;
        DiagonalStep(a, b, x - 1, y - 1);
      case Insert(_) => NeighboursDifferByOne(a, b, x, y - 1);
      case Delete(_) => NeighboursDifferByOne(a, b, x - 1, y);
    }
  }

  /** `c` arises from `s` by dropping items. */
  ghost predicate Subsequence<T>(c: seq<T>, s: seq<T>) {
    c == [] ||
    (s != [] &&
     (Subsequence(c, s[..|s| - 1]) ||
      (c[|c| - 1] == s[|s| - 1] && Subsequence(c[..|c| - 1], s[..|s| - 1]))))
  }

  ghost predicate CommonSubsequence<T>(c: seq<T>, a: seq<T>, b: seq<T>) {
    Subsequence(c, a) && Subsequence(c, b)
  }

  /** A common subsequence of two prefixes bounds their distance from above. */
  lemma {:induction false} CommonSubsequenceBound<T>(a: seq<T>, b: seq<T>, x: nat, y: nat, c: seq<T>)
    requires x <= |a| && y <= |b|
    requires CommonSubsequence(c, a[..x], b[..y])
    ensures Dist(a, b, x, y) <= x + y - 2 * |c|
    decreases x + y
  {
    if c == [] {
      DistanceBounds(a, b, x, y);
    } else {
      assert a[..x][..x - 1] == a[..x - 1] && b[..y][..y - 1] == b[..y - 1];
      if Subsequence(c, a[..x - 1]) {
        CommonSubsequenceBound(a, b, x - 1, y, c);
        NeighboursDifferByOne(a, b, x - 1, y);
      } else if Subsequence(c, b[..y - 1]) {
        CommonSubsequenceBound(a, b, x, y - 1, c);
        NeighboursDifferByOne(a, b, x, y - 1);
      } else {
        CommonSubsequenceBound(a, b, x - 1, y - 1, c[..|c| - 1]);
        DiagonalStep(a, b, x - 1, y - 1);
      }
    }
  }

  /** What a script keeps is common to both sides, and its length is fixed by the cost. */
  lemma {:induction false} KeptIsCommon<T>(edits: seq<Edit<T>>)
    ensures CommonSubsequence(KeptOf(edits), OldOf(edits), NewOf(edits))
    ensures Cost(edits) == |OldOf(edits)| + |NewOf(edits)| - 2 * |KeptOf(edits)|
  {
    if edits != [] {
      var init, last := edits[..|edits| - 1], edits[|edits| - 1];
      KeptIsCommon(init);
      var o, n, c := OldOf(edits), NewOf(edits), KeptOf(edits);
      if !last.Insert? { assert o[..|o| - 1] == OldOf(init); }
      if !last.Delete? { assert n[..|n| - 1] == NewOf(init); }
      if last.Equal? { assert c[..|c| - 1] == KeptOf(init); } else { assert c == KeptOf(init); }
      assert last.Insert? ==> o == OldOf(init);
      assert last.Delete? ==> n == NewOf(init);
    }
  }

  /**
   A script whose cost is the distance is a cheapest script, and what it keeps is a
   longest common subsequence.
   */
  lemma {:induction false} OptimalScript<T>(a: seq<T>, b: seq<T>, best: seq<Edit<T>>, other: seq<Edit<T>>, c: seq<T>)
    requires IsScript(best, a, b) && Cost(best) == Dist(a, b, |a|, |b|)
    ensures IsScript(other, a, b) ==> Cost(best) <= Cost(other)
    ensures CommonSubsequence(c, a, b) ==> |c| <= |KeptOf(best)|
    ensures CommonSubsequence(KeptOf(best), a, b)
    ensures Cost(best) == |a| + |b| - 2 * |KeptOf(best)|
  {
    assert a[..|a|] == a && b[..|b|] == b;
    if IsScript(other, a, b) { ScriptCostsAtLeastDist(a, b, |a|, |b|, other); }
    if CommonSubsequence(c, a, b) { CommonSubsequenceBound(a, b, |a|, |b|, c); }
    KeptIsCommon(best);
  }
}
