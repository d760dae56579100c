/** Coalescing an edit script into patch operations. */
module Coalesce {
  import opened Utf8
  import opened EditDistance
  import opened Patch

  /** Records the deletion of one character, growing the last operation where it adjoins. */
  function AddDelete(ops: seq<PatchOp>, oldIndex: nat, charLen: nat): seq<PatchOp> {
    if ops != [] && ops[|ops| - 1].DeleteOp? && EndOf(ops[|ops| - 1]) == oldIndex then
      ops[|ops| - 1 := DeleteOp(ops[|ops| - 1].index, ops[|ops| - 1].len + charLen)]
    else ops + [DeleteOp(oldIndex, charLen)]
  }

  /** Records the insertion of one character, growing the last operation where it adjoins. */
  function AddInsert(ops: seq<PatchOp>, oldIndex: nat, ch: char): seq<PatchOp> {
    if ops != [] && ops[|ops| - 1].InsertOp? && ops[|ops| - 1].index == oldIndex then
      ops[|ops| - 1 := InsertOp(oldIndex, ops[|ops| - 1].text + [ch])]
    else ops + [InsertOp(oldIndex, [ch])]
  }

  /** Equal offsets are equal characters. */
  lemma {:induction false} OffIsInjective(s: string, p: nat, q: nat)
    requires p <= |s| && q <= |s| && Off(s, p) == Off(s, q)
    ensures p == q
  {
    hide Off, Encode;
    if p < q { OffOfSlice(s, p, q); }
    if q < p { OffOfSlice(s, q, p); }
  }

  /** Equal text extends an alignment. */
  lemma {:induction false} AlignRun(ops: seq<PatchOp>, spans: seq<Span>, src: string, dst: string, p: nat, j: nat,
                                    p1: nat, j1: nat)
    requires Aligned(ops, spans, src, dst, p, j) && EqualRun(src, dst, p, j, p1, j1)
    ensures Aligned(ops, spans, src, dst, p1, j1)
  {
    hide Covers, Separate;
    var q, k := After(spans, |spans|).0, After(spans, |spans|).1;
    assert src[q..p1] == src[q..p] + src[p..p1];
    assert dst[k..j1] == dst[k..j] + dst[j..j1];
  }

  lemma {:induction false} AlignEqual(ops: seq<PatchOp>, spans: seq<Span>, src: string, dst: string, p: nat, j: nat)
    requires Aligned(ops, spans, src, dst, p, j)
    requires p < |src| && j < |dst| && src[p] == dst[j]
    ensures Aligned(ops, spans, src, dst, p + 1, j + 1)
  {
    hide Aligned;
    assert src[p..p + 1] == [src[p]] && dst[j..j + 1] == [dst[j]];
    AlignRun(ops, spans, src, dst, p, j, p + 1, j + 1);
  }

  /** Growing or adding the last operation to one that covers a span ending at (p1, j1). */
  lemma {:induction false} AlignLast(ops: seq<PatchOp>, spans: seq<Span>, src: string, dst: string, p: nat, j: nat,
                                     op: PatchOp, span: Span)
    requires Aligned(ops, spans, src, dst, p, j)
    requires Covers(op, span, src, dst) && span.p0 == p && span.j0 == j
    requires ops != [] && spans[|spans| - 1].p1 == p ==> ops[|ops| - 1].InsertOp? != op.InsertOp?
    ensures Aligned(ops + [op], spans + [span], src, dst, span.p1, span.j1)
  {
    hide Covers, EqualRun;
    var ops', spans' := ops + [op], spans + [span];
    forall m | 0 <= m < |ops'| ensures Covers(ops'[m], spans'[m], src, dst) {
      if m < |ops| { assert Covers(ops[m], spans[m], src, dst); }
    }
    forall m | 0 <= m < |ops'| ensures RunBefore(spans', m, src, dst, spans'[m].p0, spans'[m].j0) {
      if m < |ops| { assert RunBefore(spans, m, src, dst, spans[m].p0, spans[m].j0); }
    }
    forall m | 0 < m < |ops'| ensures Separate(ops', spans', m) {
      if m < |ops| { assert Separate(ops, spans, m); }
    }
    EmptyRun(op, span, src, dst);
  }

  lemma {:induction false} EmptyRun(op: PatchOp, s: Span, src: string, dst: string)
    requires Covers(op, s, src, dst)
    ensures EqualRun(src, dst, s.p1, s.j1, s.p1, s.j1)
  {
  }

  /** A last span that ends at p in the old text ends at j in the new. */
  lemma {:induction false} LastMeets(ops: seq<PatchOp>, spans: seq<Span>, src: string, dst: string, p: nat, j: nat)
    requires Aligned(ops, spans, src, dst, p, j) && ops != []
    ensures |ops| == |spans| && Covers(ops[|ops| - 1], spans[|spans| - 1], src, dst)
    ensures p <= |src| && j <= |dst| && spans[|spans| - 1].p1 <= p
    ensures spans[|spans| - 1].p1 == p ==> spans[|spans| - 1].j1 == j
    ensures EndOf(ops[|ops| - 1]) == Off(src, p) <==> spans[|spans| - 1].p1 == p
  {
    hide Separate, Encode;
    var s := spans[|spans| - 1];
    assert RunBefore(spans, |spans|, src, dst, p, j);
    CoverEnds(ops[|ops| - 1], s, src, dst);
    if EndOf(ops[|ops| - 1]) == Off(src, p) { OffIsInjective(src, s.p1, p); }
  }

  /** Replacing the last operation by one that starts where it started and covers more. */
  lemma {:induction false} AlignGrown(ops: seq<PatchOp>, spans: seq<Span>, src: string, dst: string, p: nat, j: nat,
                                      op: PatchOp, p1: nat, j1: nat)
    requires Aligned(ops, spans, src, dst, p, j) && ops != []
    requires op.InsertOp? == ops[|ops| - 1].InsertOp?
    requires var s := spans[|spans| - 1]; Covers(op, Span(s.p0, s.j0, p1, j1), src, dst)
    ensures Aligned(ops[|ops| - 1 := op],
                    spans[|spans| - 1 := Span(spans[|spans| - 1].p0, spans[|spans| - 1].j0, p1, j1)], src, dst, p1, j1)
  {
    hide Covers, EqualRun;
    var m := |ops| - 1;
    var span := Span(spans[m].p0, spans[m].j0, p1, j1);
    AlignedPrefix(ops, spans, src, dst, p, j, m);
    assert m > 0 ==> Separate(ops, spans, m);
    AlignLast(ops[..m], spans[..m], src, dst, span.p0, span.j0, op, span);
    assert ops[m := op] == ops[..m] + [op] && spans[m := span] == spans[..m] + [span];
  }

  lemma {:induction false} AlignDelete(ops: seq<PatchOp>, spans: seq<Span>, src: string, dst: string, p: nat, j: nat)
    returns (spans': seq<Span>)
    requires Aligned(ops, spans, src, dst, p, j) && p < |src| && j <= |dst|
    ensures Aligned(AddDelete(ops, Off(src, p), |EncodeChar(src[p])|), spans', src, dst, p + 1, j)
    ensures Weight(spans') == Weight(spans) + 1
  {
    hide Aligned, EncodeChar;
    EncodeOne(src[p]);
    assert src[p..p + 1] == [src[p]];
    if ops != [] { LastMeets(ops, spans, src, dst, p, j); }
    if ops != [] && ops[|ops| - 1].DeleteOp? && EndOf(ops[|ops| - 1]) == Off(src, p) {
      var s := spans[|spans| - 1];
      assert src[s.p0..p + 1] == src[s.p0..p] + [src[p]];
      EncodeConcat(src[s.p0..p], [src[p]]);
      AlignGrown(ops, spans, src, dst, p, j,
                 DeleteOp(ops[|ops| - 1].index, ops[|ops| - 1].len + |EncodeChar(src[p])|), p + 1, j);
      spans' := spans[|spans| - 1 := Span(s.p0, s.j0, p + 1, j)];
      assert spans'[..|spans| - 1] == spans[..|spans| - 1];
    } else {
      AlignLast(ops, spans, src, dst, p, j, DeleteOp(Off(src, p), |EncodeChar(src[p])|), Span(p, j, p + 1, j));
      spans' := spans + [Span(p, j, p + 1, j)];
      assert spans'[..|spans|] == spans;
    }
  }

  lemma {:induction false} AlignInsert(ops: seq<PatchOp>, spans: seq<Span>, src: string, dst: string, p: nat, j: nat)
    returns (spans': seq<Span>)
    requires Aligned(ops, spans, src, dst, p, j) && p <= |src| && j < |dst|
    ensures Aligned(AddInsert(ops, Off(src, p), dst[j]), spans', src, dst, p, j + 1)
    ensures Weight(spans') == Weight(spans) + 1
  {
    hide Aligned, Encode;
    assert dst[j..j + 1] == [dst[j]];
    if ops != [] { LastMeets(ops, spans, src, dst, p, j); }
    if ops != [] && ops[|ops| - 1].InsertOp? && ops[|ops| - 1].index == Off(src, p) {
      var s := spans[|spans| - 1];
      assert dst[s.j0..j + 1] == dst[s.j0..j] + [dst[j]];
      AlignGrown(ops, spans, src, dst, p, j, InsertOp(Off(src, p), ops[|ops| - 1].text + [dst[j]]), p, j + 1);
      spans' := spans[|spans| - 1 := Span(s.p0, s.j0, p, j + 1)];
      assert spans'[..|spans| - 1] == spans[..|spans| - 1];
    } else {
      AlignLast(ops, spans, src, dst, p, j, InsertOp(Off(src, p), [dst[j]]), Span(p, j, p, j + 1));
      spans' := spans + [Span(p, j, p, j + 1)];
      assert spans'[..|spans|] == spans;
    }
  }

  lemma {:induction false} ScriptPrefix<T>(edits: seq<Edit<T>>, i: nat)
    requires i <= |edits|
    ensures OldOf(edits[..i]) <= OldOf(edits) && NewOf(edits[..i]) <= NewOf(edits)
    decreases |edits|
  {
    if i == |edits| {
      assert edits[..i] == edits;
    } else {
      ScriptPrefix(edits[..|edits| - 1], i);
      assert edits[..|edits| - 1][..i] == edits[..i];
    }
  }

  /** One entry of a script, seen from the texts it turns into each other. */
  lemma {:induction false} ScriptStep<T>(edits: seq<Edit<T>>, i: nat)
    requires i < |edits|
    ensures var (p, j) := (|OldOf(edits[..i])|, |NewOf(edits[..i])|);
            && p <= |OldOf(edits)| && j <= |NewOf(edits)|
            && |OldOf(edits[..i + 1])| == (if edits[i].Insert? then p else p + 1)
            && |NewOf(edits[..i + 1])| == (if edits[i].Delete? then j else j + 1)
            && Cost(edits[..i + 1]) == Cost(edits[..i]) + (if edits[i].Equal? then 0 else 1)
            && (!edits[i].Insert? ==> p < |OldOf(edits)| && OldOf(edits)[p] == edits[i].item)
            && (!edits[i].Delete? ==> j < |NewOf(edits)| && NewOf(edits)[j] == edits[i].item)
  {
    ScriptPrefix(edits, i);
    ScriptPrefix(edits, i + 1);
    assert edits[..i + 1][..i] == edits[..i];
  }

  /** Turns an edit script into operations that describe exactly its change. */
  method EditsToPatchOps(edits: seq<Edit<char>>) returns (ops: seq<PatchOp>)
    ensures DescribesWith(ops, OldOf(edits), NewOf(edits), Cost(edits))
  {
    hide Aligned, Encode, EncodeChar, AddDelete, AddInsert;
    ghost var src, dst := OldOf(edits), NewOf(edits);
    ghost var spans: seq<Span> := [];
    ops := [];
    var oldIndex := 0;
    NothingIsAligned(src, dst);
    for i := 0 to |edits|
      invariant |OldOf(edits[..i])| <= |src| && oldIndex == Off(src, |OldOf(edits[..i])|)
      invariant Aligned(ops, spans, src, dst, |OldOf(edits[..i])|, |NewOf(edits[..i])|)
      invariant Weight(spans) == Cost(edits[..i])
    {
      ScriptStep(edits, i);
      ghost var p, j := |OldOf(edits[..i])|, |NewOf(edits[..i])|;
      match edits[i]
      case Equal(ch) =>
        AlignEqual(ops, spans, src, dst, p, j);
        OffStep(src, p);
        oldIndex := oldIndex + |EncodeChar(ch)|;
      case Delete(ch) =>
        spans := AlignDelete(ops, spans, src, dst, p, j);
        OffStep(src, p);
        ops := AddDelete(ops, oldIndex, |EncodeChar(ch)|);
        oldIndex := oldIndex + |EncodeChar(ch)|;
      case Insert(ch) =>
        spans := AlignInsert(ops, spans, src, dst, p, j);
        ops := AddInsert(ops, oldIndex, ch);
    }
    assert edits[..|edits|] == edits;
  }

  lemma {:induction false} NothingIsAligned(src: string, dst: string)
    ensures Aligned([], [], src, dst, 0, 0) && Off(src, 0) == 0
  {
    assert src[..0] == [];
  }

  lemma {:induction false} OffStep(s: string, p: nat)
    requires p < |s|
    ensures Off(s, p + 1) == Off(s, p) + |EncodeChar(s[p])|
  {
    hide EncodeChar;
    OffOfSlice(s, p, p + 1);
    EncodeOne(s[p]);
    assert s[p..p + 1] == [s[p]];
  }

  lemma {:induction false} EqualRunKeepsDist(src: string, dst: string, p: nat, j: nat, n: nat)
    requires p + n <= |src| && j + n <= |dst| && src[p..p + n] == dst[j..j + n]
    ensures Dist(src, dst, p + n, j + n) == Dist(src, dst, p, j)
  {
    if n > 0 {
      assert src[p..p + n][..n - 1] == src[p..p + n - 1] && dst[j..j + n][..n - 1] == dst[j..j + n - 1];
      EqualRunKeepsDist(src, dst, p, j, n - 1);
      assert src[p..p + n][n - 1] == dst[j..j + n][n - 1];
      DiagonalStep(src, dst, p + n - 1, j + n - 1);
    }
  }

  lemma {:induction false} SkipsCostDist(src: string, dst: string, p: nat, j: nat, m: nat, n: nat)
    ensures Dist(src, dst, p + m, j + n) <= Dist(src, dst, p, j) + m + n
    decreases m + n
  {
    if m > 0 {
      SkipsCostDist(src, dst, p, j, m - 1, n);
      NeighboursDifferByOne(src, dst, p + m - 1, j + n);
    } else if n > 0 {
      SkipsCostDist(src, dst, p, j, m, n - 1);
      NeighboursDifferByOne(src, dst, p + m, j + n - 1);
    }
  }

  lemma {:induction false} LastSpan(ops: seq<PatchOp>, spans: seq<Span>, src: string, dst: string, p: nat, j: nat)
    requires Aligned(ops, spans, src, dst, p, j)
    ensures |ops| == |spans| && EqualRun(src, dst, After(spans, |spans|).0, After(spans, |spans|).1, p, j)
    ensures ops != [] ==> var s := spans[|spans| - 1]; s.p0 <= s.p1 && s.j0 <= s.j1
  {
    hide Encode, Separate, EqualRun;
    assert RunBefore(spans, |spans|, src, dst, p, j);
    if ops != [] {
      assert Covers(ops[|ops| - 1], spans[|spans| - 1], src, dst);
    }
  }

  /** No list of operations describes a change while touching fewer characters than the distance. */
  lemma {:induction false} AlignedWeighsDist(ops: seq<PatchOp>, spans: seq<Span>, src: string, dst: string, p: nat,
                                             j: nat)
    requires Aligned(ops, spans, src, dst, p, j)
    ensures Dist(src, dst, p, j) <= Weight(spans)
    decreases |ops|
  {
    hide Aligned, Dist;
    var q, k := After(spans, |spans|).0, After(spans, |spans|).1;
    LastSpan(ops, spans, src, dst, p, j);
    EqualRunKeepsDist(src, dst, q, k, p - q);
    if ops == [] {
      DistanceBounds(src, dst, 0, 0);
    } else {
      var m := |ops| - 1;
      AlignedPrefix(ops, spans, src, dst, p, j, m);
      AlignedWeighsDist(ops[..m], spans[..m], src, dst, spans[m].p0, spans[m].j0);
      SkipsCostDist(src, dst, spans[m].p0, spans[m].j0, q - spans[m].p0, k - spans[m].j0);
    }
  }
}
