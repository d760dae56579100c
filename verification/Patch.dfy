/**
 Patch operations: byte-addressed inserts and deletes against the old text, how they
 are applied with a running offset, and when they describe a change.
 */
module Patch {
  import opened Utf8

  const U32: int := 0x1_0000_0000

  /** An operation on the old text; positions and lengths are in bytes. */
  datatype PatchOp = InsertOp(index: nat, text: string) | DeleteOp(index: nat, len: nat)

  /** The byte just past the old text an operation covers. */
  function EndOf(op: PatchOp): nat {
    if op.DeleteOp? then op.index + op.len else op.index
  }

  // ----- Applying -----

  /** The document while operations are applied, or the panic of a bad index. */
  datatype State = Panic | State(bytes: seq<byte>, offset: int)

  /** One turn of the applier's loop: the shifted index must be a u32 inside the text. */
  function ApplyOne(st: State, op: PatchOp): State {
    if st.Panic? then Panic
    else
      var target := op.index + st.offset;
      if !(0 <= target < U32 && target <= |st.bytes|) then Panic
      else
        match op
        case DeleteOp(_, len) =>
          if target + len > |st.bytes| then Panic
          else State(st.bytes[..target] + st.bytes[target + len..], st.offset - len)
        case InsertOp(_, text) =>
          State(st.bytes[..target] + Encode(text) + st.bytes[target..], st.offset + |Encode(text)| % U32)
  }

  function Run(st: State, ops: seq<PatchOp>): State {
    if ops == [] then st else ApplyOne(Run(st, ops[..|ops| - 1]), ops[|ops| - 1])
  }

  /** A shared text type addressed by byte offsets. */
  class YText {
    var bytes: seq<byte>

    constructor (text: string)
      ensures bytes == Encode(text)
    {
      bytes := Encode(text);
    }

    method RemoveRange(index: nat, len: nat)
      requires index + len <= |bytes|
      modifies this
      ensures bytes == old(bytes)[..index] + old(bytes)[index + len..]
    {
      bytes := bytes[..index] + bytes[index + len..];
    }

    method InsertAt(index: nat, text: string)
      requires index <= |bytes|
      modifies this
      ensures bytes == old(bytes)[..index] + Encode(text) + old(bytes)[index..]
    {
      bytes := bytes[..index] + Encode(text) + bytes[index..];
    }
  }

  lemma {:induction false} NothingRuns(st: State, ops: seq<PatchOp>)
    requires ops == []
    ensures Run(st, ops) == st
  {
  }

  lemma {:induction false} RunGoesOn(st: State, ops: seq<PatchOp>, i: nat)
    requires i < |ops|
    ensures Run(st, ops[..i + 1]) == ApplyOne(Run(st, ops[..i]), ops[i])
  {
    assert ops[..i + 1][..i] == ops[..i];
  }

  lemma {:induction false} RunNeedsEveryPrefix(st: State, ops: seq<PatchOp>, m: nat)
    requires m <= |ops| && Run(st, ops).State?
    ensures Run(st, ops[..m]).State?
    decreases |ops|
  {
    if m == |ops| {
      assert ops[..m] == ops;
    } else {
      RunNeedsEveryPrefix(st, ops[..|ops| - 1], m);
      assert ops[..|ops| - 1][..m] == ops[..m];
    }
  }

  /** Applies operations in place with a running offset, as long as none of them panics. */
  method ApplyPatchOps(ytext: YText, ops: seq<PatchOp>)
    requires Run(State(ytext.bytes, 0), ops).State?
    modifies ytext
    ensures ytext.bytes == Run(State(old(ytext.bytes), 0), ops).bytes
  {
    hide Run, Encode;
    ghost var start := State(ytext.bytes, 0);
    var offset: int := 0;
    NothingRuns(start, ops[..0]);
    for i := 0 to |ops|
      invariant Run(start, ops[..i]) == State(ytext.bytes, offset)
    {
      RunGoesOn(start, ops, i);
      RunNeedsEveryPrefix(start, ops, i + 1);
      var target := ops[i].index + offset;
      match ops[i]
      case DeleteOp(_, len) =>
        ytext.RemoveRange(target, len);
        offset := offset - len;
      case InsertOp(_, text) =>
        ytext.InsertAt(target, text);
        offset := offset + |Encode(text)| % U32;
    }
    assert ops[..|ops|] == ops;
  }

  // ----- What a list of operations describes -----

  /** Byte offset of character `p`. */
  function Off(s: string, p: nat): nat
    requires p <= |s|
  {
    |Encode(s[..p])|
  }

  lemma {:induction false} OffOfSlice(s: string, p: nat, q: nat)
    requires p <= q <= |s|
    ensures Off(s, q) == Off(s, p) + |Encode(s[p..q])| <= |Encode(s)|
    ensures p < q ==> Off(s, p) < Off(s, q)
  {
    EncodeSplits(s[..q], p);
    EncodeSplits(s, q);
    assert s[..q][..p] == s[..p] && s[..q][p..] == s[p..q];
    EncodeAtLeastLength(s[p..q]);
  }

  /** The part of both texts one operation accounts for, in characters. */
  datatype Span = Span(p0: nat, j0: nat, p1: nat, j1: nat)

  /** The operation deletes exactly old[p0..p1], or inserts exactly new[j0..j1] at p0. */
  ghost predicate Covers(op: PatchOp, s: Span, src: string, dst: string) {
    && s.p0 <= s.p1 <= |src| && s.j0 <= s.j1 <= |dst|
    && op.index == Off(src, s.p0)
    && match op
       case DeleteOp(_, len) => s.j0 == s.j1 && s.p0 < s.p1 && len == |Encode(src[s.p0..s.p1])|
       case InsertOp(_, text) => s.p0 == s.p1 && s.j0 < s.j1 && text == dst[s.j0..s.j1]
  }

  /** The texts agree between (p, j) and (p1, j1). */
  ghost predicate EqualRun(src: string, dst: string, p: nat, j: nat, p1: nat, j1: nat) {
    p <= p1 <= |src| && j <= j1 <= |dst| && p1 - p == j1 - j && src[p..p1] == dst[j..j1]
  }

  /** Where the first `m` spans end. */
  function After(spans: seq<Span>, m: nat): (nat, nat)
    requires m <= |spans|
  {
    if m == 0 then (0, 0) else (spans[m - 1].p1, spans[m - 1].j1)
  }

  ghost predicate RunBefore(spans: seq<Span>, m: nat, src: string, dst: string, p: nat, j: nat)
    requires m <= |spans|
  {
    var (q, k) := After(spans, m);
    EqualRun(src, dst, q, k, p, j)
  }

  /** Two neighbouring operations are kept apart by equal text or are of different kinds. */
  ghost predicate Separate(ops: seq<PatchOp>, spans: seq<Span>, m: nat)
    requires 0 < m < |ops| == |spans|
  {
    spans[m - 1].p1 == spans[m].p0 ==> ops[m - 1].InsertOp? != ops[m].InsertOp?
  }

  /**
   The operations, in order, account for both texts up to (p, j): each covers its
   span and the stretches between the spans are equal text.
   */
  ghost predicate Aligned(ops: seq<PatchOp>, spans: seq<Span>, src: string, dst: string, p: nat, j: nat) {
    && |ops| == |spans|
    && (forall m :: 0 <= m < |ops| ==> Covers(ops[m], spans[m], src, dst))
    && (forall m :: 0 <= m < |ops| ==> RunBefore(spans, m, src, dst, spans[m].p0, spans[m].j0))
    && (forall m :: 0 < m < |ops| ==> Separate(ops, spans, m))
    && RunBefore(spans, |spans|, src, dst, p, j)
  }

  /** The operations describe exactly the change from the old text to the new. */
  ghost predicate Describes(ops: seq<PatchOp>, src: string, dst: string) {
    exists spans :: Aligned(ops, spans, src, dst, |src|, |dst|)
  }

  /** The number of characters the spans delete and insert. */
  function Weight(spans: seq<Span>): int {
    if spans == [] then 0
    else
      var s := spans[|spans| - 1];
      Weight(spans[..|spans| - 1]) + (s.p1 - s.p0) + (s.j1 - s.j0)
  }

  /** The same, deleting and inserting `n` characters in all. */
  ghost predicate DescribesWith(ops: seq<PatchOp>, src: string, dst: string, n: int) {
    exists spans :: Aligned(ops, spans, src, dst, |src|, |dst|) && Weight(spans) == n
  }

  // ----- Consequences of alignment -----

  /** The document is the new text up to character j followed by the old text from character p. */
  ghost predicate InSync(st: State, src: string, dst: string, p: nat, j: nat) {
    && p <= |src| && j <= |dst|
    && st == State(Encode(dst[..j]) + Encode(src[p..]), Off(dst, j) - Off(src, p))
  }

  lemma {:induction false} EqualRunKeepsSync(st: State, src: string, dst: string, p: nat, j: nat, p1: nat, j1: nat)
    requires InSync(st, src, dst, p, j) && EqualRun(src, dst, p, j, p1, j1)
    ensures InSync(st, src, dst, p1, j1)
  {
    hide Encode;
    EncodeSplits(src[p..], p1 - p);
    assert src[p..][..p1 - p] == src[p..p1] && src[p..][p1 - p..] == src[p1..];
    EncodeSplits(dst[..j1], j);
    assert dst[..j1][..j] == dst[..j] && dst[..j1][j..] == dst[j..j1];
    OffOfSlice(src, p, p1);
  }

  lemma {:induction false} OpKeepsSync(st: State, op: PatchOp, s: Span, src: string, dst: string)
    requires |Encode(dst)| < U32
    requires InSync(st, src, dst, s.p0, s.j0) && Covers(op, s, src, dst)
    ensures InSync(ApplyOne(st, op), src, dst, s.p1, s.j1)
  {
    hide Encode;
    OffOfSlice(dst, s.j0, s.j1);
    OffOfSlice(src, s.p0, s.p1);
    EncodeSplits(src[s.p0..], s.p1 - s.p0);
    assert src[s.p0..][..s.p1 - s.p0] == src[s.p0..s.p1] && src[s.p0..][s.p1 - s.p0..] == src[s.p1..];
    EncodeSplits(dst[..s.j1], s.j0);
    assert dst[..s.j1][..s.j0] == dst[..s.j0] && dst[..s.j1][s.j0..] == dst[s.j0..s.j1];
  }

  lemma {:induction false} AlignedPrefix(ops: seq<PatchOp>, spans: seq<Span>, src: string, dst: string, p: nat,
                                         j: nat, m: nat)
    requires Aligned(ops, spans, src, dst, p, j) && m < |ops|
    ensures Aligned(ops[..m], spans[..m], src, dst, spans[m].p0, spans[m].j0)
  {
    hide Covers, EqualRun;
    forall i | 0 <= i < m ensures RunBefore(spans[..m], i, src, dst, spans[i].p0, spans[i].j0) {
      assert RunBefore(spans, i, src, dst, spans[i].p0, spans[i].j0);
    }
    forall i | 0 < i < m ensures Separate(ops[..m], spans[..m], i) {
      assert Separate(ops, spans, i);
    }
    assert RunBefore(spans, m, src, dst, spans[m].p0, spans[m].j0);
  }

  lemma {:induction false} StartsInSync(src: string, dst: string)
    ensures InSync(State(Encode(src), 0), src, dst, 0, 0)
  {
    assert src[0..] == src && src[..0] == [] && dst[..0] == [];
  }

  /** Applying aligned operations keeps the document in step with the alignment. */
  lemma {:induction false} AlignedRunsInSync(ops: seq<PatchOp>, spans: seq<Span>, src: string, dst: string, p: nat,
                                             j: nat)
    requires |Encode(dst)| < U32
    requires Aligned(ops, spans, src, dst, p, j)
    ensures InSync(Run(State(Encode(src), 0), ops), src, dst, p, j)
    decreases |ops|
  {
    hide Covers, EqualRun, ApplyOne, Encode;
    var start := State(Encode(src), 0);
    var (q, k) := After(spans, |spans|);
    if ops == [] {
      StartsInSync(src, dst);
    } else {
      var m := |ops| - 1;
      AlignedPrefix(ops, spans, src, dst, p, j, m);
      AlignedRunsInSync(ops[..m], spans[..m], src, dst, spans[m].p0, spans[m].j0);
      OpKeepsSync(Run(start, ops[..m]), ops[m], spans[m], src, dst);
    }
    EqualRunKeepsSync(Run(start, ops), src, dst, q, k, p, j);
  }

  /** Operations that describe a change turn the old bytes into the new bytes. */
  lemma {:induction false} DescribedChangeApplies(ops: seq<PatchOp>, src: string, dst: string)
    requires |Encode(dst)| < U32 && Describes(ops, src, dst)
    ensures Run(State(Encode(src), 0), ops) == State(Encode(dst), |Encode(dst)| - |Encode(src)|)
  {
    hide Aligned;
    var spans: seq<Span> :| Aligned(ops, spans, src, dst, |src|, |dst|);
    AlignedRunsInSync(ops, spans, src, dst, |src|, |dst|);
    assert src[|src|..] == [] && dst[..|dst|] == dst && src[..|src|] == src;
  }

  /**
   At every step the shifted index is the byte length of the new text produced so
   far, the text before it is already final and the text after it is still old.
   */
  lemma {:induction false} ShiftedIndexIsProducedLength(ops: seq<PatchOp>, src: string, dst: string, m: nat)
    requires |Encode(dst)| < U32 && Describes(ops, src, dst) && m < |ops|
    ensures exists p, j :: InSync(Run(State(Encode(src), 0), ops[..m]), src, dst, p, j)
                           && ops[m].index == Off(src, p)
                           && ops[m].index + Run(State(Encode(src), 0), ops[..m]).offset == Off(dst, j)
  {
    var spans: seq<Span> :| Aligned(ops, spans, src, dst, |src|, |dst|);
    AlignedPrefix(ops, spans, src, dst, |src|, |dst|, m);
    AlignedRunsInSync(ops[..m], spans[..m], src, dst, spans[m].p0, spans[m].j0);
    assert Covers(ops[m], spans[m], src, dst);
  }

  /** Neither operation could absorb the other. */
  predicate CannotMerge(a: PatchOp, b: PatchOp) {
    a.InsertOp? == b.InsertOp? ==> EndOf(a) != b.index
  }

  /** The operation does something, at character boundaries of the old text. */
  ghost predicate WellPlaced(op: PatchOp, src: string) {
    && Boundary(src, op.index) && Boundary(src, EndOf(op)) && EndOf(op) <= |Encode(src)|
    && (op.DeleteOp? ==> op.len > 0) && (op.InsertOp? ==> op.text != [])
  }

  /** The list is ordered and disjoint, and no neighbours could be merged. */
  ghost predicate Canonical(ops: seq<PatchOp>, src: string) {
    && (forall m :: 0 <= m < |ops| ==> WellPlaced(ops[m], src))
    && (forall m, n :: 0 <= m < n < |ops| ==> EndOf(ops[m]) <= ops[n].index)
    && (forall m :: 0 < m < |ops| ==> CannotMerge(ops[m - 1], ops[m]))
  }

  lemma {:induction false} CoverEnds(op: PatchOp, s: Span, src: string, dst: string)
    requires Covers(op, s, src, dst)
    ensures EndOf(op) == Off(src, s.p1) && WellPlaced(op, src)
  {
    OffOfSlice(src, s.p0, s.p1);
    OffOfSlice(src, s.p1, |src|);
    assert BoundaryAt(src, op.index, s.p0) && BoundaryAt(src, EndOf(op), s.p1);
  }

  /** Every span starts no earlier in the old text than the one before it ends. */
  ghost predicate Chained(spans: seq<Span>) {
    forall m :: 0 <= m < |spans| ==> After(spans, m).0 <= spans[m].p0 <= spans[m].p1
  }

  lemma {:induction false} AlignedIsChained(ops: seq<PatchOp>, spans: seq<Span>, src: string, dst: string, p: nat,
                                            j: nat)
    requires Aligned(ops, spans, src, dst, p, j)
    ensures Chained(spans)
  {
    hide Encode, Separate;
    forall m | 0 <= m < |spans| ensures After(spans, m).0 <= spans[m].p0 <= spans[m].p1 {
      assert Covers(ops[m], spans[m], src, dst);
      assert RunBefore(spans, m, src, dst, spans[m].p0, spans[m].j0);
    }
  }

  lemma {:induction false} SpansAreOrdered(spans: seq<Span>, m: nat, n: nat)
    requires Chained(spans) && m < n < |spans|
    ensures spans[m].p1 <= spans[n].p0
    decreases n
  {
    assert After(spans, n).0 <= spans[n].p0;
    if m < n - 1 {
      SpansAreOrdered(spans, m, n - 1);
      assert After(spans, n - 1).0 <= spans[n - 1].p1;
    }
  }

  /** Operations that describe a change are canonical. */
  lemma {:induction false} DescribedChangeIsCanonical(ops: seq<PatchOp>, src: string, dst: string)
    requires Describes(ops, src, dst)
    ensures Canonical(ops, src)
  {
    var spans: seq<Span> :| Aligned(ops, spans, src, dst, |src|, |dst|);
    AlignedIsChained(ops, spans, src, dst, |src|, |dst|);
    forall m | 0 <= m < |ops| ensures WellPlaced(ops[m], src) {
      CoverEnds(ops[m], spans[m], src, dst);
    }
    forall m, n | 0 <= m < n < |ops| ensures EndOf(ops[m]) <= ops[n].index {
      CoverEnds(ops[m], spans[m], src, dst);
      assert Covers(ops[n], spans[n], src, dst);
      SpansAreOrdered(spans, m, n);
      OffOfSlice(src, spans[m].p1, spans[n].p0);
    }
    forall m | 0 < m < |ops| ensures CannotMerge(ops[m - 1], ops[m]) {
      CoverEnds(ops[m - 1], spans[m - 1], src, dst);
      assert Covers(ops[m], spans[m], src, dst);
      assert Separate(ops, spans, m);
      SpansAreOrdered(spans, m - 1, m);
      OffOfSlice(src, spans[m - 1].p1, spans[m].p0);
    }
  }
}
