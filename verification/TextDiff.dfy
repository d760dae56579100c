/**
 The diff engine: character diff for small texts, line diff refined by a character
 diff for large ones, and the application of the result to the shared text.
 */
module TextDiff {
  import opened Utf8
  import opened EditDistance
  import opened Patch
  import Myers
  import Coalesce

  /** Total bytes below which texts are diffed by character directly. */
  const LINE_DIFF_THRESHOLD := 8_000

  function Flatten(lines: seq<string>): string {
    if lines == [] then [] else Flatten(lines[..|lines| - 1]) + lines[|lines| - 1]
  }

  lemma {:induction false} FlattenCons(line: string, lines: seq<string>)
    ensures Flatten([line] + lines) == line + Flatten(lines)
  {
    var all := [line] + lines;
    if lines != [] {
      FlattenCons(line, lines[..|lines| - 1]);
      assert all[..|all| - 1] == [line] + lines[..|lines| - 1];
    }
  }

  /** The number of characters up to and including the first line break. */
  function FirstLine(s: string): (n: nat)
    ensures n <= |s| && (s != [] ==> n > 0)
    ensures forall i :: 0 <= i < n - 1 ==> s[i] != '\n'
    ensures n < |s| ==> s[n - 1] == '\n'
  {
    if s == [] then 0 else if s[0] == '\n' then 1 else 1 + FirstLine(s[1..])
  }

  /** A line, with its line break unless it is the last one. */
  predicate IsLine(line: string) {
    line != [] && forall i :: 0 <= i < |line| - 1 ==> line[i] != '\n'
  }

  predicate EndsInBreak(line: string) {
    line != [] && line[|line| - 1] == '\n'
  }

  function SplitInclusive(s: string): (lines: seq<string>)
    ensures Flatten(lines) == s
    ensures forall i :: 0 <= i < |lines| ==> IsLine(lines[i])
    ensures forall i :: 0 <= i < |lines| - 1 ==> EndsInBreak(lines[i])
  {
    if s == [] then []
    else
      var n := FirstLine(s);
      var rest := SplitInclusive(s[n..]);
      FlattenCons(s[..n], rest);
      assert s[..n] + s[n..] == s;
      [s[..n]] + rest
  }

  // ----- Operations on a region of the texts -----

  /** Moves operations by a number of bytes. */
  function Shifted(ops: seq<PatchOp>, base: nat): (r: seq<PatchOp>)
    ensures |r| == |ops|
  {
    if ops == [] then []
    else
      var op := ops[|ops| - 1];
      Shifted(ops[..|ops| - 1], base) + [ShiftedOp(op, base)]
  }

  function ShiftedOp(op: PatchOp, base: nat): PatchOp {
    match op
    case InsertOp(index, text) => InsertOp(base + index, text)
    case DeleteOp(index, len) => DeleteOp(base + index, len)
  }

  function ShiftedSpan(s: Span, p: nat, j: nat): Span {
    Span(p + s.p0, j + s.j0, p + s.p1, j + s.j1)
  }

  /** `part` is the text of `s` from character `p` on. */
  ghost predicate Window(s: string, p: nat, part: string) {
    p + |part| <= |s| && s[p..p + |part|] == part
  }

  lemma {:induction false} SliceOfSlice<T>(s: seq<T>, a: nat, b: nat, i: nat, k: nat)
    requires a <= b <= |s| && i <= k <= b - a
    ensures s[a..b][i..k] == s[a + i..a + k]
  {
    forall t | 0 <= t < k - i ensures s[a..b][i..k][t] == s[a + i..a + k][t] {
      assert s[a..b][i + t] == s[a + i + t];
    }
  }

  lemma {:induction false} WindowSlice(s: string, p: nat, part: string, i: nat, k: nat)
    requires Window(s, p, part) && i <= k <= |part|
    ensures p + k <= |s| && s[p + i..p + k] == part[i..k]
    ensures Off(s, p + i) == Off(s, p) + Off(part, i)
  {
    hide Encode;
    SliceOfSlice(s, p, p + |part|, i, k);
    SliceOfSlice(s, p, p + |part|, 0, i);
    OffOfSlice(s, p, p + i);
  }

  lemma {:induction false} CoversShifted(op: PatchOp, s: Span, src: string, dst: string,
                                         p: nat, j: nat, po: string, pn: string)
    requires Window(src, p, po) && Window(dst, j, pn)
    requires Covers(op, s, po, pn)
    ensures Covers(ShiftedOp(op, Off(src, p)), ShiftedSpan(s, p, j), src, dst)
  {
    hide Encode, Off;
    WindowSlice(src, p, po, s.p0, s.p1);
    WindowSlice(dst, j, pn, s.j0, s.j1);
  }

  lemma {:induction false} RunShifted(subspans: seq<Span>, src: string, dst: string,
                                      p: nat, j: nat, po: string, pn: string, p1: nat, j1: nat)
    requires Window(src, p, po) && Window(dst, j, pn)
    requires RunBefore(subspans, |subspans|, po, pn, p1, j1)
    ensures var (q, k) := After(subspans, |subspans|);
            q <= p1 && k <= j1 && EqualRun(src, dst, p + q, j + k, p + p1, j + j1)
  {
    hide Off;
    var (q, k) := After(subspans, |subspans|);
    WindowSlice(src, p, po, q, p1);
    WindowSlice(dst, j, pn, k, j1);
  }

  lemma {:induction false} SpliceLast(ops: seq<PatchOp>, spans: seq<Span>, src: string, dst: string, p: nat, j: nat,
                                      op: PatchOp, span: Span, po: string, pn: string)
    requires Window(src, p, po) && Window(dst, j, pn) && Covers(op, span, po, pn)
    requires Aligned(ops, spans, src, dst, p + span.p0, j + span.j0)
    requires ops != [] && spans[|spans| - 1].p1 == p + span.p0 ==> ops[|ops| - 1].InsertOp? != op.InsertOp?
    ensures Aligned(ops + [ShiftedOp(op, Off(src, p))], spans + [ShiftedSpan(span, p, j)], src, dst,
                    p + span.p1, j + span.j1)
  {
    hide Covers, Aligned, Off;
    CoversShifted(op, span, src, dst, p, j, po, pn);
    Coalesce.AlignLast(ops, spans, src, dst, p + span.p0, j + span.j0,
                       ShiftedOp(op, Off(src, p)), ShiftedSpan(span, p, j));
  }

  /** What an alignment says about its end and its last operation. */
  lemma {:induction false} AlignedParts(ops: seq<PatchOp>, spans: seq<Span>, src: string, dst: string, p: nat, j: nat)
    requires Aligned(ops, spans, src, dst, p, j)
    ensures |ops| == |spans| && RunBefore(spans, |spans|, src, dst, p, j)
    ensures ops != [] ==> Covers(ops[|ops| - 1], spans[|ops| - 1], src, dst)
    ensures |ops| > 1 ==> Separate(ops, spans, |ops| - 1)
  {
    hide Covers, RunBefore, Separate;
  }

  lemma {:induction false} WeightOfSnoc(spans: seq<Span>, s: Span)
    ensures Weight(spans + [s]) == Weight(spans) + (s.p1 - s.p0) + (s.j1 - s.j0)
  {
    assert (spans + [s])[..|spans|] == spans;
  }

  lemma {:induction false} WeightOfNone()
    ensures Weight([]) == 0
  {
  }

  /** An alignment of a region continues an alignment that ends where the region starts. */
  lemma {:induction false} Splice(ops: seq<PatchOp>, spans: seq<Span>, src: string, dst: string, p: nat, j: nat,
                                  sub: seq<PatchOp>, subspans: seq<Span>, po: string, pn: string, p1: nat, j1: nat)
    returns (spans': seq<Span>)
    requires Aligned(ops, spans, src, dst, p, j) && (ops != [] ==> spans[|spans| - 1].p1 < p)
    requires p <= |src| && Window(src, p, po) && Window(dst, j, pn)
    requires Aligned(sub, subspans, po, pn, p1, j1)
    ensures Aligned(ops + Shifted(sub, Off(src, p)), spans', src, dst, p + p1, j + j1)
    ensures |spans'| == |ops| + |sub|
    ensures sub != [] ==> spans'[|spans'| - 1] == ShiftedSpan(subspans[|sub| - 1], p, j)
    ensures sub == [] ==> spans' == spans
    ensures Weight(spans') == Weight(spans) + Weight(subspans)
    decreases |sub|
  {
    hide Covers, Off, EqualRun, RunBefore, Window, Aligned, Weight;
    var base := Off(src, p);
    var (q, k) := After(subspans, |subspans|);
    AlignedParts(ops, spans, src, dst, p, j);
    AlignedParts(sub, subspans, po, pn, p1, j1);
    RunShifted(subspans, src, dst, p, j, po, pn, p1, j1);
    if sub == [] {
      spans' := spans;
      assert ops + Shifted(sub, base) == ops;
      WeightOfNone();
    } else {
      var m := |sub| - 1;
      AlignedPrefix(sub, subspans, po, pn, p1, j1, m);
      var init := Splice(ops, spans, src, dst, p, j, sub[..m], subspans[..m], po, pn, subspans[m].p0, subspans[m].j0);
      SpliceLast(ops + Shifted(sub[..m], base), init, src, dst, p, j, sub[m], subspans[m], po, pn);
      assert (ops + Shifted(sub[..m], base)) + [ShiftedOp(sub[m], base)] == ops + Shifted(sub, base);
      spans' := init + [ShiftedSpan(subspans[m], p, j)];
      WeightOfSnoc(init, ShiftedSpan(subspans[m], p, j));
      WeightOfSnoc(subspans[..m], subspans[m]);
      assert subspans[..m] + [subspans[m]] == subspans;
    }
    Coalesce.AlignRun(ops + Shifted(sub, base), spans', src, dst, p + q, j + k, p + p1, j + j1);
  }

  // ----- The line diff and its refinement -----

  /**
   Everything up to character (p, j) is described by `ops`; the pending text that
   follows is not, and operations so far end strictly before it.
   */
  ghost predicate Pending(ops: seq<PatchOp>, spans: seq<Span>, src: string, dst: string, p: nat, j: nat,
                          po: string, pn: string) {
    && Aligned(ops, spans, src, dst, p, j) && (ops != [] ==> spans[|spans| - 1].p1 < p)
    && p <= |src| && j <= |dst| && Window(src, p, po) && Window(dst, j, pn)
  }

  /** Refines a pending region by characters and appends its operations. */
  method Flush(ops: seq<PatchOp>, pendingOld: string, pendingNew: string, start: nat,
               ghost spans: seq<Span>, ghost src: string, ghost dst: string, ghost p: nat, ghost j: nat)
    returns (ops': seq<PatchOp>, ghost spans': seq<Span>)
    requires Pending(ops, spans, src, dst, p, j, pendingOld, pendingNew) && start == Off(src, p)
    ensures Aligned(ops', spans', src, dst, p + |pendingOld|, j + |pendingNew|)
    ensures Weight(spans') == Weight(spans) + Dist(pendingOld, pendingNew, |pendingOld|, |pendingNew|)
  {
    hide Aligned, Off, Window, Weight;
    if pendingOld == [] && pendingNew == [] {
      return ops, spans;
    }
    var edits := Myers.Edits(pendingOld, pendingNew);
    var sub := Coalesce.EditsToPatchOps(edits);
    ghost var subspans: seq<Span> :|
      Aligned(sub, subspans, pendingOld, pendingNew, |pendingOld|, |pendingNew|) && Weight(subspans) == Cost(edits);
    spans' := Splice(ops, spans, src, dst, p, j, sub, subspans, pendingOld, pendingNew, |pendingOld|, |pendingNew|);
    ops' := ops + Shifted(sub, start);
  }

  /** The characters of both texts that the first `i` line edits account for. */
  ghost function OldChars(edits: seq<Edit<string>>): string { Flatten(OldOf(edits)) }
  ghost function NewChars(edits: seq<Edit<string>>): string { Flatten(NewOf(edits)) }

  lemma {:induction false} FlattenPrefix(lines: seq<string>, i: nat)
    requires i <= |lines|
    ensures Flatten(lines[..i]) <= Flatten(lines)
    decreases |lines|
  {
    if i == |lines| {
      assert lines[..i] == lines;
    } else {
      FlattenPrefix(lines[..|lines| - 1], i);
      assert lines[..|lines| - 1][..i] == lines[..i];
    }
  }

  /** One line edit, seen from the characters of both texts. */
  lemma {:induction false} LineStep(edits: seq<Edit<string>>, i: nat)
    requires i < |edits|
    ensures var (p, j, line) := (|OldChars(edits[..i])|, |NewChars(edits[..i])|, edits[i].item);
            && |OldChars(edits[..i + 1])| == p + (if edits[i].Insert? then 0 else |line|)
            && |NewChars(edits[..i + 1])| == j + (if edits[i].Delete? then 0 else |line|)
            && (!edits[i].Insert? ==> Window(OldChars(edits), p, line))
            && (!edits[i].Delete? ==> Window(NewChars(edits), j, line))
  {
    var e := edits[..i + 1];
    assert e[..i] == edits[..i];
    Coalesce.ScriptPrefix(edits, i + 1);
    FlattenPrefix(OldOf(edits), |OldOf(e)|);
    FlattenPrefix(NewOf(edits), |NewOf(e)|);
    assert OldOf(edits)[..|OldOf(e)|] == OldOf(e) && NewOf(edits)[..|NewOf(e)|] == NewOf(e);
    if edits[i].Insert? {
      assert OldOf(e) == OldOf(edits[..i]);
    } else {
      assert OldOf(e)[..|OldOf(e)| - 1] == OldOf(edits[..i]);
      PrefixWindow(OldChars(edits), OldChars(edits[..i]), edits[i].item);
    }
    if edits[i].Delete? {
      assert NewOf(e) == NewOf(edits[..i]);
    } else {
      assert NewOf(e)[..|NewOf(e)| - 1] == NewOf(edits[..i]);
      PrefixWindow(NewChars(edits), NewChars(edits[..i]), edits[i].item);
    }
  }

  lemma {:induction false} PrefixWindow(s: string, t: string, line: string)
    requires t + line <= s
    ensures Window(s, |t|, line)
  {
    assert s[|t|..|t| + |line|] == (t + line)[|t|..];
  }

  lemma {:induction false} WindowGrows(s: string, p: nat, part: string, line: string)
    requires Window(s, p, part) && Window(s, p + |part|, line)
    ensures Window(s, p, part + line)
  {
    assert s[p..p + |part| + |line|] == s[p..p + |part|] + s[p + |part|..p + |part| + |line|];
  }

  lemma {:induction false} DeletedLine(ops: seq<PatchOp>, spans: seq<Span>, src: string, dst: string, p: nat, j: nat,
                                       po: string, pn: string, line: string)
    requires Pending(ops, spans, src, dst, p, j, po, pn) && Window(src, p + |po|, line)
    ensures Pending(ops, spans, src, dst, p, j, po + line, pn)
    ensures p + |po| + |line| <= |src| && Off(src, p + |po| + |line|) == Off(src, p + |po|) + |Encode(line)|
  {
    hide Encode, Aligned;
    WindowGrows(src, p, po, line);
    OffOfSlice(src, p + |po|, p + |po| + |line|);
  }

  lemma {:induction false} InsertedLine(ops: seq<PatchOp>, spans: seq<Span>, src: string, dst: string, p: nat, j: nat,
                                        po: string, pn: string, line: string)
    requires Pending(ops, spans, src, dst, p, j, po, pn) && Window(dst, j + |pn|, line)
    ensures Pending(ops, spans, src, dst, p, j, po, pn + line)
  {
    hide Aligned;
    WindowGrows(dst, j, pn, line);
  }

  /** An equal line closes the region before it and opens an empty one after it. */
  lemma {:induction false} EqualLine(ops: seq<PatchOp>, spans: seq<Span>, src: string, dst: string, p: nat, j: nat,
                                     line: string)
    requires Aligned(ops, spans, src, dst, p, j)
    requires line != [] && Window(src, p, line) && Window(dst, j, line)
    ensures Pending(ops, spans, src, dst, p + |line|, j + |line|, [], [])
    ensures p + |line| <= |src| && Off(src, p + |line|) == Off(src, p) + |Encode(line)|
  {
    hide Aligned, Encode;
    Coalesce.AlignRun(ops, spans, src, dst, p, j, p + |line|, j + |line|);
    if ops != [] { Coalesce.LastMeets(ops, spans, src, dst, p, j); }
    OffOfSlice(src, p, p + |line|);
  }

  lemma {:induction false} NothingIsPending(src: string, dst: string)
    ensures Pending([], [], src, dst, 0, 0, [], []) && Off(src, 0) == 0
  {
    Coalesce.NothingIsAligned(src, dst);
  }

  ghost predicate NonEmptyItems(edits: seq<Edit<string>>) {
    forall i :: 0 <= i < |edits| ==> edits[i].item != []
  }

  lemma {:induction false} LinesAreNotEmpty(edits: seq<Edit<string>>, oldLines: seq<string>, newLines: seq<string>)
    requires IsScript(edits, oldLines, newLines)
    requires forall i :: 0 <= i < |oldLines| ==> IsLine(oldLines[i])
    requires forall i :: 0 <= i < |newLines| ==> IsLine(newLines[i])
    ensures NonEmptyItems(edits)
  {
    forall i | 0 <= i < |edits| ensures edits[i].item != [] {
      Coalesce.ScriptStep(edits, i);
    }
  }

  lemma {:induction false} NoCharsYet(edits: seq<Edit<string>>)
    ensures OldChars(edits[..0]) == [] && NewChars(edits[..0]) == []
    ensures RegionsOf(edits[..0]) == Regions(Weight([]), [], [])
  {
  }

  /**
   What a line script leaves to refine: the characters edited in the regions that an
   equal line has closed, and the region still open.
   */
  datatype Regions = Regions(edited: int, oldPart: string, newPart: string)

  ghost function RegionsOf(edits: seq<Edit<string>>): Regions {
    if edits == [] then Regions(0, [], [])
    else
      var r := RegionsOf(edits[..|edits| - 1]);
      match edits[|edits| - 1]
      case Equal(_) => Regions(Refined(r), [], [])
      case Delete(line) => r.(oldPart := r.oldPart + line)
      case Insert(line) => r.(newPart := r.newPart + line)
  }

  /** Closing the open region edits as many characters as its two sides are apart. */
  ghost function Refined(r: Regions): int {
    r.edited + Dist(r.oldPart, r.newPart, |r.oldPart|, |r.newPart|)
  }

  lemma {:induction false} RegionsStep(edits: seq<Edit<string>>, i: nat)
    requires i < |edits|
    ensures var r := RegionsOf(edits[..i]);
            RegionsOf(edits[..i + 1]) == match edits[i]
                                         case Equal(_) => Regions(Refined(r), [], [])
                                         case Delete(line) => Regions(r.edited, r.oldPart + line, r.newPart)
                                         case Insert(line) => Regions(r.edited, r.oldPart, r.newPart + line)
  {
    assert edits[..i + 1][..i] == edits[..i];
  }

  /** The characters in deleted and inserted lines. */
  ghost function ChangedChars(edits: seq<Edit<string>>): nat {
    if edits == [] then 0
    else
      var last := edits[|edits| - 1];
      ChangedChars(edits[..|edits| - 1]) + (if last.Equal? then 0 else |last.item|)
  }

  /** Refinement never edits more characters than the changed lines hold. */
  lemma {:induction false} RefinementSaves(edits: seq<Edit<string>>)
    ensures Refined(RegionsOf(edits)) <= ChangedChars(edits)
  {
    RegionsBound(edits);
    var r := RegionsOf(edits);
    DistanceBounds(r.oldPart, r.newPart, |r.oldPart|, |r.newPart|);
  }

  lemma {:induction false} RegionsBound(edits: seq<Edit<string>>)
    ensures var r := RegionsOf(edits); r.edited + |r.oldPart| + |r.newPart| <= ChangedChars(edits)
  {
    hide Dist;
    if edits != [] {
      var r := RegionsOf(edits[..|edits| - 1]);
      RegionsBound(edits[..|edits| - 1]);
      DistanceBounds(r.oldPart, r.newPart, |r.oldPart|, |r.newPart|);
    }
  }

  /** Walks a line script, collecting changed regions and refining each of them. */
  method RefineLines(edits: seq<Edit<string>>, ghost src: string, ghost dst: string)
    returns (ops: seq<PatchOp>)
    requires OldChars(edits) == src && NewChars(edits) == dst && NonEmptyItems(edits)
    ensures DescribesWith(ops, src, dst, Refined(RegionsOf(edits)))
  {
    hide *;
    ops := [];
    ghost var spans: seq<Span> := [];
    var oldByteOffset, pendingByteStart := 0, 0;
    var pendingOld: string, pendingNew: string := [], [];
    ghost var p: nat, j: nat := 0, 0;
    NothingIsPending(src, dst);
    NoCharsYet(edits);
    for i := 0 to |edits|
      invariant Pending(ops, spans, src, dst, p, j, pendingOld, pendingNew)
      invariant |OldChars(edits[..i])| == p + |pendingOld| && |NewChars(edits[..i])| == j + |pendingNew|
      invariant p + |pendingOld| <= |src| && oldByteOffset == Off(src, p + |pendingOld|)
      invariant pendingByteStart == Off(src, p)
      invariant RegionsOf(edits[..i]) == Regions(Weight(spans), pendingOld, pendingNew)
    {
      LineStep(edits, i);
      RegionsStep(edits, i);
      RefinedIs(RegionsOf(edits[..i]));
      match edits[i]
      case Equal(line) =>
        ops, spans := Flush(ops, pendingOld, pendingNew, pendingByteStart, spans, src, dst, p, j);
        ItemIsNotEmpty(edits, i);
        EqualLine(ops, spans, src, dst, p + |pendingOld|, j + |pendingNew|, line);
        p, j := p + |pendingOld| + |line|, j + |pendingNew| + |line|;
        pendingOld, pendingNew := [], [];
        oldByteOffset := oldByteOffset + |Encode(line)|;
        pendingByteStart := oldByteOffset;
      case Delete(line) =>
        if pendingOld == [] && pendingNew == [] {
          pendingByteStart := oldByteOffset;
        }
        DeletedLine(ops, spans, src, dst, p, j, pendingOld, pendingNew, line);
        pendingOld := pendingOld + line;
        oldByteOffset := oldByteOffset + |Encode(line)|;
      case Insert(line) =>
        if pendingOld == [] && pendingNew == [] {
          pendingByteStart := oldByteOffset;
        }
        InsertedLine(ops, spans, src, dst, p, j, pendingOld, pendingNew, line);
        pendingNew := pendingNew + line;
    }
    assert edits[..|edits|] == edits;
    RefinedIs(RegionsOf(edits));
    ops, spans := Flush(ops, pendingOld, pendingNew, pendingByteStart, spans, src, dst, p, j);
    AlignedDescribes(ops, spans, src, dst);
  }

  lemma {:induction false} AlignedDescribes(ops: seq<PatchOp>, spans: seq<Span>, src: string, dst: string)
    requires Aligned(ops, spans, src, dst, |src|, |dst|)
    ensures DescribesWith(ops, src, dst, Weight(spans))
  {
  }

  lemma {:induction false} RefinedIs(r: Regions)
    ensures Refined(r) == r.edited + Dist(r.oldPart, r.newPart, |r.oldPart|, |r.newPart|)
  {
  }

  lemma {:induction false} ItemIsNotEmpty(edits: seq<Edit<string>>, i: nat)
    requires NonEmptyItems(edits) && i < |edits|
    ensures edits[i].item != []
  {
  }

  /** A cheapest script between the lines of two texts. */
  ghost predicate IsLineDiff(edits: seq<Edit<string>>, src: string, dst: string) {
    var oldLines, newLines := SplitInclusive(src), SplitInclusive(dst);
    IsScript(edits, oldLines, newLines) && Cost(edits) == Dist(oldLines, newLines, |oldLines|, |newLines|)
  }

  /**
   Line diff, then character refinement of every changed region: the change is
   described while editing exactly as many characters as a cheapest line script
   leaves its regions apart.
   */
  method LineThenCharDiff(src: string, dst: string) returns (ops: seq<PatchOp>)
    ensures Describes(ops, src, dst)
    ensures exists edits :: IsLineDiff(edits, src, dst) && DescribesWith(ops, src, dst, Refined(RegionsOf(edits)))
  {
    hide Aligned, Flatten, Dist, RegionsOf, Refined, Weight;
    var oldLines, newLines := SplitInclusive(src), SplitInclusive(dst);
    var edits := Myers.Edits(oldLines, newLines);
    LinesAreNotEmpty(edits, oldLines, newLines);
    ops := RefineLines(edits, src, dst);
    assert IsLineDiff(edits, src, dst);
  }

  // ----- Entry points -----

  /** The operations from one text to another, by whichever path its size selects. */
  method DiffToPatchOps(src: string, dst: string) returns (ops: seq<PatchOp>)
    ensures Describes(ops, src, dst)
    ensures Canonical(ops, src)
    ensures src == dst ==> ops == []
    ensures |Encode(src)| + |Encode(dst)| < 8_000 ==>
              DescribesWith(ops, src, dst, Dist(src, dst, |src|, |dst|))
    ensures |Encode(src)| + |Encode(dst)| >= 8_000 && src != dst ==>
              exists edits :: IsLineDiff(edits, src, dst) && DescribesWith(ops, src, dst, Refined(RegionsOf(edits)))
  {
    if src == dst {
      ops := [];
      assert Aligned(ops, [], src, dst, |src|, |dst|);
      Coalesce.EqualRunKeepsDist(src, dst, 0, 0, |src|);
    } else if |Encode(src)| + |Encode(dst)| < LINE_DIFF_THRESHOLD {
      var edits := Myers.Edits(src, dst);
      ops := Coalesce.EditsToPatchOps(edits);
    } else {
      ops := LineThenCharDiff(src, dst);
    }
    DescribedChangeIsCanonical(ops, src, dst);
  }

  /** Diffs two texts and applies the result: the shared text becomes the new text. */
  method ApplyTextDiff(ytext: YText, src: string, dst: string) returns (ops: seq<PatchOp>)
    requires ytext.bytes == Encode(src)
    requires |Encode(src)| < U32 && |Encode(dst)| < U32
    modifies ytext
    ensures ytext.bytes == Encode(dst)
    ensures Canonical(ops, src)
  {
    ops := DiffToPatchOps(src, dst);
    DescribedChangeApplies(ops, src, dst);
    ApplyPatchOps(ytext, ops);
  }
}
