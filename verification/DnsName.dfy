/**
 DNS names in packets: the compressed form of section 4.1.4 of RFC 1035 on the way
 in, the plain form of section 3.1 on the way out.
 */
module DnsName {
  import opened Base
  import opened Strings
  import opened Utf8

  datatype Error =
    | OffsetPastEnd
    | RanPastEnd
    | PointerLoop
    | TruncatedPointer
    | PointerPastPacket
    | UnsupportedLabel
    | TruncatedLabel
    | InvalidUtf8
    | EmptyName
    | EmptyLabel
    | LabelTooLong

  // ----- The unbounded pointer walk -----

  /** What one position of a packet says about the name passing through it. */
  datatype Step = Root | Jump(target: nat) | Label(text: string, next: nat) | Fail(error: Error)

  function StepAt(packet: seq<byte>, cursor: nat): Step {
    if cursor >= |packet| then Fail(RanPastEnd)
    else
      var len: int := packet[cursor];
      if len == 0 then Root
      else if len >= 0xC0 then
        if cursor + 1 >= |packet| then Fail(TruncatedPointer)
        else
          var pointer := (len - 0xC0) * 256 + packet[cursor + 1];
          if pointer >= |packet| then Fail(PointerPastPacket) else Jump(pointer)
      else if len >= 0x40 then Fail(UnsupportedLabel)
      else if cursor + 1 + len > |packet| then Fail(TruncatedLabel)
      else
        match Decode(packet[cursor + 1..cursor + 1 + len])
        case None => Fail(InvalidUtf8)
        case Some(text) => Label(AsciiLower(text), cursor + 1 + len)
  }

  /** A walk under way: where it is, what it has read, and the offset after its first pointer, once it has jumped. */
  datatype Walk = Walk(cursor: nat, labels: seq<string>, jumped: bool, resume: nat)

  /** A decoded name and the offset just past it. */
  datatype Decoded = Decoded(name: string, next: nat)

  function Next(packet: seq<byte>, w: Walk): Option<Walk> {
    match StepAt(packet, w.cursor)
    case Jump(target) => Some(Walk(target, w.labels, true, if w.jumped then w.resume else w.cursor + 2))
    case Label(text, next) => Some(Walk(next, w.labels + [text], w.jumped, w.resume))
    case _ => None
  }

  /** The walk after `k` steps, if it has not stopped before. No number of steps is too many. */
  ghost function WalkAfter(packet: seq<byte>, start: nat, k: nat): Option<Walk> {
    if k == 0 then Some(Walk(start, [], false, 0))
    else
      match WalkAfter(packet, start, k - 1)
      case None => None
      case Some(w) => Next(packet, w)
  }

  /** The walk stops after exactly `k` steps, at the root or at a malformed position. */
  ghost predicate StopsAfter(packet: seq<byte>, start: nat, k: nat) {
    WalkAfter(packet, start, k).Some? && Next(packet, WalkAfter(packet, start, k).value).None?
  }

  /** The walk comes back to a position. */
  ghost predicate Revisits(packet: seq<byte>, start: nat) {
    exists i: nat, j: nat :: i < j && SameCursor(packet, start, i, j)
  }

  ghost predicate SameCursor(packet: seq<byte>, start: nat, i: nat, j: nat) {
    && WalkAfter(packet, start, i).Some? && WalkAfter(packet, start, j).Some?
    && WalkAfter(packet, start, i).value.cursor == WalkAfter(packet, start, j).value.cursor
  }

  function NameOf(labels: seq<string>): string {
    if labels == [] then "." else Join(labels, ".") + "."
  }

  /** What a stopped walk yields. */
  function Outcome(packet: seq<byte>, w: Walk): Result<Decoded, Error> {
    match StepAt(packet, w.cursor)
    case Fail(error) => Err(error)
    case _ => Ok(Decoded(NameOf(w.labels), if w.jumped then w.resume else w.cursor + 1))
  }

  /** The name at an offset, by the walk alone: its outcome if it ever stops, a loop if it never does. */
  ghost function NameAt(packet: seq<byte>, offset: nat): Result<Decoded, Error> {
    if offset >= |packet| then Err(OffsetPastEnd)
    else if exists k: nat :: StopsAfter(packet, offset, k) then
      var k: nat :| StopsAfter(packet, offset, k);
      Outcome(packet, WalkAfter(packet, offset, k).value)
    else Err(PointerLoop)
  }

  // ----- Properties of the walk -----

  lemma {:induction false} WalkIsPrefixClosed(packet: seq<byte>, start: nat, i: nat, k: nat)
    requires i <= k && WalkAfter(packet, start, k).Some?
    ensures WalkAfter(packet, start, i).Some?
    decreases k
  {
    hide Next;
    if i < k { WalkIsPrefixClosed(packet, start, i, k - 1); }
  }

  /** A walk stops at most once. */
  lemma {:induction false} StopIsUnique(packet: seq<byte>, start: nat, k: nat, m: nat)
    requires StopsAfter(packet, start, k) && StopsAfter(packet, start, m)
    ensures k == m
  {
    hide Next;
    if k < m { WalkIsPrefixClosed(packet, start, k + 1, m); }
    if m < k { WalkIsPrefixClosed(packet, start, m + 1, k); }
  }

  /** Where a walk goes depends on where it is alone. */
  lemma {:induction false} NextDependsOnCursor(packet: seq<byte>, v: Walk, w: Walk)
    requires v.cursor == w.cursor
    ensures Next(packet, v).Some? <==> Next(packet, w).Some?
    ensures Next(packet, v).Some? ==> Next(packet, v).value.cursor == Next(packet, w).value.cursor
    ensures Next(packet, v).Some? ==> v.cursor < |packet|
  {
  }

  /** From equal positions walks go through equal positions. */
  lemma {:induction false} SameCursorPersists(packet: seq<byte>, start: nat, i: nat, j: nat, n: nat)
    requires SameCursor(packet, start, i, j) && WalkAfter(packet, start, j + n).Some?
    ensures SameCursor(packet, start, i + n, j + n)
  {
    hide Next;
    if n > 0 {
      WalkIsPrefixClosed(packet, start, j + n - 1, j + n);
      SameCursorPersists(packet, start, i, j, n - 1);
      NextDependsOnCursor(packet, WalkAfter(packet, start, i + n - 1).value, WalkAfter(packet, start, j + n - 1).value);
    }
  }

  /** A walk that comes back to a position never stops. */
  lemma {:induction false} RevisitNeverStops(packet: seq<byte>, start: nat, k: nat)
    requires Revisits(packet, start)
    ensures !StopsAfter(packet, start, k)
  {
    hide Next;
    var i: nat, j: nat :| i < j && SameCursor(packet, start, i, j);
    if StopsAfter(packet, start, k) {
      if j > k {
        WalkIsPrefixClosed(packet, start, k + 1, j);
      } else {
        SameCursorPersists(packet, start, i, j, k - j);
        WalkIsPrefixClosed(packet, start, i + (k - j) + 1, k);
        NextDependsOnCursor(packet, WalkAfter(packet, start, i + (k - j)).value, WalkAfter(packet, start, k).value);
      }
    }
  }

  ghost function CursorAfter(packet: seq<byte>, start: nat, i: nat): nat {
    match WalkAfter(packet, start, i)
    case None => 0
    case Some(w) => w.cursor
  }

  ghost function Visited(packet: seq<byte>, start: nat, k: nat): set<nat> {
    if k == 0 then {} else Visited(packet, start, k - 1) + {CursorAfter(packet, start, k - 1)}
  }

  /** The first `k` positions of a walk lie in the packet. */
  lemma {:induction false} VisitedIsInside(packet: seq<byte>, start: nat, k: nat, c: nat) returns (i: nat)
    requires WalkAfter(packet, start, k).Some? && c in Visited(packet, start, k)
    ensures i < k && c == CursorAfter(packet, start, i) < |packet|
  {
    hide Next;
    WalkIsPrefixClosed(packet, start, k - 1, k);
    var w := WalkAfter(packet, start, k - 1).value;
    NextDependsOnCursor(packet, w, w);
    if c == w.cursor { i := k - 1; } else { i := VisitedIsInside(packet, start, k - 1, c); }
  }

  /** A position that has been visited before is a revisit. */
  lemma {:induction false} VisitedAgainIsRevisit(packet: seq<byte>, start: nat, k: nat)
    requires WalkAfter(packet, start, k).Some? && CursorAfter(packet, start, k) in Visited(packet, start, k)
    ensures Revisits(packet, start)
  {
    hide Next;
    var i := VisitedIsInside(packet, start, k, CursorAfter(packet, start, k));
    WalkIsPrefixClosed(packet, start, i, k);
    assert SameCursor(packet, start, i, k);
  }

  /** Without a revisit the first `k` positions are `k` many. */
  lemma {:induction false} VisitedCount(packet: seq<byte>, start: nat, k: nat)
    requires WalkAfter(packet, start, k).Some? && !Revisits(packet, start)
    ensures |Visited(packet, start, k)| == k
  {
    hide WalkAfter, CursorAfter, Revisits;
    if k > 0 {
      WalkIsPrefixClosed(packet, start, k - 1, k);
      VisitedCount(packet, start, k - 1);
      if CursorAfter(packet, start, k - 1) in Visited(packet, start, k - 1) {
        VisitedAgainIsRevisit(packet, start, k - 1);
      }
    }
  }

  /** There are only as many positions as bytes. */
  lemma {:induction false} BoundedSetIsSmall(s: set<nat>, n: nat)
    requires forall c :: c in s ==> c < n
    ensures |s| <= n
  {
    if n == 0 {
      assert s == {};
    } else {
      BoundedSetIsSmall(s - {n - 1}, n - 1);
      assert s == (s - {n - 1}) + (s * {n - 1});
    }
  }

  /** A walk that is still inside the packet after as many steps as the packet has bytes has come back. */
  lemma {:induction false} ExhaustedBudgetIsRevisit(packet: seq<byte>, start: nat)
    requires WalkAfter(packet, start, |packet|).Some?
    requires WalkAfter(packet, start, |packet|).value.cursor < |packet|
    ensures Revisits(packet, start)
  {
    hide Next;
    var n := |packet|;
    var all := Visited(packet, start, n + 1);
    if !Revisits(packet, start) {
      VisitedCount(packet, start, n);
      forall c | c in Visited(packet, start, n) ensures c < n {
        var i := VisitedIsInside(packet, start, n, c);
      }
      if CursorAfter(packet, start, n) in Visited(packet, start, n) {
        VisitedAgainIsRevisit(packet, start, n);
      }
      BoundedSetIsSmall(all, n);
    }
  }

  /** A walk that does not come back stops within the budget. */
  lemma {:induction false} AcyclicStops(packet: seq<byte>, start: nat) returns (k: nat)
    requires !Revisits(packet, start)
    ensures k <= |packet| && StopsAfter(packet, start, k)
  {
    k := 0;
    while !StopsAfter(packet, start, k)
      invariant k <= |packet| && WalkAfter(packet, start, k).Some?
      decreases |packet| - k
    {
      if k == |packet| {
        if WalkAfter(packet, start, k).value.cursor < |packet| {
          ExhaustedBudgetIsRevisit(packet, start);
        }
      }
      k := k + 1;
    }
  }

  /**
   The walk alone decides a name: it is read when the walk reaches the root label,
   it is a loop exactly when the walk comes back to a position, and any other error
   is the one the walk stops at.
   */
  lemma {:induction false} NameAtDecides(packet: seq<byte>, offset: nat)
    requires offset < |packet|
    ensures NameAt(packet, offset) == Err(PointerLoop) <==> Revisits(packet, offset)
    ensures forall k: nat :: StopsAfter(packet, offset, k) ==>
                               NameAt(packet, offset) == Outcome(packet, WalkAfter(packet, offset, k).value)
  {
    forall k: nat | StopsAfter(packet, offset, k)
      ensures NameAt(packet, offset) == Outcome(packet, WalkAfter(packet, offset, k).value)
    {
      var m: nat :| StopsAfter(packet, offset, m)
                    && NameAt(packet, offset) == Outcome(packet, WalkAfter(packet, offset, m).value);
      StopIsUnique(packet, offset, k, m);
    }
    if Revisits(packet, offset) {
      forall k: nat ensures !StopsAfter(packet, offset, k) { RevisitNeverStops(packet, offset, k); }
    } else {
      var k := AcyclicStops(packet, offset);
    }
  }

  /** One step of a walk either stops it, which decides the name, or leads on. */
  lemma {:induction false} WalkGoesOn(packet: seq<byte>, offset: nat, k: nat, w: Walk, step: Step)
    requires offset < |packet| && WalkAfter(packet, offset, k) == Some(w) && step == StepAt(packet, w.cursor)
    ensures match step
            case Fail(error) => NameAt(packet, offset) == Err(error)
            case Root =>
              NameAt(packet, offset) == Ok(Decoded(NameOf(w.labels), if w.jumped then w.resume else w.cursor + 1))
            case Jump(target) =>
              WalkAfter(packet, offset, k + 1)
              == Some(Walk(target, w.labels, true, if w.jumped then w.resume else w.cursor + 2))
            case Label(text, next) =>
              WalkAfter(packet, offset, k + 1) == Some(Walk(next, w.labels + [text], w.jumped, w.resume))
  {
    hide NameAt, Revisits, StepAt;
    NameAtDecides(packet, offset);
    assert Next(packet, w).None? ==> StopsAfter(packet, offset, k);
  }

  lemma {:induction false} BudgetExhausted(packet: seq<byte>, offset: nat)
    requires offset < |packet| && WalkAfter(packet, offset, |packet|).Some?
    requires WalkAfter(packet, offset, |packet|).value.cursor < |packet|
    ensures NameAt(packet, offset) == Err(PointerLoop)
  {
    hide *;
    ExhaustedBudgetIsRevisit(packet, offset);
    NameAtDecides(packet, offset);
  }

  // ----- The decoder with its step budget -----

  /** Reads one position, telling pointers from labels by the top two bits. */
  method ReadPosition(packet: seq<byte>, cursor: nat) returns (step: Step)
    requires cursor < |packet|
    ensures step == StepAt(packet, cursor)
  {
    hide Decode, AsciiLower;
    var len: int := packet[cursor];
    var typeBits := len / 64;
    if len == 0 {
      return Root;
    }
    if typeBits == 3 {
      if cursor + 1 >= |packet| {
        return Fail(TruncatedPointer);
      }
      var pointer := len % 64 * 256 + packet[cursor + 1];
      if pointer >= |packet| {
        return Fail(PointerPastPacket);
      }
      return Jump(pointer);
    }
    if typeBits != 0 {
      return Fail(UnsupportedLabel);
    }
    if cursor + 1 + len > |packet| {
      return Fail(TruncatedLabel);
    }
    var text := Decode(packet[cursor + 1..cursor + 1 + len]);
    if text.None? {
      return Fail(InvalidUtf8);
    }
    return Label(AsciiLower(text.value), cursor + 1 + len);
  }

  /**
   The top two bits of a byte decide what it starts: a label or the end of the name, a
   pointer, or something unsupported; the rest decides whether the packet holds it.
   */
  lemma {:induction false} TopBitsDecide(packet: seq<byte>, cursor: nat)
    requires cursor < |packet|
    ensures var len: int, left, step := packet[cursor], |packet| - cursor - 1, StepAt(packet, cursor);
            && (step == Root <==> len == 0)
            && (step == Fail(UnsupportedLabel) <==> len / 64 == 1 || len / 64 == 2)
            && (step == Fail(TruncatedLabel) <==> len / 64 == 0 && len > left)
            && (step == Fail(TruncatedPointer) <==> len / 64 == 3 && left == 0)
            && (step == Fail(PointerPastPacket) <==>
                len / 64 == 3 && left > 0 && len % 64 * 256 + packet[cursor + 1] >= |packet|)
            && (step == Fail(InvalidUtf8) <==>
                0 < len < 64 && len <= left && Decode(packet[cursor + 1..cursor + 1 + len]).None?)
            && (step.Jump? ==> len / 64 == 3 && step.target == len % 64 * 256 + packet[cursor + 1])
            && (step.Label? ==> len < 64 && step.next == cursor + 1 + len)
  {
    hide Decode, AsciiLower;
  }

  /** Decodes the name at an offset; returns it and the offset just past it. */
  method DecodeDnsName(packet: seq<byte>, offset: nat) returns (r: Result<Decoded, Error>)
    ensures r == NameAt(packet, offset)
  {
    hide *;
    NoNamePastEnd(packet, offset);
    if offset >= |packet| {
      return Err(OffsetPastEnd);
    }
    var cursor: nat, nextOffset: nat, jumped, budget := offset, offset, false, |packet|;
    var labels: seq<string> := [];
    ghost var k, w := 0, Walk(offset, [], false, 0);
    WalkStarts(packet, offset);
    while true
      invariant 0 <= budget && k == |packet| - budget
      invariant WalkAfter(packet, offset, k) == Some(w)
      invariant w.cursor == cursor && w.labels == labels && w.jumped == jumped && (jumped ==> w.resume == nextOffset)
      decreases budget
    {
      if cursor >= |packet| {
        PastEndFails(packet, cursor);
        WalkGoesOn(packet, offset, k, w, Fail(RanPastEnd));
        return Err(RanPastEnd);
      }
      if budget == 0 {
        BudgetExhausted(packet, offset);
        return Err(PointerLoop);
      }
      budget := budget - 1;
      var step := ReadPosition(packet, cursor);
      WalkGoesOn(packet, offset, k, w, step);
      match step {
        case Fail(error) =>
          return Err(error);
        case Root =>
          if !jumped {
            nextOffset := cursor + 1;
          }
          return Ok(Decoded(NameOf(labels), nextOffset));
        case Jump(pointer) =>
          if !jumped {
            nextOffset, jumped := cursor + 2, true;
          }
          cursor := pointer;
        case Label(text, next) =>
          labels := labels + [text];
          cursor := next;
          if !jumped {
            nextOffset := cursor;
          }
      }
      k := k + 1;
      w := WalkAfter(packet, offset, k).value;
    }
  }

  lemma {:induction false} WalkStarts(packet: seq<byte>, offset: nat)
    ensures WalkAfter(packet, offset, 0) == Some(Walk(offset, [], false, 0))
  {
  }

  lemma {:induction false} NoNamePastEnd(packet: seq<byte>, offset: nat)
    ensures offset >= |packet| ==> NameAt(packet, offset) == Err(OffsetPastEnd)
  {
  }

  lemma {:induction false} PastEndFails(packet: seq<byte>, cursor: nat)
    requires cursor >= |packet|
    ensures StepAt(packet, cursor) == Fail(RanPastEnd)
  {
  }

  // ----- Encoding and normal form -----

  /** A name without surrounding whitespace and then without trailing dots. */
  function Bare(name: string): string {
    TrimEndMatches(Trim(name), '.')
  }

  function NormalizeDnsName(name: string): string {
    if Bare(name) == [] then "." else AsciiLower(Bare(name)) + "."
  }

  predicate GoodLabel(text: string) {
    text != [] && |Encode(text)| <= 63
  }

  predicate AllGood(labels: seq<string>) {
    forall i :: 0 <= i < |labels| ==> GoodLabel(labels[i])
  }

  function EncodedLabels(labels: seq<string>): seq<byte>
    requires AllGood(labels)
  {
    if labels == [] then []
    else
      var last := Encode(labels[|labels| - 1]);
      assert GoodLabel(labels[|labels| - 1]);
      EncodedLabels(labels[..|labels| - 1]) + [|last|] + last
  }

  /** The names that have an encoding. */
  predicate Encodable(name: string) {
    Bare(name) != [] && AllGood(Split(Bare(name), '.'))
  }

  function EncodedName(name: string): seq<byte>
    requires Encodable(name)
  {
    EncodedLabels(Split(Bare(name), '.')) + [0]
  }

  /**
   Appends the encoding of a name. On failure the labels before the first bad one
   have been appended, and the error says what is wrong with that one.
   */
  method EncodeDnsName(name: string, output: seq<byte>) returns (r: Option<Error>, output': seq<byte>)
    ensures r.None? <==> Encodable(name)
    ensures r.None? ==> output' == output + EncodedName(name)
    ensures r == Some(EmptyName) <==> Bare(name) == []
    ensures r == Some(EmptyName) ==> output' == output
    ensures r.Some? && r != Some(EmptyName) ==>
              exists i :: 0 <= i < |Split(Bare(name), '.')|
                          && FirstBad(Split(Bare(name), '.'), i, r.value, output, output')
  {
    hide Encode, TrimEndMatches, Split, Bare;
    var trimmed := Bare(name);
    if trimmed == [] {
      return Some(EmptyName), output;
    }
    var labels := Split(trimmed, '.');
    output' := output;
    for i := 0 to |labels|
      invariant AllGood(labels[..i]) && output' == output + EncodedLabels(labels[..i])
    {
      var text := labels[i];
      if text == [] {
        assert FirstBad(labels, i, EmptyLabel, output, output');
        return Some(EmptyLabel), output';
      }
      if |Encode(text)| > 63 {
        assert FirstBad(labels, i, LabelTooLong, output, output');
        return Some(LabelTooLong), output';
      }
      assert labels[..i + 1][..i] == labels[..i];
      output' := output' + [|Encode(text)|];
      output' := output' + Encode(text);
    }
    assert labels[..|labels|] == labels;
    output' := output' + [0];
    return None, output';
  }

  /** Label `i` is the first bad one, for the given reason, and only the labels before it were written. */
  ghost predicate FirstBad(labels: seq<string>, i: nat, error: Error, output: seq<byte>, output': seq<byte>)
    requires i < |labels|
  {
    && AllGood(labels[..i]) && !GoodLabel(labels[i])
    && error == (if labels[i] == [] then EmptyLabel else LabelTooLong)
    && output' == output + EncodedLabels(labels[..i])
  }

  // ----- Round trip -----

  lemma {:induction false} EncodedLabelsPrefix(labels: seq<string>, k: nat)
    requires AllGood(labels) && k <= |labels|
    ensures AllGood(labels[..k]) && EncodedLabels(labels[..k]) <= EncodedLabels(labels)
    decreases |labels|
  {
    hide GoodLabel, Encode;
    if k == |labels| {
      assert labels[..k] == labels;
    } else {
      EncodedLabelsPrefix(labels[..|labels| - 1], k);
      assert labels[..|labels| - 1][..k] == labels[..k];
    }
  }

  /** The position of a written label reads as that label, lowered. */
  lemma {:induction false} LabelReadsBack(packet: seq<byte>, c: nat, text: string)
    requires GoodLabel(text)
    requires |Encode(text)| < 256 && WrittenAt(packet, c, [|Encode(text)|] + Encode(text))
    ensures StepAt(packet, c) == Label(AsciiLower(text), c + 1 + |Encode(text)|)
  {
    hide Decode, Encode, AsciiLower;
    DecodeInvertsEncode(text);
    EncodeAtLeastLength(text);
    var e := Encode(text);
    var all := [|e|] + e;
    assert packet[c + 0] == all[0];
    forall i | 0 <= i < |e| ensures packet[c + 1..c + 1 + |e|][i] == e[i] {
      assert packet[c + (1 + i)] == all[1 + i];
    }
    assert packet[c + 1..c + 1 + |e|] == e;
  }

  /** `part` is written in the packet at `start`. */
  ghost predicate WrittenAt(packet: seq<byte>, start: nat, part: seq<byte>) {
    start + |part| <= |packet| && forall i :: 0 <= i < |part| ==> packet[start + i] == part[i]
  }

  lemma {:induction false} WrittenPart(packet: seq<byte>, start: nat, whole: seq<byte>, i: nat, j: nat)
    requires WrittenAt(packet, start, whole) && i <= j <= |whole|
    ensures WrittenAt(packet, start + i, whole[i..j])
  {
    forall k | 0 <= k < j - i ensures packet[start + i + k] == whole[i..j][k] {
      assert whole[i..j][k] == whole[i + k];
    }
  }

  lemma {:induction false} WrittenConcat(packet: seq<byte>, start: nat, a: seq<byte>, b: seq<byte>)
    requires WrittenAt(packet, start, a + b)
    ensures WrittenAt(packet, start, a) && WrittenAt(packet, start + |a|, b)
  {
    WrittenPart(packet, start, a + b, 0, |a|);
    WrittenPart(packet, start, a + b, |a|, |a| + |b|);
    assert (a + b)[0..|a|] == a && (a + b)[|a|..|a| + |b|] == b;
  }

  lemma {:induction false} MiddlePart(whole: seq<byte>, a: seq<byte>, b: seq<byte>)
    requires a + b <= whole
    ensures whole[|a|..|a| + |b|] == b
  {
    assert whole[..|a| + |b|] == a + b;
  }

  lemma {:induction false} LabelIsWritten(packet: seq<byte>, start: nat, labels: seq<string>, k: nat)
    requires AllGood(labels) && k < |labels| && AllGood(labels[..k]) && AllGood(labels[..k + 1])
    requires WrittenAt(packet, start, EncodedLabels(labels))
    ensures var c := start + |EncodedLabels(labels[..k])|;
            && |EncodedLabels(labels[..k + 1])| == |EncodedLabels(labels[..k])| + 1 + |Encode(labels[k])|
            && StepAt(packet, c) == Label(AsciiLower(labels[k]), c + 1 + |Encode(labels[k])|)
  {
    hide Encode, StepAt, AsciiLower;
    EncodedLabelsPrefix(labels, k + 1);
    assert labels[..k + 1][..k] == labels[..k];
    var a, e, all := EncodedLabels(labels[..k]), Encode(labels[k]), EncodedLabels(labels);
    ConcatIsAssociative(a, [|e|], e);
    MiddlePart(all, a, [|e|] + e);
    WrittenPart(packet, start, all, |a|, |a| + 1 + |e|);
    LabelReadsBack(packet, start + |a|, labels[k]);
  }

  lemma {:induction false} NoLabels(labels: seq<string>)
    requires labels == []
    ensures AllGood(labels) && EncodedLabels(labels) == [] && LowerAll(labels) == []
  {
  }

  /** The walk over written labels collects them in order, lowered, without jumping. */
  lemma {:induction false} WalkReadsLabels(packet: seq<byte>, start: nat, labels: seq<string>, k: nat)
    requires AllGood(labels) && k <= |labels|
    requires WrittenAt(packet, start, EncodedLabels(labels))
    ensures AllGood(labels[..k])
    ensures WalkAfter(packet, start, k)
         == Some(Walk(start + |EncodedLabels(labels[..k])|, LowerAll(labels[..k]), false, 0))
  {
    hide Encode, StepAt, AsciiLower, GoodLabel, WrittenAt, LowerAll, EncodedLabels;
    if k == 0 {
      NoLabels(labels[..0]);
    } else {
      WalkReadsLabels(packet, start, labels, k - 1);
      LabelIsWritten(packet, start, labels, k - 1);
      assert labels[..k][..k - 1] == labels[..k - 1];
      assert LowerAll(labels[..k]) == LowerAll(labels[..k - 1]) + [AsciiLower(labels[k - 1])];
    }
  }

  /**
   Wherever it is written in a packet, an encoded name decodes to its normal form,
   and the decoder resumes just past the encoding.
   */
  lemma {:induction false} EncodedNameDecodes(packet: seq<byte>, start: nat, name: string)
    requires Encodable(name) && WrittenAt(packet, start, EncodedName(name))
    ensures NameAt(packet, start) == Ok(Decoded(NormalizeDnsName(name), start + |EncodedName(name)|))
  {
    hide *;
    var labels := LabelsOf(packet, start, name);
    var n := |labels|;
    assert labels[..n] == labels;
    WalkReadsLabels(packet, start, labels, n);
    var w := Walk(start + |EncodedLabels(labels)|, LowerAll(labels), false, 0);
    WalkGoesOn(packet, start, n, w, Root);
    NormalNameOf(name);
  }

  lemma {:induction false} LabelsOf(packet: seq<byte>, start: nat, name: string) returns (labels: seq<string>)
    requires Encodable(name) && WrittenAt(packet, start, EncodedName(name))
    ensures labels == Split(Bare(name), '.') && AllGood(labels)
    ensures start < |packet| && |EncodedName(name)| == |EncodedLabels(labels)| + 1
    ensures WrittenAt(packet, start, EncodedLabels(labels))
    ensures StepAt(packet, start + |EncodedLabels(labels)|) == Root
  {
    hide Bare, Split, GoodLabel, Encode;
    labels := Split(Bare(name), '.');
    var enc, all := EncodedLabels(labels), EncodedName(name);
    WrittenPart(packet, start, all, 0, |enc|);
    assert all[..|enc|] == enc;
    assert packet[start + |enc|] == all[|enc|] == 0;
  }

  lemma {:induction false} NormalNameOf(name: string)
    requires Encodable(name)
    ensures NameOf(LowerAll(Split(Bare(name), '.'))) == NormalizeDnsName(name)
  {
    hide Bare, Split, Join, AllGood;
    JoinLoweredSplit(Bare(name), '.');
  }

  // ----- Compression -----

  /** A pointer to an offset: two set bits, then the offset in fourteen. */
  function PointerTo(target: nat): (b: seq<byte>)
    requires target < 0x4000
    ensures |b| == 2
  {
    [0xC0 + target / 256, target % 256]
  }

  /** Labels in front of a decoded name. */
  function Under(labels: seq<string>, name: string): string {
    if labels == [] then name
    else Join(labels, ".") + "." + if name == "." then "" else name
  }

  /** A walk that was led to a position reads from there what a walk from there reads. */
  lemma {:induction false} WalkFollows(packet: seq<byte>, start: nat, n: nat, v: Walk, k: nat)
    requires WalkAfter(packet, start, n) == Some(v) && v.jumped && WalkAfter(packet, v.cursor, k).Some?
    ensures var w := WalkAfter(packet, v.cursor, k).value;
            WalkAfter(packet, start, n + k) == Some(Walk(w.cursor, v.labels + w.labels, true, v.resume))
    decreases k
  {
    hide StepAt;
    if k == 0 {
      assert v.labels + [] == v.labels;
    } else {
      WalkIsPrefixClosed(packet, v.cursor, k - 1, k);
      WalkFollows(packet, start, n, v, k - 1);
      var w := WalkAfter(packet, v.cursor, k - 1).value;
      NextCarriesLabels(packet, w, v.labels, v.resume);
    }
  }

  lemma {:induction false} NextCarriesLabels(packet: seq<byte>, w: Walk, labels: seq<string>, resume: nat)
    ensures var w' := Walk(w.cursor, labels + w.labels, true, resume);
            && (Next(packet, w).None? <==> Next(packet, w').None?)
            && (Next(packet, w).Some? ==>
                  var u := Next(packet, w).value;
                  Next(packet, w') == Some(Walk(u.cursor, labels + u.labels, true, resume)))
  {
    hide StepAt;
    match StepAt(packet, w.cursor)
    case Label(text, _) => assert (labels + w.labels) + [text] == labels + (w.labels + [text]);
    case _ =>
  }

  /** A walk never reads an empty label. */
  lemma {:induction false} LabelsAreNotEmpty(packet: seq<byte>, start: nat, k: nat)
    requires WalkAfter(packet, start, k).Some?
    ensures forall i :: 0 <= i < |WalkAfter(packet, start, k).value.labels| ==>
                          WalkAfter(packet, start, k).value.labels[i] != []
  {
    hide StepAt;
    if k > 0 {
      WalkIsPrefixClosed(packet, start, k - 1, k);
      LabelsAreNotEmpty(packet, start, k - 1);
      LabelIsNotEmpty(packet, WalkAfter(packet, start, k - 1).value.cursor);
    }
  }

  lemma {:induction false} LabelIsNotEmpty(packet: seq<byte>, c: nat)
    ensures StepAt(packet, c).Label? ==> StepAt(packet, c).text != []
  {
    hide EncodeChar;
    if StepAt(packet, c).Label? {
      var len: int := packet[c];
      var text := Decode(packet[c + 1..c + 1 + len]);
      assert |packet[c + 1..c + 1 + len]| == len;
      assert text.value != [];
    }
  }

  lemma {:induction false} NameOfConcat(labels: seq<string>, tail: seq<string>)
    requires forall i :: 0 <= i < |tail| ==> tail[i] != []
    ensures NameOf(labels + tail) == Under(labels, NameOf(tail))
  {
    if labels == [] {
      assert labels + tail == tail;
    } else if tail == [] {
      assert labels + tail == labels;
    } else {
      JoinConcat(labels, tail, ".");
      JoinIsNotEmpty(tail, ".");
    }
  }

  lemma {:induction false} JoinIsNotEmpty(parts: seq<string>, sep: string)
    requires parts != [] && parts[0] != []
    ensures Join(parts, sep) != []
  {
  }

  /** What a walk finds after good labels and a pointer. */
  lemma {:induction false} WalkReadsPointer(packet: seq<byte>, start: nat, labels: seq<string>, target: nat)
    requires AllGood(labels) && target < 0x4000 && target < |packet|
    requires WrittenAt(packet, start, EncodedLabels(labels) + PointerTo(target))
    ensures start < |packet|
    ensures WalkAfter(packet, start, |labels| + 1)
         == Some(Walk(target, LowerAll(labels), true, start + |EncodedLabels(labels)| + 2))
  {
    hide StepAt, GoodLabel, LowerAll, EncodedLabels, PointerTo, WrittenAt;
    var enc := EncodedLabels(labels);
    WrittenConcat(packet, start, enc, PointerTo(target));
    PointerReadsBack(packet, start + |enc|, target);
    assert labels[..|labels|] == labels;
    WalkReadsLabels(packet, start, labels, |labels|);
  }

  lemma {:induction false} PointerReadsBack(packet: seq<byte>, c: nat, target: nat)
    requires target < 0x4000 && target < |packet| && WrittenAt(packet, c, PointerTo(target))
    ensures c < |packet| && StepAt(packet, c) == Jump(target)
  {
    assert packet[c + 0] == PointerTo(target)[0] && packet[c + 1] == PointerTo(target)[1];
  }

  /**
   Labels followed by a pointer decode to those labels in front of whatever name the
   pointer leads to, by further pointers or not, and the decoder resumes just past the
   pointer; if no name is there, the error is the one found there.
   */
  lemma {:induction false} CompressedNameDecodes(packet: seq<byte>, start: nat, labels: seq<string>, target: nat)
    requires AllGood(labels) && target < 0x4000 && target < |packet|
    requires WrittenAt(packet, start, EncodedLabels(labels) + PointerTo(target))
    ensures NameAt(packet, start)
         == match NameAt(packet, target)
            case Err(e) => Err(e)
            case Ok(d) => Ok(Decoded(Under(LowerAll(labels), d.name), start + |EncodedLabels(labels)| + 2))
  {
    hide *;
    var n, v := |labels| + 1, Walk(target, LowerAll(labels), true, start + |EncodedLabels(labels)| + 2);
    WalkReadsPointer(packet, start, labels, target);
    NameAtDecides(packet, target);
    NameAtDecides(packet, start);
    if Revisits(packet, target) {
      LoopIsInherited(packet, start, n, v);
    } else {
      var k := AcyclicStops(packet, target);
      StopIsInherited(packet, start, n, v, k);
    }
  }

  lemma {:induction false} LoopIsInherited(packet: seq<byte>, start: nat, n: nat, v: Walk)
    requires WalkAfter(packet, start, n) == Some(v) && v.jumped && Revisits(packet, v.cursor)
    ensures Revisits(packet, start)
  {
    hide WalkAfter;
    var i: nat, j: nat :| i < j && SameCursor(packet, v.cursor, i, j);
    WalkFollows(packet, start, n, v, i);
    WalkFollows(packet, start, n, v, j);
    assert SameCursor(packet, start, n + i, n + j);
  }

  lemma {:induction false} StopIsInherited(packet: seq<byte>, start: nat, n: nat, v: Walk, k: nat)
    requires WalkAfter(packet, start, n) == Some(v) && v.jumped && StopsAfter(packet, v.cursor, k)
    ensures StopsAfter(packet, start, n + k)
    ensures Outcome(packet, WalkAfter(packet, start, n + k).value)
         == match Outcome(packet, WalkAfter(packet, v.cursor, k).value)
            case Err(e) => Err(e)
            case Ok(d) => Ok(Decoded(Under(v.labels, d.name), v.resume))
  {
    hide WalkAfter, StepAt, NameOf, Under;
    var w := WalkAfter(packet, v.cursor, k).value;
    WalkFollows(packet, start, n, v, k);
    NextCarriesLabels(packet, w, v.labels, v.resume);
    LabelsAreNotEmpty(packet, v.cursor, k);
    NameOfConcat(v.labels, w.labels);
  }

  /** In particular, a pointer to a written name puts the labels in front of its normal form. */
  lemma {:induction false} PointerToWrittenName(packet: seq<byte>, start: nat, labels: seq<string>, target: nat,
                                                name: string)
    requires AllGood(labels) && target < 0x4000 && Encodable(name)
    requires WrittenAt(packet, start, EncodedLabels(labels) + PointerTo(target))
    requires WrittenAt(packet, target, EncodedName(name))
    ensures NameAt(packet, start)
         == Ok(Decoded(Under(LowerAll(labels), NormalizeDnsName(name)), start + |EncodedLabels(labels)| + 2))
  {
    hide *;
    var written := LabelsOf(packet, target, name);
    EncodedNameDecodes(packet, target, name);
    CompressedNameDecodes(packet, start, labels, target);
  }

  // ----- Normal form -----

  /** The normal form of a name is its own normal form. */
  lemma {:induction false} NormalizeIsIdempotent(name: string)
    ensures NormalizeDnsName(NormalizeDnsName(name)) == NormalizeDnsName(name)
  {
    TrimTrims(name);
    TrimEndMatchesTrims(Trim(name), '.');
    if Bare(name) == [] {
      DotIsBare();
    } else {
      var low := AsciiLower(Bare(name));
      LowerKeepsSpace(Bare(name)[0]);
      TrimTrims(low + ".");
      assert TrimEndMatches(low + ".", '.') == TrimEndMatches(low, '.') == low by {
        assert (low + ".")[..|low|] == low;
      }
      LowerIsIdempotent(Bare(name));
    }
  }

  lemma {:induction false} DotIsBare()
    ensures Bare(".") == []
  {
    TrimTrims(".");
    assert "."[..0] == [];
  }

  lemma {:induction false} LowerKeepsSpace(c: char)
    ensures IsWhitespace(LowerChar(c)) <==> IsWhitespace(c)
    ensures LowerChar(c) == '.' <==> c == '.'
  {
  }

  lemma {:induction false} LowerIsIdempotent(s: string)
    ensures AsciiLower(AsciiLower(s)) == AsciiLower(s)
  {
  }
}
