/** Wiki links: scanning a text for `[[target#heading|alias]]`. */
module WikiLinks {
  import opened Base
  import opened Strings
  import opened Utf8

  datatype WikiLink =
    WikiLink(target: string, heading: Option<string>, alias: Option<string>, raw: string, start: nat, end: nat)

  const OPEN: byte := 0x5B
  const CLOSE: byte := 0x5D

  // ----- The inside of one link -----

  function Kept(value: string): Option<string> {
    if value == [] then None else Some(value)
  }

  function ParseInnerLink(inner: string, start: nat, end: nat): Option<WikiLink> {
    var trimmed := Trim(inner);
    if trimmed == [] then None
    else
      var bar := SplitOnce(trimmed, '|');
      var targetPart := if bar.Some? then Trim(bar.value.0) else trimmed;
      if targetPart == [] then None
      else
        var hash := SplitOnce(targetPart, '#');
        var target := if hash.Some? then Trim(hash.value.0) else targetPart;
        if target == [] then None
        else
          Some(WikiLink(target, if hash.Some? then Kept(Trim(hash.value.1)) else None,
                        if bar.Some? then Kept(Trim(bar.value.1)) else None, trimmed, start, end))
  }

  // ----- The recursive definition -----

  predicate PairAt(b: seq<byte>, c: byte, i: int) {
    0 <= i && i + 1 < |b| && b[i] == c && b[i + 1] == c
  }

  /** The first place at or after `from` where `c` stands twice. */
  function FindPair(b: seq<byte>, c: byte, from: nat): (r: Option<nat>)
    ensures r.Some? ==> from <= r.value && PairAt(b, c, r.value) && forall i :: from <= i < r.value ==> !PairAt(b, c, i)
    ensures r.None? ==> forall i :: from <= i ==> !PairAt(b, c, i)
    decreases |b| - from
  {
    if from + 1 >= |b| then None
    else if PairAt(b, c, from) then Some(from)
    else FindPair(b, c, from + 1)
  }

  datatype Span = Span(start: nat, end: nat)

  /** From an offset on: the leftmost `[[`, the first `]]` at least two bytes later, and so on after it. */
  function Spans(b: seq<byte>, from: nat): seq<Span>
    decreases |b| - from
  {
    match FindPair(b, OPEN, from)
    case None => []
    case Some(s) =>
      match FindPair(b, CLOSE, s + 2)
      case None => Spans(b, s + 1)
      case Some(e) => [Span(s, e + 2)] + Spans(b, e + 2)
  }

  /** The text between the brackets of a span. */
  function InnerOf(b: seq<byte>, s: Span): string
    requires s.start + 4 <= s.end <= |b|
  {
    match Decode(b[s.start + 2..s.end - 2])
    case None => []
    case Some(text) => text
  }

  function LinkOf(b: seq<byte>, s: Span): Option<WikiLink>
    requires s.start + 4 <= s.end <= |b|
  {
    ParseInnerLink(InnerOf(b, s), s.start, s.end)
  }

  predicate Inside(b: seq<byte>, spans: seq<Span>) {
    forall k :: 0 <= k < |spans| ==> spans[k].start + 4 <= spans[k].end <= |b|
  }

  /** The links of a list of spans; spans with nothing linkable inside yield none. */
  function LinksOf(b: seq<byte>, spans: seq<Span>): seq<WikiLink>
    requires Inside(b, spans)
  {
    if spans == [] then []
    else
      match LinkOf(b, spans[0])
      case None => LinksOf(b, spans[1..])
      case Some(link) => [link] + LinksOf(b, spans[1..])
  }

  // ----- Properties of the definition -----

  /** The spans lie in the text, in order and without overlap, each from `[[` to `]]`. */
  ghost predicate Proper(b: seq<byte>, from: nat, spans: seq<Span>) {
    && (forall k :: 0 <= k < |spans| ==>
                      && from <= spans[k].start && spans[k].start + 4 <= spans[k].end <= |b|
                      && PairAt(b, OPEN, spans[k].start) && PairAt(b, CLOSE, spans[k].end - 2))
    && (forall k, m :: 0 <= k < m < |spans| ==> spans[k].end <= spans[m].start)
  }

  lemma {:induction false} ProperCons(b: seq<byte>, from: nat, s: Span, rest: seq<Span>)
    requires from <= s.start && s.start + 4 <= s.end <= |b|
    requires PairAt(b, OPEN, s.start) && PairAt(b, CLOSE, s.end - 2)
    requires Proper(b, s.end, rest)
    ensures Proper(b, from, [s] + rest)
  {
    hide PairAt;
    var all := [s] + rest;
    forall k | 0 < k < |all| ensures all[k] == rest[k - 1] && s.end <= all[k].start { }
  }

  lemma {:induction false} SpansAreProper(b: seq<byte>, from: nat)
    ensures Proper(b, from, Spans(b, from))
    decreases |b| - from
  {
    hide Proper;
    match FindPair(b, OPEN, from)
    case None => NoSpans(b, from);
    case Some(s) =>
      match FindPair(b, CLOSE, s + 2)
      case None =>
        UnclosedEndsScan(b, s + 1, s);
        NoSpans(b, from);
      case Some(e) =>
        SpansAreProper(b, e + 2);
        ProperCons(b, from, Span(s, e + 2), Spans(b, e + 2));
  }

  lemma {:induction false} NoSpans(b: seq<byte>, from: nat)
    ensures Proper(b, from, [])
  {
  }

  /** After an unclosed `[[` nothing is a link. */
  lemma {:induction false} UnclosedEndsScan(b: seq<byte>, from: nat, s: nat)
    requires FindPair(b, CLOSE, s + 2).None? && s <= from
    ensures Spans(b, from) == []
    decreases |b| - from
  {
    match FindPair(b, OPEN, from)
    case None =>
    case Some(t) =>
      assert FindPair(b, CLOSE, t + 2).None?;
      UnclosedEndsScan(b, t + 1, s);
  }

  /** The span starts at the first `[[` from an offset on and ends at the first `]]` that follows. */
  ghost predicate FirstSpan(b: seq<byte>, from: nat, s: Span) {
    && from <= s.start && s.start + 4 <= s.end
    && PairAt(b, OPEN, s.start) && (forall i :: from <= i < s.start ==> !PairAt(b, OPEN, i))
    && PairAt(b, CLOSE, s.end - 2) && (forall j :: s.start + 2 <= j < s.end - 2 ==> !PairAt(b, CLOSE, j))
  }

  /** From an offset on no `[[` is closed. */
  ghost predicate NoneClosed(b: seq<byte>, from: nat) {
    forall i, j :: from <= i && i + 2 <= j && PairAt(b, OPEN, i) ==> !PairAt(b, CLOSE, j)
  }

  /** Each span is the first one after the one before it, and behind the last one there is none. */
  ghost predicate Leftmost(b: seq<byte>, from: nat, spans: seq<Span>)
    decreases |spans|
  {
    if spans == [] then NoneClosed(b, from)
    else FirstSpan(b, from, spans[0]) && Leftmost(b, spans[0].end, spans[1..])
  }

  lemma {:induction false} FirstSpanIsUnique(b: seq<byte>, from: nat, s: Span, t: Span)
    requires FirstSpan(b, from, s) && FirstSpan(b, from, t)
    ensures s == t
  {
    hide PairAt;
    assert s.start == t.start;
    assert s.end - 2 == t.end - 2;
  }

  lemma {:induction false} NoneClosedMeansNone(b: seq<byte>, from: nat, s: Span)
    requires NoneClosed(b, from)
    ensures !FirstSpan(b, from, s)
  {
    hide PairAt;
  }

  lemma {:induction false} LeftmostIsUnique(b: seq<byte>, from: nat, s: seq<Span>, t: seq<Span>)
    requires Leftmost(b, from, s) && Leftmost(b, from, t)
    ensures s == t
    decreases |s|
  {
    hide FirstSpan, NoneClosed;
    if s == [] {
      if t != [] { NoneClosedMeansNone(b, from, t[0]); }
    } else if t == [] {
      NoneClosedMeansNone(b, from, s[0]);
    } else {
      FirstSpanIsUnique(b, from, s[0], t[0]);
      LeftmostIsUnique(b, s[0].end, s[1..], t[1..]);
      assert s == [s[0]] + s[1..] && t == [t[0]] + t[1..];
    }
  }

  lemma {:induction false} ScanIsLeftmost(b: seq<byte>, from: nat)
    ensures Leftmost(b, from, Spans(b, from))
    decreases |b| - from
  {
    hide PairAt, FirstSpan, NoneClosed, FindPair;
    match FindPair(b, OPEN, from)
    case None =>
      NothingOpens(b, from, from);
    case Some(s) =>
      match FindPair(b, CLOSE, s + 2)
      case None =>
        UnclosedEndsScan(b, s + 1, s);
        NothingOpens(b, from, s);
      case Some(e) =>
        PairInside(b, CLOSE, e);
        ScanIsLeftmost(b, e + 2);
        var rest := Spans(b, e + 2);
        assert ([Span(s, e + 2)] + rest)[1..] == rest;
        FoundIsFirst(b, from, s, e);
  }

  lemma {:induction false} NothingOpens(b: seq<byte>, from: nat, s: nat)
    requires FindPair(b, OPEN, from).None? || (FindPair(b, OPEN, from) == Some(s) && FindPair(b, CLOSE, s + 2).None?)
    ensures NoneClosed(b, from)
  {
    hide PairAt;
  }

  lemma {:induction false} FoundIsFirst(b: seq<byte>, from: nat, s: nat, e: nat)
    requires FindPair(b, OPEN, from) == Some(s) && FindPair(b, CLOSE, s + 2) == Some(e)
    ensures FirstSpan(b, from, Span(s, e + 2))
  {
    hide PairAt;
  }

  lemma {:induction false} PairInside(b: seq<byte>, c: byte, i: nat)
    requires PairAt(b, c, i)
    ensures i + 2 <= |b|
  {
  }

  /** The scan yields the leftmost spans, and there is only one such list. */
  lemma {:induction false} SpansAreLeftmost(b: seq<byte>, from: nat, spans: seq<Span>)
    ensures Leftmost(b, from, spans) <==> spans == Spans(b, from)
  {
    hide Leftmost, Spans;
    ScanIsLeftmost(b, from);
    if Leftmost(b, from, spans) { LeftmostIsUnique(b, from, spans, Spans(b, from)); }
  }

  lemma {:induction false} SkipNonPair(b: seq<byte>, i: nat)
    requires !PairAt(b, OPEN, i)
    ensures Spans(b, i) == Spans(b, i + 1)
  {
    if i + 1 >= |b| {
      assert FindPair(b, OPEN, i).None? && FindPair(b, OPEN, i + 1).None?;
    }
  }

  /** Brackets are ASCII, so the inside of a span of a valid text is valid text. */
  lemma {:induction false} InsideIsText(markdown: string, s: Span) returns (p: nat, q: nat)
    requires s.start + 4 <= s.end <= |Encode(markdown)|
    requires PairAt(Encode(markdown), OPEN, s.start) && PairAt(Encode(markdown), CLOSE, s.end - 2)
    ensures p <= q <= |markdown| && Encode(markdown)[s.start + 2..s.end - 2] == Encode(markdown[p..q])
    ensures Decode(Encode(markdown)[s.start + 2..s.end - 2]) == Some(markdown[p..q])
  {
    hide Encode, Decode;
    var i := AsciiIsBoundary(markdown, s.start + 1);
    var j := AsciiIsBoundary(markdown, s.end - 2);
    p, q := i + 1, j;
    if q < p { SliceAtBoundaries(markdown, q, p); BoundaryOrder(markdown, q, p); }
    SliceAtBoundaries(markdown, p, q);
    DecodeInvertsEncode(markdown[p..q]);
  }

  lemma {:induction false} BoundaryOrder(s: string, p: nat, q: nat)
    requires p < q <= |s|
    ensures |Encode(s[..p])| < |Encode(s[..q])|
  {
    hide EncodeChar;
    EncodeSplits(s[..q], p);
    assert s[..q][..p] == s[..p];
    EncodeAtLeastLength(s[..q][p..]);
  }

  // ----- The scanner -----

  /** Looks for `]]` from an index on. */
  method FindClose(b: seq<byte>, from: nat) returns (close: Option<nat>)
    ensures close == FindPair(b, CLOSE, from)
  {
    var index := from;
    while index + 1 < |b|
      invariant FindPair(b, CLOSE, from) == FindPair(b, CLOSE, index)
    {
      if b[index] == CLOSE && b[index + 1] == CLOSE {
        return Some(index);
      }
      index := index + 1;
    }
    return None;
  }

  lemma {:induction false} LinksConcat(b: seq<byte>, s: seq<Span>, t: seq<Span>)
    requires Inside(b, s) && Inside(b, t)
    ensures Inside(b, s + t) && LinksOf(b, s + t) == LinksOf(b, s) + LinksOf(b, t)
    decreases |s|
  {
    hide LinkOf;
    assert Inside(b, s + t);
    if s == [] {
      assert s + t == t && [] + LinksOf(b, t) == LinksOf(b, t);
    } else {
      assert Inside(b, s[1..]);
      LinksConcat(b, s[1..], t);
      assert (s + t)[0] == s[0] && (s + t)[1..] == s[1..] + t;
      var rest := LinksOf(b, s[1..]);
      match LinkOf(b, s[0])
      case None =>
      case Some(link) => assert [link] + (rest + LinksOf(b, t)) == ([link] + rest) + LinksOf(b, t);
    }
  }

  /** Scans a text once from left to right; slicing never splits a character. */
  method ParseWikiLinks(markdown: string) returns (links: seq<WikiLink>)
    ensures Inside(Encode(markdown), Spans(Encode(markdown), 0))
    ensures links == LinksOf(Encode(markdown), Spans(Encode(markdown), 0))
  {
    hide Encode, Decode, ParseInnerLink, Spans, LinksOf, FindPair;
    var bytes := Encode(markdown);
    links := [];
    var index := 0;
    ghost var done: seq<Span> := [];
    SpansAreProper(bytes, 0);
    NoLinks(bytes);
    assert [] + Spans(bytes, 0) == Spans(bytes, 0);
    while index + 1 < |bytes|
      invariant Spans(bytes, 0) == done + Spans(bytes, index)
      invariant Inside(bytes, done) && links == LinksOf(bytes, done)
      decreases |bytes| - index
    {
      if bytes[index] == OPEN && bytes[index + 1] == OPEN {
        var start := index;
        var close := FindClose(bytes, start + 2);
        if close.None? {
          UnclosedEndsScan(bytes, start, start);
          assert done + [] == done;
          return;
        }
        var closeStart := close.value;
        ghost var span := Span(start, closeStart + 2);
        ghost var p, q := InsideIsText(markdown, span);
        var inner := Decode(bytes[start + 2..closeStart]);
        var link := ParseInnerLink(inner.value, start, closeStart + 2);
        assert link == LinkOf(bytes, span);
        NextSpan(bytes, start, closeStart);
        OneLink(bytes, span);
        LinksConcat(bytes, done, [span]);
        if link.Some? {
          links := links + [link.value];
        }
        done := done + [span];
        index := closeStart + 2;
        continue;
      }
      SkipNonPair(bytes, index);
      index := index + 1;
    }
    NothingLeft(bytes, index);
    assert done + [] == done;
  }

  lemma {:induction false} NextSpan(b: seq<byte>, start: nat, close: nat)
    requires PairAt(b, OPEN, start) && FindPair(b, CLOSE, start + 2) == Some(close)
    ensures Spans(b, start) == [Span(start, close + 2)] + Spans(b, close + 2)
  {
  }

  lemma {:induction false} OneLink(b: seq<byte>, s: Span)
    requires s.start + 4 <= s.end <= |b|
    ensures Inside(b, [s])
    ensures LinksOf(b, [s]) == match LinkOf(b, s) case None => [] case Some(link) => [link]
  {
    assert [s][1..] == [];
  }

  lemma {:induction false} NoLinks(b: seq<byte>)
    ensures LinksOf(b, []) == []
  {
  }

  lemma {:induction false} NothingLeft(b: seq<byte>, index: nat)
    requires index + 1 >= |b|
    ensures Spans(b, index) == []
  {
  }
}
