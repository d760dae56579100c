/** Rendering wiki links and reading them back. */
module WikiRender {
  import opened Base
  import opened Strings
  import opened Utf8
  import opened WikiLinks

  datatype LinkText = LinkText(target: string, heading: Option<string>, alias: Option<string>)

  function TargetPart(l: LinkText): string {
    if l.heading.Some? then l.target + ['#'] + l.heading.value else l.target
  }

  function Inner(l: LinkText): string {
    if l.alias.Some? then TargetPart(l) + ['|'] + l.alias.value else TargetPart(l)
  }

  predicate Clean(s: string) {
    s != [] && IsTrimmed(s)
  }

  /** No `]]` inside, and no `]` that would join the closing brackets. */
  ghost predicate NoBracketClash(s: string) {
    && (s != [] ==> s[|s| - 1] != ']')
    && forall i :: 0 <= i < |s| - 1 ==> !(s[i] == ']' && s[i + 1] == ']')
  }

  /** A link the syntax can express. */
  ghost predicate Renderable(l: LinkText) {
    && Clean(l.target) && '#' !in l.target && '|' !in l.target
    && (l.heading.Some? ==> Clean(l.heading.value) && '|' !in l.heading.value)
    && (l.alias.Some? ==> Clean(l.alias.value))
    && NoBracketClash(Inner(l))
  }

  /** Some text and the link that follows it. */
  datatype Piece = Piece(text: string, link: LinkText)

  function Render(pieces: seq<Piece>, tail: string): string {
    if pieces == [] then tail
    else pieces[0].text + ("[[" + (Inner(pieces[0].link) + ("]]" + Render(pieces[1..], tail))))
  }

  /** The links a rendering contains, with their byte offsets. */
  function Expected(pieces: seq<Piece>, at: nat): seq<WikiLink> {
    if pieces == [] then []
    else
      var l := pieces[0].link;
      var start := at + |Encode(pieces[0].text)|;
      var end := start + 4 + |Encode(Inner(l))|;
      [WikiLink(l.target, l.heading, l.alias, Inner(l), start, end)] + Expected(pieces[1..], end)
  }

  ghost predicate AllRenderable(pieces: seq<Piece>, tail: string) {
    && '[' !in tail
    && forall k :: 0 <= k < |pieces| ==> '[' !in pieces[k].text && Renderable(pieces[k].link)
  }

  // ----- The inside -----

  lemma {:induction false} TrimKeepsClean(s: string)
    requires Clean(s)
    ensures Trim(s) == s
  {
    hide IsWhitespace;
    TrimTrims(s);
  }

  lemma {:induction false} PartsAreClean(l: LinkText)
    requires Renderable(l)
    ensures Clean(TargetPart(l)) && Clean(Inner(l)) && '|' !in TargetPart(l)
  {
    hide IsWhitespace;
  }

  /** Every renderable link parses back to its parts. */
  lemma {:induction false} InnerParsesBack(l: LinkText, start: nat, end: nat)
    requires Renderable(l)
    ensures ParseInnerLink(Inner(l), start, end) == Some(WikiLink(l.target, l.heading, l.alias, Inner(l), start, end))
  {
    hide Trim, IsTrimmed, IsWhitespace, SplitOnce, NoBracketClash;
    PartsAreClean(l);
    TrimKeepsClean(Inner(l));
    TrimKeepsClean(TargetPart(l));
    TrimKeepsClean(l.target);
    if l.alias.Some? {
      SplitOnceFinds(TargetPart(l), '|', l.alias.value);
      TrimKeepsClean(l.alias.value);
    } else {
      SplitOnceMisses(Inner(l), '|');
    }
    if l.heading.Some? {
      SplitOnceFinds(l.target, '#', l.heading.value);
      TrimKeepsClean(l.heading.value);
    } else {
      SplitOnceMisses(l.target, '#');
    }
  }

  // ----- Any inside -----

  /** A part that is written and not blank, trimmed. */
  function Filled(part: Option<string>): Option<string> {
    if part.Some? && !AllSpace(part.value) then Some(Trim(part.value)) else None
  }

  /** The target holds neither separator and the heading no bar; an alias may hold anything. */
  predicate Separated(l: LinkText) {
    && '#' !in l.target && '|' !in l.target
    && (l.heading.Some? ==> '|' !in l.heading.value)
  }

  lemma {:induction false} PartDecomposes(part: string) returns (target: string, heading: Option<string>)
    ensures '#' !in target && part == if heading.Some? then target + ['#'] + heading.value else target
    ensures '|' !in part ==> '|' !in target && (heading.Some? ==> '|' !in heading.value)
  {
    SplitOnceMisses(part, '#');
    match SplitOnce(part, '#') {
      case None => target, heading := part, None;
      case Some((t, h)) =>
        target, heading := t, Some(h);
        PartKeepsOut([], t, ['#'] + h, '|');
        PartKeepsOut(t + ['#'], h, [], '|');
        assert [] + t + (['#'] + h) == part && t + ['#'] + h + [] == part;
    }
  }

  /** Every inside is a target, with or without a heading, with or without an alias. */
  lemma {:induction false} InnerDecomposes(inner: string) returns (l: LinkText)
    ensures Separated(l) && Inner(l) == inner
  {
    SplitOnceMisses(inner, '|');
    match SplitOnce(inner, '|') {
      case None =>
        var t, h := PartDecomposes(inner);
        l := LinkText(t, h, None);
      case Some((part, alias)) =>
        var t, h := PartDecomposes(part);
        l := LinkText(t, h, Some(alias));
    }
  }

  /**
   An inside is a link exactly if its target is not blank; every part is trimmed, and a
   blank heading or alias counts as none.
   */
  lemma {:induction false} InnerParses(l: LinkText, start: nat, end: nat)
    requires Separated(l)
    ensures ParseInnerLink(Inner(l), start, end)
         == if AllSpace(l.target) then None
            else Some(WikiLink(Trim(l.target), Filled(l.heading), Filled(l.alias), Trim(Inner(l)), start, end))
  {
    hide Trim, TrimStart, TrimEnd, IsWhitespace, SplitOnce, AllSpace;
    assert !IsWhitespace('|') && !IsWhitespace('#') by { SeparatorsAreNotSpace(); }
    var part := TargetPart(l);
    TargetPartTrims(l);
    TrimEmpties(l.target);
    if l.alias.Some? {
      var a := l.alias.value;
      TrimAround(part, '|', a);
      PartHasNoBar(l);
      TrimKeepsOut(part, '|');
      SplitOnceFinds(TrimStart(part), '|', TrimEnd(a));
      TrimAfterSide(part);
      TrimAfterSide(a);
      TrimEmpties(a);
    } else {
      PartHasNoBar(l);
      TrimKeepsOut(part, '|');
      SplitOnceMisses(Trim(part), '|');
    }
    if l.heading.Some? {
      TrimEmpties(l.heading.value);
    }
  }

  lemma {:induction false} SeparatorsAreNotSpace()
    ensures !IsWhitespace('|') && !IsWhitespace('#')
  {
  }

  lemma {:induction false} PartHasNoBar(l: LinkText)
    requires Separated(l)
    ensures '|' !in TargetPart(l)
  {
  }

  /** What trimming and splitting the target part yields. */
  lemma {:induction false} TargetPartTrims(l: LinkText)
    requires Separated(l)
    ensures var part := Trim(TargetPart(l));
            var hash := SplitOnce(part, '#');
            && (part == [] ==> Trim(l.target) == [])
            && (hash.Some? <==> l.heading.Some?)
            && (hash.Some? ==> Trim(hash.value.0) == Trim(l.target) && Trim(hash.value.1) == Trim(l.heading.value))
            && (hash.None? ==> part == Trim(l.target))
  {
    hide Trim, TrimStart, TrimEnd, IsWhitespace, SplitOnce;
    SeparatorsAreNotSpace();
    TrimKeepsOut(l.target, '#');
    if l.heading.Some? {
      var h := l.heading.value;
      TrimAround(l.target, '#', h);
      SplitOnceFinds(TrimStart(l.target), '#', TrimEnd(h));
      TrimAfterSide(l.target);
      TrimAfterSide(h);
    } else {
      SplitOnceMisses(Trim(l.target), '#');
    }
  }

  // ----- Brackets in bytes and in characters -----

  lemma {:induction false} BracketByteIsBracket(s: string, i: nat, c: char) returns (j: nat)
    requires i < |Encode(s)| && c as int < 0x80 && Encode(s)[i] == c as int
    ensures j < |s| && s[j] == c && BoundaryAt(s, i, j) && BoundaryAt(s, i + 1, j + 1)
  {
    hide Encode;
    j := AsciiIsBoundary(s, i);
  }

  lemma {:induction false} TextWithoutOpen(s: string, i: nat)
    requires '[' !in s && i < |Encode(s)|
    ensures Encode(s)[i] != OPEN
  {
    hide Encode;
    if Encode(s)[i] == OPEN {
      var j := BracketByteIsBracket(s, i, '[');
    }
  }

  lemma {:induction false} InnerWithoutClose(s: string, i: nat)
    requires NoBracketClash(s) && i < |Encode(s)|
    ensures !PairAt(Encode(s), CLOSE, i)
    ensures i == |Encode(s)| - 1 ==> Encode(s)[i] != CLOSE
  {
    hide Encode;
    if Encode(s)[i] == CLOSE {
      var j := BracketByteIsBracket(s, i, ']');
      if i + 1 < |Encode(s)| {
        if Encode(s)[i + 1] == CLOSE {
          var k := BracketByteIsBracket(s, i + 1, ']');
          if k < j + 1 { BoundaryOrder(s, k, j + 1); }
          if j + 1 < k { BoundaryOrder(s, j + 1, k); }
        }
      } else {
        assert s[..|s|] == s;
        if j + 1 < |s| { BoundaryOrder(s, j + 1, |s|); }
      }
    }
  }

  // ----- Reading a rendering back -----

  lemma {:induction false} FoundAt(b: seq<byte>, c: byte, from: nat, k: nat)
    requires from <= k && PairAt(b, c, k) && forall i :: from <= i < k ==> !PairAt(b, c, i)
    ensures FindPair(b, c, from) == Some(k)
  {
  }

  /** A text without `[` holds no link. */
  lemma {:induction false} TailHasNoLinks(b: seq<byte>, at: nat, tail: string)
    requires at <= |b| && b[at..] == Encode(tail) && '[' !in tail
    ensures Spans(b, at) == []
  {
    hide Encode;
    forall i | at <= i ensures !PairAt(b, OPEN, i) {
      if PairAt(b, OPEN, i) {
        assert b[at..][i - at] == OPEN;
        TextWithoutOpen(tail, i - at);
      }
    }
  }

  lemma {:induction false} PieceBytes(p: Piece, rest: string)
    ensures Encode(p.text + ("[[" + (Inner(p.link) + ("]]" + rest))))
         == Encode(p.text) + [OPEN, OPEN] + Encode(Inner(p.link)) + [CLOSE, CLOSE] + Encode(rest)
  {
    var inner := Inner(p.link);
    hide Encode, EncodeChar, Inner;
    EncodeTwo('[');
    EncodeTwo(']');
    EncodeConcat("]]", rest);
    EncodeConcat(inner, "]]" + rest);
    EncodeConcat("[[", inner + ("]]" + rest));
    EncodeConcat(p.text, "[[" + (inner + ("]]" + rest)));
    var t, n, r := Encode(p.text), Encode(inner), Encode(rest);
    Associate(t, [OPEN, OPEN], n, [CLOSE, CLOSE], r);
  }

  lemma {:induction false} Associate<T>(a: seq<T>, b: seq<T>, c: seq<T>, d: seq<T>, e: seq<T>)
    ensures a + (b + (c + (d + e))) == a + b + c + d + e
  {
  }

  lemma {:induction false} EncodeTwo(c: char)
    requires c as int < 0x80
    ensures Encode([c, c]) == [c as int, c as int]
  {
    assert [c, c][1..] == [c];
    EncodeOne(c);
  }

  /** The scanner finds a rendered link exactly where it was written. */
  lemma {:induction false} FindsPiece(b: seq<byte>, at: nat, t: seq<byte>, n: seq<byte>, r: seq<byte>)
    requires at <= |b| && b[at..] == t + [OPEN, OPEN] + n + [CLOSE, CLOSE] + r
    requires forall i :: 0 <= i < |t| ==> t[i] != OPEN
    requires forall i :: 0 <= i < |n| ==> !PairAt(n, CLOSE, i)
    requires n != [] ==> n[|n| - 1] != CLOSE
    ensures var s := at + |t|;
            var e := s + 2 + |n|;
            && e + 2 <= |b| && b[s + 2..e] == n && b[e + 2..] == r
            && Spans(b, at) == [Span(s, e + 2)] + Spans(b, e + 2)
  {
    hide Spans, FindPair;
    var w := t + [OPEN, OPEN] + n + [CLOSE, CLOSE] + r;
    var s := at + |t|;
    var e := s + 2 + |n|;
    Layout(w, t, n, r);
    TailIsCopy(b, at, w);
    assert b[s + 2..e] == w[|t| + 2..|t| + 2 + |n|];
    assert b[e + 2..] == w[|t| + 4 + |n|..];
    forall i | at <= i < s ensures !PairAt(b, OPEN, i) { assert b[at + (i - at)] == w[i - at] == t[i - at]; }
    PairIsCopied(b, at, w, OPEN, |t|);
    PairIsCopied(b, at, w, CLOSE, |t| + 2 + |n|);
    FoundAt(b, OPEN, at, s);
    forall i | s + 2 <= i < e ensures !PairAt(b, CLOSE, i) { InnerPair(b, s + 2, n, i); }
    FoundAt(b, CLOSE, s + 2, e);
    SkipTo(b, at, s);
    NextSpan(b, s, e);
  }

  lemma {:induction false} TailIsCopy(b: seq<byte>, at: nat, w: seq<byte>)
    requires at <= |b| && b[at..] == w
    ensures |b| == at + |w| && forall i :: 0 <= i < |w| ==> b[at + i] == w[i]
  {
    assert forall i :: 0 <= i < |w| ==> b[at..][i] == b[at + i];
  }

  lemma {:induction false} PairIsCopied(b: seq<byte>, at: nat, w: seq<byte>, c: byte, i: nat)
    requires |b| == at + |w| && forall k :: 0 <= k < |w| ==> b[at + k] == w[k]
    requires PairAt(w, c, i)
    ensures PairAt(b, c, at + i)
  {
    assert b[at + i] == w[i] && b[at + (i + 1)] == w[i + 1];
  }

  lemma {:induction false} Layout(w: seq<byte>, t: seq<byte>, n: seq<byte>, r: seq<byte>)
    requires w == t + [OPEN, OPEN] + n + [CLOSE, CLOSE] + r
    ensures |w| == |t| + 4 + |n| + |r|
    ensures forall i :: 0 <= i < |t| ==> w[i] == t[i]
    ensures PairAt(w, OPEN, |t|) && PairAt(w, CLOSE, |t| + 2 + |n|)
    ensures w[|t| + 2..|t| + 2 + |n|] == n && w[|t| + 4 + |n|..] == r
  {
  }

  lemma {:induction false} InnerPair(b: seq<byte>, at: nat, n: seq<byte>, i: nat)
    requires at <= i < at + |n| && at + |n| <= |b| && b[at..at + |n|] == n
    requires forall k :: 0 <= k < |n| ==> !PairAt(n, CLOSE, k)
    requires n[|n| - 1] != CLOSE
    ensures !PairAt(b, CLOSE, i)
  {
    var k := i - at;
    assert b[i] == b[at..at + |n|][k];
    if k + 1 < |n| {
      assert b[i + 1] == b[at..at + |n|][k + 1];
      assert !PairAt(n, CLOSE, k);
    }
  }

  lemma {:induction false} SkipTo(b: seq<byte>, at: nat, s: nat)
    requires FindPair(b, OPEN, at) == Some(s)
    ensures Spans(b, at) == Spans(b, s)
  {
    hide FindPair, PairAt;
    FoundAt(b, OPEN, s, s);
  }

  /** A rendered piece is found first, reads as its link, and leaves the rest of the rendering. */
  lemma {:induction false} PieceIsFound(b: seq<byte>, at: nat, p: Piece, rest: string)
    requires at <= |b| && b[at..] == Encode(p.text + ("[[" + (Inner(p.link) + ("]]" + rest))))
    requires '[' !in p.text && Renderable(p.link)
    ensures var start := at + |Encode(p.text)|;
            var end := start + 4 + |Encode(Inner(p.link))|;
            && end <= |b| && b[end..] == Encode(rest)
            && Spans(b, at) == [Span(start, end)] + Spans(b, end)
            && LinkOf(b, Span(start, end))
               == Some(WikiLink(p.link.target, p.link.heading, p.link.alias, Inner(p.link), start, end))
  {
    hide Encode, Decode, Inner, Renderable, ParseInnerLink, Spans;
    var t, n, r := Encode(p.text), Encode(Inner(p.link)), Encode(rest);
    PieceBytes(p, rest);
    forall i | 0 <= i < |t| ensures t[i] != OPEN { TextWithoutOpen(p.text, i); }
    NoClash(p.link);
    forall i | 0 <= i < |n| ensures !PairAt(n, CLOSE, i) { InnerWithoutClose(Inner(p.link), i); }
    if n != [] { InnerWithoutClose(Inner(p.link), |n| - 1); }
    FindsPiece(b, at, t, n, r);
    DecodeInvertsEncode(Inner(p.link));
    InnerParsesBack(p.link, at + |t|, at + |t| + 4 + |n|);
  }

  /** Parsing a rendering yields the rendered links, in order, with their offsets. */
  lemma {:induction false} RenderingParsesBack(b: seq<byte>, at: nat, pieces: seq<Piece>, tail: string)
    requires at <= |b| && b[at..] == Encode(Render(pieces, tail)) && AllRenderable(pieces, tail)
    ensures Inside(b, Spans(b, at)) && LinksOf(b, Spans(b, at)) == Expected(pieces, at)
    decreases |pieces|
  {
    hide Encode, Inner, Renderable, LinkOf, Spans;
    if pieces == [] {
      TailHasNoLinks(b, at, tail);
    } else {
      var p := pieces[0];
      PieceIsFound(b, at, p, Render(pieces[1..], tail));
      var start := at + |Encode(p.text)|;
      var end := start + 4 + |Encode(Inner(p.link))|;
      RenderingParsesBack(b, end, pieces[1..], tail);
      assert ([Span(start, end)] + Spans(b, end))[1..] == Spans(b, end);
    }
  }

  lemma {:induction false} NoClash(l: LinkText)
    requires Renderable(l)
    ensures NoBracketClash(Inner(l))
  {
  }
}
