/** Section ids as paths, and slugs as words. */
module SectionPaths {
  import opened Base
  import opened Strings
  import opened Sections

  // ----- Ancestors -----

  /** The ancestors of a section are exactly the earlier sections whose level everything since exceeds. */
  lemma {:induction false} AncestorsEnclose(drafts: seq<SectionDraft>, i: nat, k: nat)
    requires i < |drafts|
    ensures k in Chain(drafts, i) <==> k < i && forall m :: k < m <= i ==> drafts[k].level < drafts[m].level
    decreases i
  {
    match ParentOf(drafts, i)
    case None =>
      if k < i { assert drafts[k].level >= drafts[i].level; }
    case Some(j) =>
      AncestorsEnclose(drafts, j, k);
      if j < k < i { assert drafts[k].level >= drafts[i].level; }
      if k < i && forall m :: k < m <= i ==> drafts[k].level < drafts[m].level {
        assert k <= j;
      }
  }

  // ----- Ids -----

  /** The last part of an id: the heading's slug, or the level and the position if there is none. */
  function Leaf(drafts: seq<SectionDraft>, i: nat): string
    requires i < |drafts|
  {
    var slug := Slugify(drafts[i].heading);
    if slug == [] then "h" + Decimal(drafts[i].level) + "_" + Decimal(i + 1) else slug
  }

  /** The slugs of the ancestors, outermost first, and the section's own part. */
  function Path(drafts: seq<SectionDraft>, i: nat): seq<string>
    requires i < |drafts|
  {
    SlugsOf(drafts, Chain(drafts, i)) + [Leaf(drafts, i)]
  }

  lemma {:induction false} LeafHasNoSlash(drafts: seq<SectionDraft>, i: nat)
    requires i < |drafts|
    ensures '/' !in Leaf(drafts, i)
  {
    SlugifyYieldsSlug(drafts[i].heading);
    hide Slugify, Decimal;
    var l, n := Decimal(drafts[i].level), Decimal(i + 1);
    assert '/' !in l && '/' !in n;
  }

  lemma {:induction false} PathHasNoSlash(drafts: seq<SectionDraft>, i: nat)
    requires i < |drafts|
    ensures NoneHas(Path(drafts, i), '/')
  {
    hide Slugify, Leaf;
    var slugs := SlugsOf(drafts, Chain(drafts, i));
    forall k | 0 <= k < |slugs| ensures '/' !in slugs[k] {
      SlugifyYieldsSlug(drafts[Chain(drafts, i)[k]].heading);
    }
    LeafHasNoSlash(drafts, i);
  }

  /** A base id is its path, and the path can be read back from it. */
  lemma {:induction false} BaseIdIsPath(drafts: seq<SectionDraft>, i: nat)
    requires i < |drafts|
    ensures BaseId(drafts, i) == Join(Path(drafts, i), "/")
    ensures Split(BaseId(drafts, i), '/') == Path(drafts, i)
  {
    hide Slugify, Split, Chain;
    var slugs, leaf := SlugsOf(drafts, Chain(drafts, i)), Leaf(drafts, i);
    if slugs != [] { JoinConcat(slugs, [leaf], "/"); }
    PathHasNoSlash(drafts, i);
    SplitInvertsJoin(Path(drafts, i), '/');
  }

  /** The earlier sections with the same path. */
  ghost function Earlier(drafts: seq<SectionDraft>, i: nat): set<nat>
    requires i < |drafts|
  {
    set k: nat | k < i && Path(drafts, k) == Path(drafts, i)
  }

  ghost function Like(drafts: seq<SectionDraft>, n: nat, path: seq<string>): set<nat>
    requires n <= |drafts|
  {
    set k: nat | k < n && Path(drafts, k) == path
  }

  lemma {:induction false} CountIsCardinality(drafts: seq<SectionDraft>, n: nat, i: nat)
    requires n <= |drafts| && i < |drafts|
    ensures CountBase(drafts, n, BaseId(drafts, i)) == |Like(drafts, n, Path(drafts, i))|
  {
    hide BaseId, Path;
    if n > 0 {
      CountIsCardinality(drafts, n - 1, i);
      BaseIdIsPath(drafts, n - 1);
      BaseIdIsPath(drafts, i);
      var before, all := Like(drafts, n - 1, Path(drafts, i)), Like(drafts, n, Path(drafts, i));
      if Path(drafts, n - 1) == Path(drafts, i) {
        assert all == before + {n - 1};
      } else {
        assert all == before;
      }
    } else {
      assert Like(drafts, 0, Path(drafts, i)) == {};
    }
  }

  /**
   The id of a section is its path, followed by its number among the sections with
   that path unless it is the first; the path can be read back from it.
   */
  lemma {:induction false} IdIsPath(drafts: seq<SectionDraft>, i: nat)
    requires i < |drafts|
    ensures IdOf(drafts, i) == Join(Path(drafts, i), "/")
                               + if Earlier(drafts, i) == {} then "" else "~" + Decimal(|Earlier(drafts, i)| + 1)
    ensures Split(Split(IdOf(drafts, i), '~')[0], '/') == Path(drafts, i)
  {
    hide BaseId, Path, Decimal;
    var b := BaseId(drafts, i);
    CountIsCardinality(drafts, i, i);
    assert Like(drafts, i, Path(drafts, i)) == Earlier(drafts, i);
    BaseIdIsPath(drafts, i);
    BaseIdOfDraftHasNoTilde(drafts, i);
    SplitOfPart(b, '~');
    SplitOfFirst(b, Decimal(|Earlier(drafts, i)| + 1), '~');
    assert b + "" == b && b + "~" + Decimal(|Earlier(drafts, i)| + 1) == b + ("~" + Decimal(|Earlier(drafts, i)| + 1));
  }

  // ----- Slugs as words -----

  predicate IsWordChar(c: char) {
    'a' <= c <= 'z' || 'A' <= c <= 'Z' || '0' <= c <= '9'
  }

  /** Not part of a word; the two characters whose lower-case form has an ASCII letter are neither. */
  predicate IsGapChar(c: char) {
    !IsWordChar(c) && c as int != 0x212A && c as int != 0x0130
  }

  predicate WordsOnly(words: seq<string>) {
    forall k :: 0 <= k < |words| ==> words[k] != [] && forall i :: 0 <= i < |words[k]| ==> IsWordChar(words[k][i])
  }

  predicate IsGap(s: string) {
    forall i :: 0 <= i < |s| ==> IsGapChar(s[i])
  }

  /** One gap before each word and one at the end; between words a gap is not empty. */
  predicate GapsFor(gaps: seq<string>, words: seq<string>) {
    && |gaps| == |words| + 1
    && (forall k :: 0 <= k < |gaps| ==> IsGap(gaps[k]))
    && (forall k :: 0 < k < |words| ==> gaps[k] != [])
  }

  function Interleave(gaps: seq<string>, words: seq<string>): string
    requires |gaps| == |words| + 1
  {
    if words == [] then gaps[0] else gaps[0] + (words[0] + Interleave(gaps[1..], words[1..]))
  }

  /** The words of a raw slug. */
  function Parts(s: string): seq<string> {
    NonEmpty(Split(s, '-'))
  }

  lemma {:induction false} NonEmptyConcat(a: seq<string>, b: seq<string>)
    ensures NonEmpty(a + b) == NonEmpty(a) + NonEmpty(b)
    decreases |a|
  {
    if a == [] {
      assert a + b == b;
    } else {
      assert (a + b)[1..] == a[1..] + b;
      NonEmptyConcat(a[1..], b);
    }
  }

  lemma {:induction false} PartsConcat(a: string, b: string)
    ensures Parts(a + "-" + b) == Parts(a) + Parts(b)
  {
    hide Split, NonEmpty;
    SplitConcat(a, b, '-');
    NonEmptyConcat(Split(a, '-'), Split(b, '-'));
  }

  predicate AllHyphens(s: string) {
    forall i :: 0 <= i < |s| ==> s[i] == '-'
  }

  lemma {:induction false} HyphensAround(before: string, s: string, after: string)
    requires AllHyphens(before) && AllHyphens(after)
    ensures Parts(before + s + after) == Parts(s)
    decreases |before| + |after|
  {
    hide Parts;
    NoParts();
    if before != [] {
      HyphensAround(before[1..], s, after);
      assert before + s + after == [] + "-" + (before[1..] + s + after);
      PartsConcat([], before[1..] + s + after);
    } else if after != [] {
      var rest := after[..|after| - 1];
      HyphensAround(before, s, rest);
      assert before + s + after == (before + s + rest) + "-" + [];
      PartsConcat(before + s + rest, []);
    } else {
      assert before + s + after == s;
    }
  }

  lemma {:induction false} NoParts()
    ensures Parts([]) == []
  {
    assert Split([], '-')[1..] == [];
  }

  lemma {:induction false} RawSlugConcat(a: string, b: string)
    ensures RawSlug(a + b) == RawSlug(a) + RawSlug(b)
  {
    hide SlugChars;
    if a == [] {
      assert a + b == b;
    } else {
      assert (a + b)[1..] == a[1..] + b;
      RawSlugConcat(a[1..], b);
      ConcatIsAssociative(SlugChars(a[0]), RawSlug(a[1..]), RawSlug(b));
    }
  }

  lemma {:induction false} RawGap(s: string)
    requires IsGap(s)
    ensures AllHyphens(RawSlug(s)) && |RawSlug(s)| == |s|
  {
    if s != [] {
      assert IsGapChar(s[0]);
      RawGap(s[1..]);
    }
  }

  lemma {:induction false} RawWord(w: string)
    requires forall i :: 0 <= i < |w| ==> IsWordChar(w[i])
    ensures RawSlug(w) == AsciiLower(w) && '-' !in AsciiLower(w)
  {
    if w != [] { RawWord(w[1..]); }
  }

  lemma {:induction false} SpaceIsGap(s: string)
    requires AllSpace(s)
    ensures IsGap(s)
  {
  }

  lemma {:induction false} TrimKeepsParts(s: string)
    ensures Parts(RawSlug(Trim(s))) == Parts(RawSlug(s))
  {
    hide Parts, Trim, IsGap, AllHyphens;
    var before, after := TrimDecomposes(s);
    var t := Trim(s);
    SpaceIsGap(before);
    SpaceIsGap(after);
    RawGap(before);
    RawGap(after);
    RawSlugConcat(before + t, after);
    RawSlugConcat(before, t);
    HyphensAround(RawSlug(before), RawSlug(t), RawSlug(after));
  }

  lemma {:induction false} PartsOfWords(gaps: seq<string>, words: seq<string>)
    requires WordsOnly(words) && GapsFor(gaps, words)
    ensures Parts(RawSlug(Interleave(gaps, words))) == LowerAll(words)
    decreases |words|
  {
    hide Parts, RawSlug, IsGap, AsciiLower;
    RawGap(gaps[0]);
    NoParts();
    if words == [] {
      HyphensAround(RawSlug(gaps[0]), [], []);
      assert RawSlug(gaps[0]) + [] + [] == RawSlug(gaps[0]);
    } else {
      assert words[0] != [] && IsGap(gaps[1]);
      var w, rest := AsciiLower(words[0]), Interleave(gaps[1..], words[1..]);
      var g, r := RawSlug(gaps[0]), RawSlug(rest);
      PartsOfWords(gaps[1..], words[1..]);
      RawWord(words[0]);
      RawSlugConcat(gaps[0], words[0] + rest);
      RawSlugConcat(words[0], rest);
      HyphensAround(g, w + r, []);
      assert g + (w + r) == g + (w + r) + [];
      WordThenRest(gaps[1..], words[1..], w);
      assert LowerAll(words) == [w] + LowerAll(words[1..]);
    }
  }

  /** A word in front of the rest adds itself to the parts. */
  lemma {:induction false} WordThenRest(gaps: seq<string>, words: seq<string>, w: string)
    requires |gaps| == |words| + 1 && IsGap(gaps[0]) && (words != [] ==> gaps[0] != [])
    requires w != [] && '-' !in w
    ensures var r := RawSlug(Interleave(gaps, words)); Parts(w + r) == [w] + Parts(r)
  {
    hide Parts, RawSlug;
    var all := Interleave(gaps, words);
    NoParts();
    PartsOfWord(w);
    if all == [] {
      EmptyRaw();
      assert w + RawSlug(all) == w;
    } else {
      assert gaps[0] != [];
      GapFirst(all);
      var rest := RawSlug(all[1..]);
      assert all == all[..1] + all[1..];
      assert w + ("-" + rest) == w + "-" + rest && [] + "-" + rest == "-" + rest;
      PartsConcat(w, rest);
      PartsConcat([], rest);
    }
  }

  lemma {:induction false} EmptyRaw()
    ensures RawSlug([]) == []
  {
  }

  lemma {:induction false} GapFirst(s: string)
    requires s != [] && IsGapChar(s[0])
    ensures RawSlug(s) == "-" + RawSlug(s[1..])
  {
  }

  lemma {:induction false} PartsOfWord(w: string)
    requires w != [] && '-' !in w
    ensures Parts(w) == [w]
  {
    SplitOfPart(w, '-');
    assert [w][1..] == [] && NonEmpty([]) == [];
    assert NonEmpty([w]) == [w] + NonEmpty([w][1..]);
  }

  /** The slug of a heading is its words in lower case, joined by hyphens, whatever stands between them. */
  lemma {:induction false} SlugIsWords(gaps: seq<string>, words: seq<string>)
    requires WordsOnly(words) && GapsFor(gaps, words)
    ensures Slugify(Interleave(gaps, words)) == Join(LowerAll(words), "-")
  {
    hide RawSlug, Trim, Split, NonEmpty, Join;
    TrimKeepsParts(Interleave(gaps, words));
    PartsOfWords(gaps, words);
  }
}
