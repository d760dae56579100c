/**
 Section tree and stable section ids: from the list of headings of a document, in
 order, to sections with parent links and ids.
 */
module Sections {
  import opened Base
  import opened Strings

  // ----- Slugs and ids -----

  predicate IsSlugChar(c: char) {
    'a' <= c <= 'z' || '0' <= c <= '9'
  }

  /**
   Lower-casing one character and replacing everything that is not an ASCII letter
   or digit by a hyphen. Only two characters outside ASCII have a lower-case form
   with an ASCII letter in it: the Kelvin sign and the dotted capital I, whose form
   is an i and a combining dot.
   */
  function SlugChars(c: char): string {
    if IsSlugChar(c) then [c]
    else if 'A' <= c <= 'Z' then [LowerChar(c)]
    else if c as int == 0x212A then "k"
    else if c as int == 0x0130 then "i-"
    else "-"
  }

  function RawSlug(s: string): string {
    if s == [] then [] else SlugChars(s[0]) + RawSlug(s[1..])
  }

  function NonEmpty(parts: seq<string>): seq<string> {
    if parts == [] then []
    else if parts[0] == [] then NonEmpty(parts[1..])
    else [parts[0]] + NonEmpty(parts[1..])
  }

  function Slugify(heading: string): string {
    Join(NonEmpty(Split(RawSlug(Trim(heading)), '-')), "-")
  }

  function MakeSectionId(ancestors: seq<string>, heading: string, level: nat, ordinal: nat): string {
    var slug := Slugify(heading);
    var leaf := if slug == [] then "h" + Decimal(level) + "_" + Decimal(ordinal) else slug;
    if ancestors == [] then leaf else Join(ancestors, "/") + "/" + leaf
  }

  function Disambiguate(baseId: string, occurrence: nat): string {
    if occurrence <= 1 then baseId else baseId + "~" + Decimal(occurrence)
  }

  // ----- The shape of slugs -----

  /** Lower-case ASCII words joined by single hyphens. */
  ghost predicate IsSlug(s: string) {
    && (forall i :: 0 <= i < |s| ==> IsSlugChar(s[i]) || s[i] == '-')
    && (s != [] ==> s[0] != '-' && s[|s| - 1] != '-')
    && (forall i :: 0 <= i < |s| - 1 ==> !(s[i] == '-' && s[i + 1] == '-'))
  }

  ghost predicate IsWord(s: string) {
    s != [] && forall i :: 0 <= i < |s| ==> IsSlugChar(s[i])
  }

  ghost predicate AllWords(parts: seq<string>) {
    forall i :: 0 <= i < |parts| ==> IsWord(parts[i])
  }

  /** Characters the slug alphabet allows, hyphens included. */
  ghost predicate IsRaw(s: string) {
    forall i :: 0 <= i < |s| ==> IsSlugChar(s[i]) || s[i] == '-'
  }

  lemma {:induction false} RawSlugIsRaw(s: string)
    ensures IsRaw(RawSlug(s))
  {
    if s != [] { RawSlugIsRaw(s[1..]); }
  }

  lemma {:induction false} SplitRaw(s: string)
    requires IsRaw(s)
    ensures forall k :: 0 <= k < |Split(s, '-')| ==> Split(s, '-')[k] == [] || IsWord(Split(s, '-')[k])
  {
    if s != [] {
      SplitRaw(s[1..]);
      var rest, all := Split(s[1..], '-'), Split(s, '-');
      forall k | 0 <= k < |all| ensures all[k] == [] || IsWord(all[k]) {
        if s[0] != '-' && k == 0 {
          assert rest[0] == [] || IsWord(rest[0]);
        } else {
          assert k > 0 ==> all[k] == (if s[0] == '-' then rest[k - 1] else rest[k]);
        }
      }
    }
  }

  lemma {:induction false} NonEmptyWords(parts: seq<string>)
    requires forall k :: 0 <= k < |parts| ==> parts[k] == [] || IsWord(parts[k])
    ensures AllWords(NonEmpty(parts))
  {
    if parts != [] {
      assert parts[0] == [] || IsWord(parts[0]);
      NonEmptyWords(parts[1..]);
    }
  }

  lemma {:induction false} JoinWordsIsSlug(parts: seq<string>)
    requires AllWords(parts)
    ensures IsSlug(Join(parts, "-"))
    ensures parts != [] ==> Join(parts, "-") != []
  {
    if |parts| == 1 {
      assert IsWord(parts[0]);
    } else if |parts| > 1 {
      assert IsWord(parts[0]) && IsWord(parts[1]);
      JoinWordsIsSlug(parts[1..]);
      var rest := Join(parts[1..], "-");
      assert Join(parts, "-") == parts[0] + "-" + rest;
    }
  }

  /** Slugs are what they promise to be. */
  lemma {:induction false} SlugifyYieldsSlug(heading: string)
    ensures IsSlug(Slugify(heading))
  {
    var raw := RawSlug(Trim(heading));
    RawSlugIsRaw(Trim(heading));
    SplitRaw(raw);
    NonEmptyWords(Split(raw, '-'));
    JoinWordsIsSlug(NonEmpty(Split(raw, '-')));
  }

  /** A non-hyphen start, a non-hyphen end and no double hyphen leave no part of a raw slug empty. */
  lemma {:induction false} SlugPartsNotEmpty(s: string)
    requires s != [] ==> s[|s| - 1] != '-'
    requires forall i :: 0 <= i < |s| - 1 ==> !(s[i] == '-' && s[i + 1] == '-')
    ensures var parts := Split(s, '-');
            && (parts[0] == [] <==> s == [] || s[0] == '-')
            && forall k :: 0 < k < |parts| ==> parts[k] != []
  {
    if s != [] {
      var t := s[1..];
      forall i | 0 <= i < |t| - 1 ensures !(t[i] == '-' && t[i + 1] == '-') {
        assert t[i] == s[i + 1] && t[i + 1] == s[i + 2];
      }
      SlugPartsNotEmpty(t);
      assert s[0] == '-' ==> t != [] && t[0] == s[1];
    }
  }

  lemma {:induction false} NonEmptyKeepsAll(parts: seq<string>)
    requires forall k :: 0 <= k < |parts| ==> parts[k] != []
    ensures NonEmpty(parts) == parts
  {
    if parts != [] { NonEmptyKeepsAll(parts[1..]); }
  }

  lemma {:induction false} RawKeepsSlug(s: string)
    requires IsRaw(s)
    ensures RawSlug(s) == s && AsciiLower(s) == s && IsTrimmed(s)
  {
    if s != [] {
      RawKeepsSlug(s[1..]);
      assert s == [s[0]] + s[1..];
    }
  }

  lemma {:induction false} LowerAllKeeps(parts: seq<string>)
    requires forall k :: 0 <= k < |parts| ==> parts[k] == [] || IsWord(parts[k])
    ensures LowerAll(parts) == parts
  {
    forall k | 0 <= k < |parts| ensures AsciiLower(parts[k]) == parts[k] {
      assert IsRaw(parts[k]);
      RawKeepsSlug(parts[k]);
    }
  }

  /** A slug is its own slug, so taking slugs twice changes nothing. */
  lemma {:induction false} SlugIsItsOwnSlug(s: string)
    requires IsSlug(s)
    ensures Slugify(s) == s
  {
    hide IsSlugChar, IsWhitespace, SlugChars;
    assert IsRaw(s);
    RawKeepsSlug(s);
    TrimTrims(s);
    var parts := Split(s, '-');
    if s == [] {
      assert parts == [[]] && NonEmpty(parts[1..]) == [];
    } else {
      SlugPartsNotEmpty(s);
      NonEmptyKeepsAll(parts);
      SplitRaw(s);
      LowerAllKeeps(parts);
      JoinLoweredSplit(s, '-');
    }
  }

  // ----- Base ids carry no ordinal suffix -----

  ghost predicate NoTilde(s: string) {
    '~' !in s
  }

  lemma {:induction false} SlugHasNoTilde(heading: string)
    ensures NoTilde(Slugify(heading))
  {
    SlugifyYieldsSlug(heading);
  }

  lemma {:induction false} JoinHasNoTilde(parts: seq<string>)
    requires forall k :: 0 <= k < |parts| ==> NoTilde(parts[k])
    ensures NoTilde(Join(parts, "/"))
  {
    if |parts| > 1 { JoinHasNoTilde(parts[1..]); }
  }

  lemma {:induction false} BaseIdHasNoTilde(ancestors: seq<string>, heading: string, level: nat, ordinal: nat)
    requires forall k :: 0 <= k < |ancestors| ==> NoTilde(ancestors[k])
    ensures NoTilde(MakeSectionId(ancestors, heading, level, ordinal))
  {
    SlugHasNoTilde(heading);
    JoinHasNoTilde(ancestors);
    hide Slugify, Join;
  }

  /** Base id and occurrence can be read back from an id. */
  lemma {:induction false} DisambiguateIsInjective(a: string, m: nat, b: string, n: nat)
    requires NoTilde(a) && NoTilde(b) && m > 0 && n > 0
    requires Disambiguate(a, m) == Disambiguate(b, n)
    ensures a == b && m == n
  {
    hide Decimal;
    if m > 1 { SplitOnceFinds(a, '~', Decimal(m)); } else { SplitOnceMisses(a, '~'); }
    if n > 1 { SplitOnceFinds(b, '~', Decimal(n)); } else { SplitOnceMisses(b, '~'); }
    if m > 1 && n > 1 { DecimalIsInjective(m, n); }
  }

  // ----- The naive definition of the tree -----

  datatype SectionDraft = SectionDraft(heading: string, level: nat, startLine: nat)

  datatype Section =
    Section(id: string, parentId: Option<string>, heading: string, level: nat, startLine: nat, endLine: nat)

  /** The nearest draft before `i` of smaller level than the given one. */
  function Nearest(drafts: seq<SectionDraft>, i: nat, level: nat): (r: Option<nat>)
    requires i <= |drafts|
    ensures r.Some? ==> r.value < i && drafts[r.value].level < level
    ensures r.Some? ==> forall k :: r.value < k < i ==> drafts[k].level >= level
    ensures r.None? ==> forall k :: 0 <= k < i ==> drafts[k].level >= level
  {
    if i == 0 then None
    else if drafts[i - 1].level < level then Some(i - 1)
    else Nearest(drafts, i - 1, level)
  }

  function ParentOf(drafts: seq<SectionDraft>, i: nat): Option<nat>
    requires i < |drafts|
  {
    Nearest(drafts, i, drafts[i].level)
  }

  /** The ancestors of section `i`, outermost first. */
  function Chain(drafts: seq<SectionDraft>, i: nat): (r: seq<nat>)
    requires i < |drafts|
    ensures forall k :: 0 <= k < |r| ==> r[k] < i
    decreases i
  {
    match ParentOf(drafts, i)
    case None => []
    case Some(j) => Chain(drafts, j) + [j]
  }

  function SlugsOf(drafts: seq<SectionDraft>, chain: seq<nat>): (r: seq<string>)
    requires forall k :: 0 <= k < |chain| ==> chain[k] < |drafts|
    ensures |r| == |chain| && forall k :: 0 <= k < |chain| ==> r[k] == Slugify(drafts[chain[k]].heading)
  {
    seq(|chain|, k requires 0 <= k < |chain| => Slugify(drafts[chain[k]].heading))
  }

  function BaseId(drafts: seq<SectionDraft>, i: nat): string
    requires i < |drafts|
  {
    MakeSectionId(SlugsOf(drafts, Chain(drafts, i)), drafts[i].heading, drafts[i].level, i + 1)
  }

  /** How many of the first `n` sections have this base id. */
  function CountBase(drafts: seq<SectionDraft>, n: nat, b: string): nat
    requires n <= |drafts|
  {
    if n == 0 then 0 else CountBase(drafts, n - 1, b) + (if BaseId(drafts, n - 1) == b then 1 else 0)
  }

  function IdOf(drafts: seq<SectionDraft>, i: nat): string
    requires i < |drafts|
  {
    Disambiguate(BaseId(drafts, i), CountBase(drafts, i + 1, BaseId(drafts, i)))
  }

  function SectionOf(drafts: seq<SectionDraft>, i: nat, totalLines: nat): Section
    requires i < |drafts|
  {
    Section(IdOf(drafts, i),
            match ParentOf(drafts, i) case None => None case Some(j) => Some(IdOf(drafts, j)),
            Trim(drafts[i].heading), drafts[i].level, drafts[i].startLine,
            if i + 1 < |drafts| then drafts[i + 1].startLine else totalLines + 1)
  }

  // ----- What the definition guarantees -----

  /** Positions and levels both strictly increase. */
  ghost predicate Rises(drafts: seq<SectionDraft>, chain: seq<nat>) {
    && (forall a :: 0 <= a < |chain| ==> chain[a] < |drafts|)
    && (forall a, b :: 0 <= a < b < |chain| ==> chain[a] < chain[b] && drafts[chain[a]].level < drafts[chain[b]].level)
  }

  lemma {:induction false} RisesWith(drafts: seq<SectionDraft>, chain: seq<nat>, i: nat)
    requires Rises(drafts, chain) && i < |drafts|
    requires chain != [] ==> chain[|chain| - 1] < i && drafts[chain[|chain| - 1]].level < drafts[i].level
    ensures Rises(drafts, chain + [i])
  {
    var n := |chain|;
    forall a | 0 <= a < n ensures chain[a] < i && drafts[chain[a]].level < drafts[i].level {
      if a < n - 1 {
        assert chain[a] < chain[n - 1] && drafts[chain[a]].level < drafts[chain[n - 1]].level;
      }
    }
  }

  /** Levels strictly increase along a chain of ancestors and up to the section itself. */
  lemma {:induction false} ChainLevelsIncrease(drafts: seq<SectionDraft>, i: nat)
    requires i < |drafts|
    ensures Rises(drafts, Chain(drafts, i) + [i])
    decreases i
  {
    if ParentOf(drafts, i).Some? { ChainLevelsIncrease(drafts, ParentOf(drafts, i).value); }
    RisesWith(drafts, Chain(drafts, i), i);
  }

  lemma {:induction false} CountGrows(drafts: seq<SectionDraft>, m: nat, n: nat, b: string)
    requires m <= n <= |drafts|
    ensures CountBase(drafts, m, b) <= CountBase(drafts, n, b)
    decreases n
  {
    hide BaseId;
    if m < n { CountGrows(drafts, m, n - 1, b); }
  }

  lemma {:induction false} BaseIdOfDraftHasNoTilde(drafts: seq<SectionDraft>, i: nat)
    requires i < |drafts|
    ensures NoTilde(BaseId(drafts, i))
  {
    hide Slugify, MakeSectionId, NoTilde;
    var slugs := SlugsOf(drafts, Chain(drafts, i));
    forall k | 0 <= k < |slugs| ensures NoTilde(slugs[k]) {
      SlugHasNoTilde(drafts[Chain(drafts, i)[k]].heading);
    }
    BaseIdHasNoTilde(slugs, drafts[i].heading, drafts[i].level, i + 1);
  }

  /** Different sections have different ids, whatever their headings and levels. */
  lemma {:induction false} IdsAreDistinct(drafts: seq<SectionDraft>, i: nat, j: nat)
    requires i < j < |drafts|
    ensures IdOf(drafts, i) != IdOf(drafts, j)
  {
    hide BaseId, Disambiguate, NoTilde;
    BaseIdOfDraftHasNoTilde(drafts, i);
    BaseIdOfDraftHasNoTilde(drafts, j);
    var a, b := BaseId(drafts, i), BaseId(drafts, j);
    CountGrows(drafts, i + 1, j, a);
    if IdOf(drafts, i) == IdOf(drafts, j) {
      DisambiguateIsInjective(a, CountBase(drafts, i + 1, a), b, CountBase(drafts, j + 1, b));
    }
  }

  /** A parent id names exactly one section: the nearest earlier one of smaller level. */
  lemma {:induction false} ParentIdNamesParent(drafts: seq<SectionDraft>, i: nat, k: nat, totalLines: nat)
    requires i < |drafts| && k < |drafts|
    ensures SectionOf(drafts, i, totalLines).parentId == Some(SectionOf(drafts, k, totalLines).id) <==>
            (k < i && drafts[k].level < drafts[i].level && forall m :: k < m < i ==> drafts[m].level >= drafts[i].level)
  {
    hide IdOf;
    match ParentOf(drafts, i)
    case None =>
    case Some(j) =>
      if j < k { IdsAreDistinct(drafts, j, k); }
      if k < j { IdsAreDistinct(drafts, k, j); }
  }

  // ----- The stack algorithm -----

  datatype Open = Open(index: nat, slug: string)

  /** The stack holds exactly these sections, with their slugs. */
  ghost predicate Holds(stack: seq<Open>, chain: seq<nat>, drafts: seq<SectionDraft>) {
    && |stack| == |chain|
    && forall k :: 0 <= k < |chain| ==>
                     chain[k] < |drafts| && stack[k] == Open(chain[k], Slugify(drafts[chain[k]].heading))
  }

  /** The sections open after draft `j`: it and its ancestors. */
  ghost function OpenAt(drafts: seq<SectionDraft>, j: nat): seq<nat>
    requires j < |drafts|
  {
    Chain(drafts, j) + [j]
  }

  /** What the popping loop keeps: the open sections that are left still contain the parent. */
  ghost predicate StillOpen(drafts: seq<SectionDraft>, stack: seq<Open>, i: nat) {
    && i < |drafts|
    && if stack == [] then ParentOf(drafts, i) == None
       else
         var j := stack[|stack| - 1].index;
         && j < i && Holds(stack, OpenAt(drafts, j), drafts)
         && ParentOf(drafts, i) == Nearest(drafts, j + 1, drafts[i].level)
  }

  lemma {:induction false} NearestSkips(drafts: seq<SectionDraft>, i: nat, j: nat, level: nat)
    requires j <= i <= |drafts| && forall k :: j <= k < i ==> drafts[k].level >= level
    ensures Nearest(drafts, i, level) == Nearest(drafts, j, level)
    decreases i
  {
    if j < i { NearestSkips(drafts, i - 1, j, level); }
  }

  /** Popping a section that is not of smaller level leaves its ancestors, which still contain the parent. */
  lemma {:induction false} PopKeepsParent(drafts: seq<SectionDraft>, stack: seq<Open>, i: nat)
    requires StillOpen(drafts, stack, i) && stack != []
    requires drafts[stack[|stack| - 1].index].level >= drafts[i].level
    ensures StillOpen(drafts, stack[..|stack| - 1], i)
  {
    hide Slugify;
    var j := stack[|stack| - 1].index;
    var rest := stack[..|stack| - 1];
    assert Holds(rest, Chain(drafts, j), drafts);
    match ParentOf(drafts, j)
    case None =>
      NearestSkips(drafts, j + 1, 0, drafts[i].level);
      assert rest == [];
    case Some(p) =>
      NearestSkips(drafts, j + 1, p + 1, drafts[i].level);
      assert rest[|rest| - 1].index == p;
  }

  /** When popping stops, the stack is the chain of ancestors. */
  lemma {:induction false} StoppedAtChain(drafts: seq<SectionDraft>, stack: seq<Open>, i: nat)
    requires StillOpen(drafts, stack, i)
    requires stack != [] ==> drafts[stack[|stack| - 1].index].level < drafts[i].level
    ensures Holds(stack, Chain(drafts, i), drafts)
    ensures ParentOf(drafts, i) == if stack == [] then None else Some(stack[|stack| - 1].index)
  {
    hide Slugify;
  }

  /** The first `i` sections are as defined. */
  ghost predicate Built(sections: seq<Section>, drafts: seq<SectionDraft>, i: nat, totalLines: nat) {
    i <= |drafts| && |sections| == i && forall k :: 0 <= k < i ==> sections[k] == SectionOf(drafts, k, totalLines)
  }

  /** Closes the sections that the next draft does not belong to. */
  method PopClosed(drafts: seq<SectionDraft>, sections: seq<Section>, before: seq<Open>, i: nat, ghost totalLines: nat)
    returns (stack: seq<Open>)
    requires StillOpen(drafts, before, i) && Built(sections, drafts, i, totalLines)
    ensures Holds(stack, Chain(drafts, i), drafts)
    ensures ParentOf(drafts, i) == if stack == [] then None else Some(stack[|stack| - 1].index)
  {
    hide Slugify, Chain, Nearest, IdOf;
    stack := before;
    while stack != []
      invariant StillOpen(drafts, stack, i)
      decreases |stack|
    {
      var lastIndex := stack[|stack| - 1].index;
      if sections[lastIndex].level >= drafts[i].level {
        PopKeepsParent(drafts, stack, i);
        stack := stack[..|stack| - 1];
      } else {
        break;
      }
    }
    StoppedAtChain(drafts, stack, i);
  }

  /** The counts of base ids seen so far. */
  ghost predicate Counts(counts: map<string, nat>, drafts: seq<SectionDraft>, n: nat) {
    n <= |drafts| && forall b :: CountOf(counts, b) == CountBase(drafts, n, b)
  }

  function CountOf(counts: map<string, nat>, b: string): nat {
    if b in counts then counts[b] else 0
  }

  lemma {:induction false} CountsStep(counts: map<string, nat>, drafts: seq<SectionDraft>, i: nat)
    requires i < |drafts| && Counts(counts, drafts, i)
    ensures var b := BaseId(drafts, i);
            && CountOf(counts, b) + 1 == CountBase(drafts, i + 1, b)
            && Counts(counts[b := CountOf(counts, b) + 1], drafts, i + 1)
  {
    hide BaseId;
    var b := BaseId(drafts, i);
    var counts' := counts[b := CountOf(counts, b) + 1];
    forall c ensures CountOf(counts', c) == CountBase(drafts, i + 1, c) {
      assert c != b ==> CountOf(counts', c) == CountOf(counts, c);
    }
  }

  function StackSlugs(stack: seq<Open>): (r: seq<string>)
    ensures |r| == |stack| && forall k :: 0 <= k < |stack| ==> r[k] == stack[k].slug
  {
    seq(|stack|, k requires 0 <= k < |stack| => stack[k].slug)
  }

  /** The ancestor slugs on the stack give the defined base id, and its top is an earlier section. */
  lemma {:induction false} StackYieldsBaseId(drafts: seq<SectionDraft>, i: nat, stack: seq<Open>)
    requires i < |drafts| && Holds(stack, Chain(drafts, i), drafts)
    ensures MakeSectionId(StackSlugs(stack), drafts[i].heading, drafts[i].level, i + 1) == BaseId(drafts, i)
    ensures stack != [] ==> stack[|stack| - 1].index < i
  {
    hide Slugify, MakeSectionId;
    assert StackSlugs(stack) == SlugsOf(drafts, Chain(drafts, i));
  }

  /** What the pass computes for draft `i` is the defined section. */
  lemma {:induction false} StackYieldsSection(drafts: seq<SectionDraft>, i: nat, sections: seq<Section>,
                                              totalLines: nat, section: Section)
    requires i < |drafts| && Built(sections, drafts, i, totalLines)
    requires ParentOf(drafts, i).Some? ==> ParentOf(drafts, i).value < |sections|
    requires section.id == Disambiguate(BaseId(drafts, i), CountBase(drafts, i + 1, BaseId(drafts, i)))
    requires section.parentId == match ParentOf(drafts, i) case None => None case Some(p) => Some(sections[p].id)
    requires section.heading == Trim(drafts[i].heading) && section.level == drafts[i].level
    requires section.startLine == drafts[i].startLine
    requires section.endLine == if i + 1 < |drafts| then drafts[i + 1].startLine else totalLines + 1
    ensures Built(sections + [section], drafts, i + 1, totalLines)
  {
    hide BaseId, Disambiguate, Trim, CountBase;
  }

  /** Sections carry their headings, trimmed, with their levels and lines, and each ends where the next one starts. */
  ghost predicate Tile(sections: seq<Section>, drafts: seq<SectionDraft>, totalLines: nat) {
    && |sections| == |drafts|
    && forall i :: 0 <= i < |sections| ==>
                     && sections[i].heading == Trim(drafts[i].heading)
                     && sections[i].level == drafts[i].level && sections[i].startLine == drafts[i].startLine
                     && sections[i].endLine
                        == if i + 1 < |sections| then sections[i + 1].startLine else totalLines + 1
  }

  lemma {:induction false} BuiltSectionsTile(sections: seq<Section>, drafts: seq<SectionDraft>, totalLines: nat)
    requires Built(sections, drafts, |drafts|, totalLines)
    ensures Tile(sections, drafts, totalLines)
  {
    hide IdOf, Trim, ParentOf;
  }

  /** One pass with a stack and counters builds exactly the naively defined sections. */
  method BuildTree(drafts: seq<SectionDraft>, totalLines: nat) returns (sections: seq<Section>)
    ensures Built(sections, drafts, |drafts|, totalLines) && Tile(sections, drafts, totalLines)
  {
    hide *;
    sections := [];
    var stack: seq<Open> := [];
    var idCounts: map<string, nat> := map[];
    NothingBuilt(drafts, totalLines);
    for i := 0 to |drafts|
      invariant Built(sections, drafts, i, totalLines)
      invariant Counts(idCounts, drafts, i)
      invariant i < |drafts| ==> StillOpen(drafts, stack, i)
    {
      var draft := drafts[i];
      BuiltLength(sections, drafts, i, totalLines);
      stack := PopClosed(drafts, sections, stack, i, totalLines);
      StackYieldsBaseId(drafts, i, stack);
      var parentId := if stack == [] then None else Some(sections[stack[|stack| - 1].index].id);
      var baseId := MakeSectionId(StackSlugs(stack), draft.heading, draft.level, i + 1);
      CountsStep(idCounts, drafts, i);
      idCounts := idCounts[baseId := CountOf(idCounts, baseId) + 1];
      var id := Disambiguate(baseId, idCounts[baseId]);
      var thisSlug := Slugify(draft.heading);
      var endLine := if i + 1 < |drafts| then drafts[i + 1].startLine else totalLines + 1;
      var section := Section(id, parentId, Trim(draft.heading), draft.level, draft.startLine, endLine);
      StackYieldsSection(drafts, i, sections, totalLines, section);
      sections := sections + [section];
      if i + 1 < |drafts| { PushOpens(drafts, stack, i); }
      stack := stack + [Open(i, thisSlug)];
    }
    BuiltSectionsTile(sections, drafts, totalLines);
  }

  lemma {:induction false} BuiltLength(sections: seq<Section>, drafts: seq<SectionDraft>, i: nat, totalLines: nat)
    requires Built(sections, drafts, i, totalLines)
    ensures |sections| == i
  {
  }

  lemma {:induction false} NothingBuilt(drafts: seq<SectionDraft>, totalLines: nat)
    ensures Built([], drafts, 0, totalLines) && Counts(map[], drafts, 0)
    ensures drafts != [] ==> StillOpen(drafts, [], 0)
  {
  }

  lemma {:induction false} PushOpens(drafts: seq<SectionDraft>, stack: seq<Open>, i: nat)
    requires i + 1 < |drafts| && Holds(stack, Chain(drafts, i), drafts)
    ensures StillOpen(drafts, stack + [Open(i, Slugify(drafts[i].heading))], i + 1)
  {
    hide Slugify;
  }
}
