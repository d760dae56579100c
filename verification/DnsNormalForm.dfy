/** Which names are the same name, and how a name is written label by label. */
module DnsNormalForm {
  import opened Strings
  import opened Utf8
  import opened DnsName

  predicate AllDots(s: string) {
    forall i :: 0 <= i < |s| ==> s[i] == '.'
  }

  lemma {:induction false} TrimEndMatchesStrips(s: string, dots: string)
    requires AllDots(dots) && (s != [] ==> s[|s| - 1] != '.')
    ensures TrimEndMatches(s + dots, '.') == s
    decreases |dots|
  {
    if dots == [] {
      assert s + dots == s;
    } else {
      var t := s + dots;
      assert t[..|t| - 1] == s + dots[..|dots| - 1];
      TrimEndMatchesStrips(s, dots[..|dots| - 1]);
    }
  }

  /** The normal form drops whitespace around a name, then its trailing dots, lowers it and ends it with one dot. */
  lemma {:induction false} NormalFormOf(before: string, s: string, dots: string, after: string)
    requires AllSpace(before) && AllSpace(after) && AllDots(dots) && IsTrimmed(s + dots)
    requires s != [] ==> s[|s| - 1] != '.'
    ensures Bare(before + (s + dots) + after) == s
    ensures NormalizeDnsName(before + (s + dots) + after) == if s == [] then "." else AsciiLower(s) + "."
  {
    TrimStrips(before, s + dots, after);
    TrimEndMatchesStrips(s, dots);
  }

  /** Two names have one normal form exactly when, bare, they differ in ASCII case alone. */
  lemma {:induction false} OneNormalForm(a: string, b: string)
    ensures NormalizeDnsName(a) == NormalizeDnsName(b) <==> SameButForCase(Bare(a), Bare(b))
  {
    hide Bare, AsciiLower;
    var x, y := Bare(a), Bare(b);
    LowerForgetsCaseOnly(x, y);
    if x != [] && y != [] && NormalizeDnsName(a) == NormalizeDnsName(b) {
      assert (AsciiLower(x) + ".")[..|x|] == AsciiLower(x);
      assert (AsciiLower(y) + ".")[..|y|] == AsciiLower(y);
    }
  }

  // ----- The wire form -----

  /** Each label after its length, then an empty label: section 3.1 of RFC 1035. */
  function Wire(labels: seq<string>): seq<byte>
    requires AllGood(labels)
  {
    if labels == [] then [0]
    else
      assert GoodLabel(labels[0]) && AllGood(labels[1..]);
      [|Encode(labels[0])|] + (Encode(labels[0]) + Wire(labels[1..]))
  }

  lemma {:induction false} LabelsThenRoot(labels: seq<string>, k: nat)
    requires AllGood(labels) && k <= |labels| && AllGood(labels[..k]) && AllGood(labels[k..])
    ensures EncodedLabels(labels[..k]) + Wire(labels[k..]) == Wire(labels)
    decreases k
  {
    hide Encode, GoodLabel;
    if k == 0 {
      NoLabels(labels[..0]);
      assert labels[0..] == labels && [] + Wire(labels) == Wire(labels);
    } else {
      var init := labels[..k - 1];
      assert AllGood(labels[k - 1..]) && AllGood(init);
      LabelsThenRoot(labels, k - 1);
      assert labels[..k][..k - 1] == init && labels[..k][k - 1] == labels[k - 1];
      assert labels[k - 1..][1..] == labels[k..] && labels[k - 1..][0] == labels[k - 1];
      OneMoreLabel(EncodedLabels(init), Encode(labels[k - 1]), Wire(labels[k..]), labels[k - 1]);
    }
  }

  lemma {:induction false} OneMoreLabel(a: seq<byte>, e: seq<byte>, rest: seq<byte>, text: string)
    requires GoodLabel(text) && e == Encode(text)
    ensures a + [|e|] + e + rest == a + ([|e|] + (e + rest))
  {
  }

  /** A dotted name is written as its labels between the dots. */
  lemma {:induction false} NameIsWrittenByLabel(labels: seq<string>)
    requires labels != [] && AllGood(labels) && NoneHas(labels, '.') && IsTrimmed(Join(labels, "."))
    ensures Encodable(Join(labels, ".")) && EncodedName(Join(labels, ".")) == Wire(labels)
  {
    hide Encode, EncodedLabels;
    var name := Join(labels, ".");
    TrimTrims(name);
    LastOfJoin(labels);
    TrimEndMatchesStrips(name, []);
    assert name + [] == name;
    SplitInvertsJoin(labels, '.');
    var n := |labels|;
    assert labels[..n] == labels && labels[n..] == [];
    LabelsThenRoot(labels, n);
  }

  lemma {:induction false} LastOfJoin(labels: seq<string>)
    requires labels != [] && AllGood(labels) && NoneHas(labels, '.')
    ensures Join(labels, ".") != [] && Join(labels, ".")[|Join(labels, ".")| - 1] != '.'
    decreases |labels|
  {
    hide Encode;
    assert GoodLabel(labels[0]) && '.' !in labels[0];
    if |labels| > 1 {
      LastOfJoin(labels[1..]);
      var rest := Join(labels[1..], ".");
      assert Join(labels, ".") == labels[0] + "." + rest;
    }
  }
}
