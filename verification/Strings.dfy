/** The string operations the repository takes from its standard library. */
module Strings {
  import opened Base

  /** The Unicode White_Space property. */
  predicate IsWhitespace(c: char) {
    var n := c as int;
    || 0x09 <= n <= 0x0D || n == 0x20 || n == 0x85 || n == 0xA0 || n == 0x1680
    || 0x2000 <= n <= 0x200A || n == 0x2028 || n == 0x2029 || n == 0x202F || n == 0x205F || n == 0x3000
  }

  function TrimStart(s: string): string {
    if s != [] && IsWhitespace(s[0]) then TrimStart(s[1..]) else s
  }

  function TrimEnd(s: string): string {
    if s != [] && IsWhitespace(s[|s| - 1]) then TrimEnd(s[..|s| - 1]) else s
  }

  function Trim(s: string): string {
    TrimEnd(TrimStart(s))
  }

  /** No whitespace at either end. */
  predicate IsTrimmed(s: string) {
    s == [] || (!IsWhitespace(s[0]) && !IsWhitespace(s[|s| - 1]))
  }

  lemma {:induction false} TrimStartTrims(s: string)
    ensures TrimStart(s) == [] || !IsWhitespace(TrimStart(s)[0])
  {
    if s != [] && IsWhitespace(s[0]) { TrimStartTrims(s[1..]); }
  }

  lemma {:induction false} TrimEndTrims(s: string)
    ensures TrimEnd(s) <= s
    ensures TrimEnd(s) == [] || !IsWhitespace(TrimEnd(s)[|TrimEnd(s)| - 1])
  {
    if s != [] && IsWhitespace(s[|s| - 1]) { TrimEndTrims(s[..|s| - 1]); }
  }

  /** Trimming yields a trimmed string and leaves a trimmed one alone. */
  lemma {:induction false} TrimTrims(s: string)
    ensures IsTrimmed(Trim(s))
    ensures IsTrimmed(s) ==> Trim(s) == s
  {
    hide IsWhitespace;
    TrimStartTrims(s);
    TrimEndTrims(TrimStart(s));
  }

  predicate AllSpace(s: string) {
    forall i :: 0 <= i < |s| ==> IsWhitespace(s[i])
  }

  /** Trimming takes off exactly the whitespace around a string. */
  lemma {:induction false} TrimStrips(before: string, s: string, after: string)
    requires AllSpace(before) && IsTrimmed(s) && AllSpace(after)
    ensures Trim(before + s + after) == s
  {
    hide IsWhitespace;
    TrimStartStrips(before, s + after);
    assert before + s + after == before + (s + after);
    if s == [] {
      assert s + after == after + [];
      TrimStartStrips(after, []);
    } else {
      TrimEndStrips(s, after);
    }
  }

  lemma {:induction false} TrimStartStrips(before: string, s: string)
    requires AllSpace(before)
    ensures TrimStart(before + s) == TrimStart(s)
  {
    hide IsWhitespace;
    if before == [] {
      assert before + s == s;
    } else {
      assert (before + s)[1..] == before[1..] + s;
      TrimStartStrips(before[1..], s);
    }
  }

  lemma {:induction false} TrimEndStrips(s: string, after: string)
    requires AllSpace(after)
    ensures TrimEnd(s + after) == TrimEnd(s)
    decreases |after|
  {
    hide IsWhitespace;
    if after == [] {
      assert s + after == s;
    } else {
      var t := s + after;
      assert t[..|t| - 1] == s + after[..|after| - 1];
      TrimEndStrips(s, after[..|after| - 1]);
    }
  }

  /** A string is its trimmed form with whitespace around it. */
  lemma {:induction false} TrimDecomposes(s: string) returns (before: string, after: string)
    ensures s == before + Trim(s) + after && AllSpace(before) && AllSpace(after)
  {
    hide IsWhitespace;
    before := TrimStartDecomposes(s);
    after := TrimEndDecomposes(TrimStart(s));
    assert before + (Trim(s) + after) == before + Trim(s) + after;
  }

  lemma {:induction false} TrimStartDecomposes(s: string) returns (before: string)
    ensures s == before + TrimStart(s) && AllSpace(before)
  {
    hide IsWhitespace;
    before := [];
    if s != [] && IsWhitespace(s[0]) {
      var rest := TrimStartDecomposes(s[1..]);
      before := [s[0]] + rest;
      assert before + TrimStart(s) == [s[0]] + s[1..];
    }
  }

  lemma {:induction false} TrimEndDecomposes(s: string) returns (after: string)
    ensures s == TrimEnd(s) + after && AllSpace(after)
  {
    hide IsWhitespace;
    after := [];
    if s != [] && IsWhitespace(s[|s| - 1]) {
      var rest := TrimEndDecomposes(s[..|s| - 1]);
      after := rest + [s[|s| - 1]];
      assert TrimEnd(s) + after == s[..|s| - 1] + [s[|s| - 1]];
    }
  }

  lemma {:induction false} TrimEmpties(s: string)
    ensures Trim(s) == [] <==> AllSpace(s)
  {
    hide IsWhitespace, Trim;
    var before, after := TrimDecomposes(s);
    if AllSpace(s) {
      TrimStrips(s, [], []);
      assert s + [] + [] == s;
    }
    TrimTrims(s);
  }

  /** Around a character that is not whitespace, both sides are trimmed on the outside. */
  lemma {:induction false} TrimAround(x: string, c: char, y: string)
    requires !IsWhitespace(c)
    ensures Trim(x + [c] + y) == TrimStart(x) + [c] + TrimEnd(y)
  {
    hide IsWhitespace, Trim;
    var before := TrimStartDecomposes(x);
    var after := TrimEndDecomposes(y);
    TrimStartTrims(x);
    TrimEndTrims(y);
    var s := TrimStart(x) + [c] + TrimEnd(y);
    hide TrimStart, TrimEnd;
    TrimStrips(before, s, after);
    assert before + s + after == x + [c] + y;
  }

  /** Trimming one side first changes nothing. */
  lemma {:induction false} TrimAfterSide(s: string)
    ensures Trim(TrimStart(s)) == Trim(s) && Trim(TrimEnd(s)) == Trim(s)
  {
    hide *;
    var before := TrimStartDecomposes(s);
    var b, a := TrimDecomposes(TrimStart(s));
    var t := Trim(TrimStart(s));
    TrimTrims(TrimStart(s));
    SpaceConcat(before, b);
    TrimStrips(before + b, t, a);
    assert before + b + t + a == before + (b + t + a);
    var after := TrimEndDecomposes(s);
    var d, e := TrimDecomposes(TrimEnd(s));
    var u := Trim(TrimEnd(s));
    TrimTrims(TrimEnd(s));
    SpaceConcat(e, after);
    TrimStrips(d, u, e + after);
    assert d + u + (e + after) == d + u + e + after;
  }

  lemma {:induction false} SpaceConcat(a: string, b: string)
    requires AllSpace(a) && AllSpace(b)
    ensures AllSpace(a + b)
  {
    hide IsWhitespace;
  }

  /** Trimming adds no character. */
  lemma {:induction false} TrimKeepsOut(s: string, c: char)
    requires c !in s
    ensures c !in TrimStart(s) && c !in TrimEnd(s) && c !in Trim(s)
  {
    hide *;
    var before := TrimStartDecomposes(s);
    var after := TrimEndDecomposes(s);
    var b, a := TrimDecomposes(s);
    PartKeepsOut(before, TrimStart(s), [], c);
    PartKeepsOut([], TrimEnd(s), after, c);
    PartKeepsOut(b, Trim(s), a, c);
    assert before + TrimStart(s) + [] == before + TrimStart(s) && [] + TrimEnd(s) + after == TrimEnd(s) + after;
  }

  lemma {:induction false} PartKeepsOut(a: string, s: string, b: string, c: char)
    ensures c !in a + s + b ==> c !in s
  {
    if c in s {
      var i :| 0 <= i < |s| && s[i] == c;
      assert (a + s + b)[|a| + i] == c;
    }
  }

  function TrimEndMatches(s: string, c: char): string {
    if s != [] && s[|s| - 1] == c then TrimEndMatches(s[..|s| - 1], c) else s
  }

  lemma {:induction false} TrimEndMatchesTrims(s: string, c: char)
    ensures TrimEndMatches(s, c) <= s
    ensures TrimEndMatches(s, c) == [] || TrimEndMatches(s, c)[|TrimEndMatches(s, c)| - 1] != c
  {
    if s != [] && s[|s| - 1] == c { TrimEndMatchesTrims(s[..|s| - 1], c); }
  }

  function LowerChar(c: char): char {
    if 'A' <= c <= 'Z' then (c as int + 32) as char else c
  }

  /** The same character, or the same ASCII letter in the other case. */
  predicate SameLetter(c: char, d: char) {
    || c == d
    || ('A' <= c <= 'Z' && d as int == c as int + 32)
    || ('A' <= d <= 'Z' && c as int == d as int + 32)
  }

  predicate SameButForCase(s: string, t: string) {
    |s| == |t| && forall i :: 0 <= i < |s| ==> SameLetter(s[i], t[i])
  }

  lemma {:induction false} LowerCharForgets(c: char, d: char)
    ensures LowerChar(c) == LowerChar(d) <==> SameLetter(c, d)
    ensures SameLetter(c, LowerChar(c)) && !('A' <= LowerChar(c) <= 'Z')
  {
  }

  /** Strings have one lower-case form exactly when they differ in ASCII case alone, and no capital is left. */
  lemma {:induction false} LowerForgetsCaseOnly(s: string, t: string)
    ensures AsciiLower(s) == AsciiLower(t) <==> SameButForCase(s, t)
    ensures SameButForCase(s, AsciiLower(s))
    ensures forall i :: 0 <= i < |s| ==> !('A' <= AsciiLower(s)[i] <= 'Z')
  {
    hide LowerChar, SameLetter, AsciiLower;
    forall c, d ensures LowerChar(c) == LowerChar(d) <==> SameLetter(c, d) { LowerCharForgets(c, d); }
    forall i | 0 <= i < |s| ensures SameLetter(s[i], LowerChar(s[i])) && !('A' <= LowerChar(s[i]) <= 'Z') {
      LowerCharForgets(s[i], s[i]);
    }
    if AsciiLower(s) == AsciiLower(t) {
      forall i | 0 <= i < |s| ensures SameLetter(s[i], t[i]) {
        assert AsciiLower(s)[i] == AsciiLower(t)[i];
      }
    }
  }

  function AsciiLower(s: string): (r: string)
    ensures |r| == |s| && forall i :: 0 <= i < |s| ==> r[i] == LowerChar(s[i])
  {
    if s == [] then [] else [LowerChar(s[0])] + AsciiLower(s[1..])
  }

  /** Splits at every occurrence of `c`. */
  function Split(s: string, c: char): (parts: seq<string>)
    ensures parts != []
  {
    if s == [] then [[]]
    else
      var rest := Split(s[1..], c);
      if s[0] == c then [[]] + rest else [[s[0]] + rest[0]] + rest[1..]
  }

  function Join(parts: seq<string>, sep: string): string {
    if parts == [] then []
    else if |parts| == 1 then parts[0]
    else parts[0] + sep + Join(parts[1..], sep)
  }

  ghost predicate NoneHas(parts: seq<string>, c: char) {
    forall k :: 0 <= k < |parts| ==> c !in parts[k]
  }

  /** Splitting cuts at every separator and loses nothing. */
  lemma {:induction false} SplitCuts(s: string, c: char)
    ensures NoneHas(Split(s, c), c) && Join(Split(s, c), [c]) == s
  {
    if s == [] {
      JoinOne([], [c]);
    } else {
      SplitCuts(s[1..], c);
      var rest, all := Split(s[1..], c), Split(s, c);
      JoinPrepend(s[0], rest, [c]);
      forall k | 0 <= k < |all| ensures c !in all[k] {
        assert k > 0 ==> all[k] == (if s[0] == c then rest[k - 1] else rest[k]);
        assert c !in rest[0];
      }
      assert s == [s[0]] + s[1..];
    }
  }

  /** Parts without the separator are read back from their join. */
  lemma {:induction false} SplitInvertsJoin(parts: seq<string>, c: char)
    requires parts != [] && NoneHas(parts, c)
    ensures Split(Join(parts, [c]), c) == parts
    decreases |parts|
  {
    assert c !in parts[0];
    if |parts| == 1 {
      SplitOfPart(parts[0], c);
    } else {
      SplitInvertsJoin(parts[1..], c);
      SplitOfFirst(parts[0], Join(parts[1..], [c]), c);
      assert parts == [parts[0]] + parts[1..];
    }
  }

  lemma {:induction false} SplitOfPart(s: string, c: char)
    requires c !in s
    ensures Split(s, c) == [s]
  {
    if s != [] {
      SplitOfPart(s[1..], c);
      assert s == [s[0]] + s[1..];
    }
  }

  /** A list of parts with one more character in front. */
  function Glue(x: char, c: char, parts: seq<string>): seq<string>
    requires parts != []
  {
    if x == c then [[]] + parts else [[x] + parts[0]] + parts[1..]
  }

  lemma {:induction false} GlueConcat(x: char, c: char, a: seq<string>, b: seq<string>)
    requires a != []
    ensures Glue(x, c, a + b) == Glue(x, c, a) + b
  {
    assert (a + b)[0] == a[0] && (a + b)[1..] == a[1..] + b;
  }

  lemma {:induction false} SplitCons(s: string, rest: string, c: char)
    requires s != [] && rest == s[1..]
    ensures Split(s, c) == Glue(s[0], c, Split(rest, c))
  {
  }

  /** Splitting splits at any separator. */
  lemma {:induction false} SplitConcat(a: string, b: string, c: char)
    ensures Split(a + [c] + b, c) == Split(a, c) + Split(b, c)
    decreases |a|
  {
    hide Split, Glue;
    var all := a + [c] + b;
    if a == [] {
      assert all[1..] == b;
      SplitCons(all, b, c);
      SplitOfNone(c);
      GlueSeparator(c, Split(b, c));
    } else {
      assert all[1..] == a[1..] + [c] + b;
      SplitConcat(a[1..], b, c);
      SplitCons(all, a[1..] + [c] + b, c);
      SplitCons(a, a[1..], c);
      GlueConcat(a[0], c, Split(a[1..], c), Split(b, c));
    }
  }

  lemma {:induction false} SplitOfNone(c: char)
    ensures Split([], c) == [[]]
  {
  }

  lemma {:induction false} GlueSeparator(c: char, parts: seq<string>)
    requires parts != []
    ensures Glue(c, c, parts) == [[]] + parts
  {
  }

  lemma {:induction false} SplitOfFirst(s: string, rest: string, c: char)
    requires c !in s
    ensures Split(s + [c] + rest, c) == [s] + Split(rest, c)
  {
    hide Split;
    SplitConcat(s, rest, c);
    SplitOfPart(s, c);
  }

  function LowerAll(parts: seq<string>): (r: seq<string>)
    ensures |r| == |parts| && forall i :: 0 <= i < |parts| ==> r[i] == AsciiLower(parts[i])
  {
    seq(|parts|, i requires 0 <= i < |parts| => AsciiLower(parts[i]))
  }

  lemma {:induction false} JoinPrepend(x: char, parts: seq<string>, sep: string)
    requires parts != []
    ensures Join([[x] + parts[0]] + parts[1..], sep) == [x] + Join(parts, sep)
    ensures Join([[]] + parts, sep) == sep + Join(parts, sep)
  {
    var longer, more := [[x] + parts[0]] + parts[1..], [[]] + parts;
    assert more[1..] == parts && [] + sep == sep;
    if |parts| > 1 {
      assert longer[1..] == parts[1..];
      assert ([x] + parts[0]) + sep + Join(parts[1..], sep) == [x] + (parts[0] + sep + Join(parts[1..], sep));
    }
  }

  /** Lowering the parts of a string and joining them lowers the string. */
  lemma {:induction false} JoinLoweredSplit(s: string, c: char)
    requires LowerChar(c) == c
    ensures Join(LowerAll(Split(s, c)), [c]) == AsciiLower(s)
  {
    hide LowerChar, Join;
    if s == [] {
      JoinOne([], [c]);
      assert LowerAll(Split(s, c)) == [[]];
    } else {
      JoinLoweredSplit(s[1..], c);
      var rest := LowerAll(Split(s[1..], c));
      JoinPrepend(LowerChar(s[0]), rest, [c]);
      if s[0] == c {
        assert LowerAll(Split(s, c)) == [[]] + rest;
      } else {
        assert ([s[0]] + Split(s[1..], c)[0])[1..] == Split(s[1..], c)[0];
        assert LowerAll(Split(s, c)) == [[LowerChar(s[0])] + rest[0]] + rest[1..];
      }
    }
  }

  lemma {:induction false} JoinConcat(a: seq<string>, b: seq<string>, sep: string)
    requires a != [] && b != []
    ensures Join(a + b, sep) == Join(a, sep) + sep + Join(b, sep)
    decreases |a|
  {
    assert (a + b)[1..] == a[1..] + b;
    if |a| > 1 {
      JoinConcat(a[1..], b, sep);
    } else {
      assert a[1..] + b == b;
    }
  }

  lemma {:induction false} JoinOne(part: string, sep: string)
    ensures Join([part], sep) == part
  {
  }

  /** The parts around the first occurrence of `c`. */
  function SplitOnce(s: string, c: char): Option<(string, string)> {
    if s == [] then None
    else if s[0] == c then Some(([], s[1..]))
    else
      match SplitOnce(s[1..], c)
      case None => None
      case Some((left, right)) => Some(([s[0]] + left, right))
  }

  lemma {:induction false} SplitOnceFinds(left: string, c: char, right: string)
    requires c !in left
    ensures SplitOnce(left + [c] + right, c) == Some((left, right))
  {
    var s := left + [c] + right;
    if left == [] {
      assert s[1..] == right;
    } else {
      SplitOnceFinds(left[1..], c, right);
      assert s[1..] == left[1..] + [c] + right;
      assert [left[0]] + left[1..] == left;
    }
  }

  lemma {:induction false} SplitOnceMisses(s: string, c: char)
    ensures SplitOnce(s, c).None? <==> c !in s
    ensures SplitOnce(s, c).Some? ==>
              var (left, right) := SplitOnce(s, c).value; c !in left && s == left + [c] + right
  {
    if s != [] {
      SplitOnceMisses(s[1..], c);
      if s[0] != c && SplitOnce(s[1..], c).Some? {
        var (left, right) := SplitOnce(s[1..], c).value;
        assert s == [s[0]] + s[1..] == ([s[0]] + left) + [c] + right;
      }
      if s[0] == c {
        assert s == [] + [c] + s[1..];
      }
      assert c in s <==> s[0] == c || c in s[1..];
    }
  }

  /** Decimal digits of a number. */
  function Decimal(n: nat): (r: string)
    ensures r != [] && forall i :: 0 <= i < |r| ==> '0' <= r[i] <= '9'
  {
    var digit := ('0' as int + n % 10) as char;
    if n < 10 then [digit] else Decimal(n / 10) + [digit]
  }

  /** The number a string of digits stands for. */
  function ValueOf(digits: string): int {
    if digits == [] then 0
    else ValueOf(digits[..|digits| - 1]) * 10 + (digits[|digits| - 1] as int - '0' as int)
  }

  /** Numbers are written in base ten, without leading zeros. */
  lemma {:induction false} DecimalReadsBack(n: nat)
    ensures ValueOf(Decimal(n)) == n && (n > 0 ==> Decimal(n)[0] != '0')
  {
    var r := Decimal(n);
    if n >= 10 {
      DecimalReadsBack(n / 10);
      assert r[..|r| - 1] == Decimal(n / 10);
    } else {
      assert r[..0] == [];
    }
  }

  /** Different numbers are written differently. */
  lemma {:induction false} DecimalIsInjective(m: nat, n: nat)
    requires Decimal(m) == Decimal(n)
    ensures m == n
  {
    DecimalReadsBack(m);
    DecimalReadsBack(n);
  }
}
