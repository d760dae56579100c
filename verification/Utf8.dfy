/**
 UTF-8: texts are sequences of Unicode scalar values, stored as bytes. Byte offsets
 into a text are lengths of encoded prefixes.
 */
module Utf8 {
  import opened Base

  type byte = x: int | 0 <= x < 256

  function EncodeChar(c: char): (b: seq<byte>)
    ensures 1 <= |b| <= 4
    ensures |b| == 1 <==> b[0] < 0x80
    ensures |b| > 1 ==> forall i :: 0 <= i < |b| ==> b[i] >= 0x80
  {
    var n := c as int;
    var m := n / 64;
    var l := m / 64;
    if n < 0x80 then [n]
    else if n < 0x800 then [0xC0 + m, 0x80 + n % 64]
    else if n < 0x1_0000 then [0xE0 + l, 0x80 + m % 64, 0x80 + n % 64]
    else [0xF0 + l / 64, 0x80 + l % 64, 0x80 + m % 64, 0x80 + n % 64]
  }

  /** The byte form of a text. */
  function Encode(s: string): seq<byte> {
    if s == [] then [] else EncodeChar(s[0]) + Encode(s[1..])
  }

  predicate Continuation(b: byte) {
    0x80 <= b < 0xC0
  }

  /** Appends the six bits of a continuation byte. */
  function Append(n: int, b: byte): int {
    n * 64 + (b - 0x80)
  }

  function Scalar(n: int): Option<char> {
    if 0 <= n < 0xD800 || 0xE000 <= n < 0x11_0000 then Some(n as char) else None
  }

  /** The first character of a byte string, rejecting overlong forms and surrogates. */
  function DecodeChar(b: seq<byte>): Option<char> {
    if b == [] then None
    else if b[0] < 0x80 then Scalar(b[0])
    else if 0xC0 <= b[0] < 0xE0 && |b| >= 2 && Continuation(b[1]) then
      var n := Append(b[0] - 0xC0, b[1]);
      if n < 0x80 then None else Scalar(n)
    else if 0xE0 <= b[0] < 0xF0 && |b| >= 3 && Continuation(b[1]) && Continuation(b[2]) then
      var n := Append(Append(b[0] - 0xE0, b[1]), b[2]);
      if n < 0x800 then None else Scalar(n)
    else if 0xF0 <= b[0] < 0xF8 && |b| >= 4 && Continuation(b[1]) && Continuation(b[2]) && Continuation(b[3]) then
      var n := Append(Append(Append(b[0] - 0xF0, b[1]), b[2]), b[3]);
      if n < 0x1_0000 then None else Scalar(n)
    else None
  }

  lemma {:induction false} AppendSplits(n: int, b: byte)
    requires Continuation(b)
    ensures Append(n, b) / 64 == n && 0x80 + Append(n, b) % 64 == b
  {
  }

  lemma {:induction false} DecodedCharIsPrefix(b: seq<byte>)
    ensures DecodeChar(b).Some? ==> EncodeChar(DecodeChar(b).value) <= b
  {
    if b != [] && DecodeChar(b).Some? && b[0] >= 0x80 {
      var n2 := if b[0] < 0xE0 then b[0] - 0xC0 else if b[0] < 0xF0 then b[0] - 0xE0 else b[0] - 0xF0;
      AppendSplits(n2, b[1]);
      var n3 := Append(n2, b[1]);
      if b[0] >= 0xE0 {
        AppendSplits(n3, b[2]);
        if b[0] >= 0xF0 { AppendSplits(Append(n3, b[2]), b[3]); }
      }
    }
  }

  /** The text a byte string stands for, if it is valid UTF-8. */
  function Decode(b: seq<byte>): (r: Option<string>)
    ensures r.Some? ==> Encode(r.value) == b
    decreases |b|
  {
    if b == [] then Some([])
    else
      match DecodeChar(b)
      case None => None
      case Some(c) =>
        DecodedCharIsPrefix(b);
        match Decode(b[|EncodeChar(c)|..])
        case None => None
        case Some(rest) => Some([c] + rest)
  }

  lemma {:induction false} DecodeEncodedChar(c: char, rest: seq<byte>)
    ensures DecodeChar(EncodeChar(c) + rest) == Some(c)
  {
    var n := c as int;
    var b := EncodeChar(c) + rest;
    assert Append(n / 64, 0x80 + n % 64) == n;
    assert Append(n / 64 / 64, 0x80 + n / 64 % 64) == n / 64;
    assert Append(n / 64 / 64 / 64, 0x80 + n / 64 / 64 % 64) == n / 64 / 64;
    assert |EncodeChar(c)| >= 2 ==> b[1] == EncodeChar(c)[1];
    assert |EncodeChar(c)| >= 3 ==> b[2] == EncodeChar(c)[2];
    assert |EncodeChar(c)| >= 4 ==> b[3] == EncodeChar(c)[3];
  }

  /** Decoding inverts encoding; together with Decode's contract, valid bytes and texts correspond. */
  lemma {:induction false} DecodeInvertsEncode(s: string)
    ensures Decode(Encode(s)) == Some(s)
  {
    if s != [] {
      DecodeEncodedChar(s[0], Encode(s[1..]));
      DecodeInvertsEncode(s[1..]);
      assert Encode(s)[|EncodeChar(s[0])|..] == Encode(s[1..]);
      assert [s[0]] + s[1..] == s;
    }
  }

  lemma {:induction false} EncodeIsInjective(s: string, t: string)
    requires Encode(s) == Encode(t)
    ensures s == t
  {
    DecodeInvertsEncode(s);
    DecodeInvertsEncode(t);
  }

  lemma {:induction false} EncodeCons(s: string, rest: string)
    requires s != [] && rest == s[1..]
    ensures Encode(s) == EncodeChar(s[0]) + Encode(rest)
  {
    hide EncodeChar;
  }

  lemma {:induction false} EncodeConcat(s: string, t: string)
    ensures Encode(s + t) == Encode(s) + Encode(t)
  {
    hide EncodeChar;
    if s == [] {
      assert s + t == t;
    } else {
      EncodeConcat(s[1..], t);
      EncodeCons(s + t, s[1..] + t);
      ConcatIsAssociative(EncodeChar(s[0]), Encode(s[1..]), Encode(t));
    }
  }

  /** The encoding of a text splits at every character. */
  lemma {:induction false} EncodeSplits(s: string, j: nat)
    requires j <= |s|
    ensures Encode(s) == Encode(s[..j]) + Encode(s[j..])
  {
    EncodeConcat(s[..j], s[j..]);
    assert s[..j] + s[j..] == s;
  }

  lemma {:induction false} EncodeOne(c: char)
    ensures Encode([c]) == EncodeChar(c)
  {
    assert [c][1..] == [];
  }

  lemma {:induction false} EncodeAtLeastLength(s: string)
    ensures |Encode(s)| >= |s|
  {
    if s != [] { EncodeAtLeastLength(s[1..]); }
  }

  // ----- Order -----

  /** Lexicographic order of bytes. */
  predicate BytesLess(a: seq<byte>, b: seq<byte>) {
    b != [] && (a == [] || a[0] < b[0] || (a[0] == b[0] && BytesLess(a[1..], b[1..])))
  }

  lemma {:induction false} EmptyIsLeast(a: seq<byte>, b: seq<byte>)
    ensures a == [] ==> (BytesLess(a, b) <==> b != [])
    ensures b == [] ==> !BytesLess(a, b)
  {
  }

  lemma {:induction false} BytesLessIsAsymmetric(a: seq<byte>, b: seq<byte>)
    ensures !(BytesLess(a, b) && BytesLess(b, a))
    decreases |a|
  {
    if a != [] && b != [] { BytesLessIsAsymmetric(a[1..], b[1..]); }
  }

  lemma {:induction false} CommonPrefix(p: seq<byte>, a: seq<byte>, b: seq<byte>)
    ensures BytesLess(p + a, p + b) <==> BytesLess(a, b)
  {
    if p == [] {
      assert p + a == a && p + b == b;
    } else {
      CommonPrefix(p[1..], a, b);
      assert (p + a)[1..] == p[1..] + a && (p + b)[1..] == p[1..] + b;
    }
  }

  /** The first byte that differs decides. */
  lemma {:induction false} FirstDifference(a: seq<byte>, b: seq<byte>, i: nat)
    requires i < |a| && i < |b| && a[..i] == b[..i] && a[i] < b[i]
    ensures BytesLess(a, b)
  {
    CommonPrefix(a[..i], a[i..], b[i..]);
    assert a == a[..i] + a[i..] && b == a[..i] + b[i..];
  }

  /** Characters are ordered like their encodings, whatever follows. */
  lemma {:induction false} CharsKeepOrder(c: char, d: char, x: seq<byte>, y: seq<byte>)
    requires c < d
    ensures BytesLess(EncodeChar(c) + x, EncodeChar(d) + y)
  {
    hide BytesLess;
    var i := DifferingByte(c, d);
    var a, b := EncodeChar(c), EncodeChar(d);
    assert (a + x)[..i] == a[..i] && (b + y)[..i] == b[..i];
    FirstDifference(a + x, b + y, i);
  }

  /** Dropping the last six bits keeps the order; if it makes numbers equal, those bits decide. */
  lemma {:induction false} SixBits(n: int, m: int)
    requires n < m
    ensures n / 64 < m / 64 || (n / 64 == m / 64 && n % 64 < m % 64)
  {
  }

  /** Longer forms have larger leading bytes. */
  lemma {:induction false} LongerIsLarger(c: char, d: char)
    requires c < d
    ensures |EncodeChar(c)| <= |EncodeChar(d)|
    ensures |EncodeChar(c)| < |EncodeChar(d)| ==> EncodeChar(c)[0] < EncodeChar(d)[0]
  {
  }

  lemma {:induction false} DifferingByte(c: char, d: char) returns (i: nat)
    requires c < d
    ensures var a, b := EncodeChar(c), EncodeChar(d);
            i < |a| && i < |b| && a[..i] == b[..i] && a[i] < b[i]
  {
    var a, b := EncodeChar(c), EncodeChar(d);
    LongerIsLarger(c, d);
    i := 0;
    if |a| == |b| {
      i := SameLengthDiffers(c, d);
      assert forall j :: 0 <= j < i ==> a[..i][j] == b[..i][j];
    }
  }

  lemma {:induction false} SameLengthDiffers(c: char, d: char) returns (i: nat)
    requires c < d && |EncodeChar(c)| == |EncodeChar(d)|
    ensures var a, b := EncodeChar(c), EncodeChar(d);
            i < |a| && a[i] < b[i] && forall j :: 0 <= j < i ==> a[j] == b[j]
  {
    var n, m := c as int, d as int;
    var last := |EncodeChar(c)| - 1;
    SixBits(n, m);
    if last == 0 || n / 64 == m / 64 {
      i := last;
    } else {
      SixBits(n / 64, m / 64);
      if last == 1 || n / 64 / 64 == m / 64 / 64 {
        i := last - 1;
      } else {
        SixBits(n / 64 / 64, m / 64 / 64);
        i := if last == 2 || n / 64 / 64 / 64 == m / 64 / 64 / 64 then last - 2 else 0;
      }
    }
  }

  // ----- Byte offsets -----

  /** `i` is a byte offset at which a character of `s` starts or `s` ends. */
  ghost predicate Boundary(s: string, i: int) {
    exists j :: 0 <= j <= |s| && BoundaryAt(s, i, j)
  }

  ghost predicate BoundaryAt(s: string, i: int, j: int)
    requires 0 <= j <= |s|
  {
    i == |Encode(s[..j])|
  }

  /** A one-byte character starts and ends at character boundaries. */
  lemma {:induction false} AsciiIsBoundary(s: string, i: nat) returns (j: nat)
    requires i < |Encode(s)| && Encode(s)[i] < 0x80
    ensures j < |s| && BoundaryAt(s, i, j) && BoundaryAt(s, i + 1, j + 1)
    ensures EncodeChar(s[j]) == [Encode(s)[i]]
    decreases |s|
  {
    hide EncodeChar;
    var n := |EncodeChar(s[0])|;
    if i < n {
      j := 0;
      EncodeOne(s[0]);
      assert s[..1] == [s[0]];
    } else {
      var h := AsciiIsBoundary(s[1..], i - n);
      j := h + 1;
      assert s[..j] == [s[0]] + s[1..][..h] && s[..j + 1] == [s[0]] + s[1..][..h + 1];
      assert s[..j][1..] == s[1..][..h] && s[..j + 1][1..] == s[1..][..h + 1];
    }
  }

  /** The bytes between two boundaries are the encoding of the characters between them. */
  lemma {:induction false} SliceAtBoundaries(s: string, j: nat, k: nat)
    requires j <= k <= |s|
    ensures |Encode(s[..j])| <= |Encode(s[..k])| <= |Encode(s)|
    ensures Encode(s)[|Encode(s[..j])|..|Encode(s[..k])|] == Encode(s[j..k])
  {
    EncodeSplits(s, k);
    EncodeSplits(s[..k], j);
    assert s[..k][..j] == s[..j] && s[..k][j..] == s[j..k];
  }
}
