/** What TXT entries say: keys, values, and entries that are damaged. */
module DnsTxt {
  import opened Base
  import opened Strings
  import opened Utf8
  import opened DnsPacket
  import opened DnsResponse

  /** The entry is `k=v`, or the key alone with an empty value. */
  predicate Spells(entry: string, k: string, v: string) {
    && entry != []
    && (('=' !in k && entry == k + ['='] + v) || ('=' !in entry && k == entry && v == []))
  }

  /** The entry is about the key, in whatever case it is written. */
  ghost predicate Names(entry: string, key: string) {
    exists k, v :: Spells(entry, k, v) && AsciiLower(k) == key
  }

  lemma {:induction false} SpelledEntry(m: map<string, string>, entry: string, k: string, v: string)
    requires Spells(entry, k, v)
    ensures WithEntry(m, entry) == m[AsciiLower(k) := v]
  {
    if '=' in entry { SplitOnceFinds(k, '=', v); } else { SplitOnceMisses(entry, '='); }
  }

  lemma {:induction false} EntrySpells(entry: string) returns (k: string, v: string)
    requires entry != []
    ensures Spells(entry, k, v)
  {
    SplitOnceMisses(entry, '=');
    match SplitOnce(entry, '=')
    case None => k, v := entry, [];
    case Some((left, right)) => k, v := left, right;
  }

  /** A key no entry is about keeps what it had. */
  lemma {:induction false} UnnamedKeyStays(m: map<string, string>, entries: seq<string>, key: string)
    requires forall j :: 0 <= j < |entries| ==> !Names(entries[j], key)
    ensures Lookup(TxtEntries(m, entries), key) == Lookup(m, key)
    decreases |entries|
  {
    hide Names, WithEntry, Spells;
    if entries != [] {
      if entries[0] == [] {
        UnnamedKeyStays(m, entries[1..], key);
      } else {
        var k, v := EntrySpells(entries[0]);
        SpelledEntry(m, entries[0], k, v);
        assert AsciiLower(k) != key by { if AsciiLower(k) == key { Named(entries[0], k, v); } }
        UnnamedKeyStays(WithEntry(m, entries[0]), entries[1..], key);
      }
    }
  }

  lemma {:induction false} Named(entry: string, k: string, v: string)
    requires Spells(entry, k, v)
    ensures Names(entry, AsciiLower(k))
  {
  }

  /** The last entry about a key decides: its value is found under the lower-case key. */
  lemma {:induction false} LastEntryIsFound(m: map<string, string>, entries: seq<string>, i: nat, k: string, v: string)
    requires i < |entries| && Spells(entries[i], k, v)
    requires forall j :: i < j < |entries| ==> !Names(entries[j], AsciiLower(k))
    ensures Lookup(TxtEntries(m, entries), AsciiLower(k)) == Some(v)
    decreases |entries|
  {
    hide Names, WithEntry;
    var m' := if entries[0] == [] then m else WithEntry(m, entries[0]);
    if i == 0 {
      SpelledEntry(m, entries[0], k, v);
      UnnamedKeyStays(m', entries[1..], AsciiLower(k));
    } else {
      LastEntryIsFound(m', entries[1..], i - 1, k, v);
    }
  }

  // ----- Damaged payloads -----

  predicate Short(raws: seq<seq<byte>>) {
    forall i :: 0 <= i < |raws| ==> |raws[i]| < 256
  }

  /** Entries as raw bytes, each after its length. */
  function RawBytes(raws: seq<seq<byte>>): seq<byte>
    requires Short(raws)
  {
    if raws == [] then []
    else
      assert Short(raws[1..]);
      [|raws[0]|] + raws[0] + RawBytes(raws[1..])
  }

  /** The entries that are valid text. */
  function Texts(raws: seq<seq<byte>>): seq<string> {
    if raws == [] then []
    else if Decode(raws[0]).Some? then [Decode(raws[0]).value] + Texts(raws[1..])
    else Texts(raws[1..])
  }

  /** An entry that promises more bytes than are left, or nothing at all. */
  predicate CutOff(cut: seq<byte>) {
    cut == [] || |cut| <= cut[0]
  }

  /** Entries that are not valid text are passed over, and a cut-off entry at the end is dropped. */
  lemma {:induction false} DamagedTxtReads(m: map<string, string>, payload: seq<byte>, cursor: nat,
                                           raws: seq<seq<byte>>, cut: seq<byte>)
    requires Short(raws) && CutOff(cut) && cursor <= |payload| && payload[cursor..] == RawBytes(raws) + cut
    ensures PairsFrom(m, payload, cursor) == TxtEntries(m, Texts(raws))
    decreases |raws|
  {
    hide Decode, WithEntry, Encode, PairsFrom, CutOff;
    if raws == [] {
      assert payload[cursor..] == cut;
      CutOffEnds(m, payload, cursor);
    } else {
      var e, rest := raws[0], RawBytes(raws[1..]) + cut;
      assert payload[cursor..] == [|e|] + e + rest;
      TxtLayout(payload, cursor, e, rest);
      EmptyDecodes(e);
      EntryReads(m, payload, cursor, e);
      var texts := Texts(raws[1..]);
      if Decode(e).Some? { assert ([Decode(e).value] + texts)[1..] == texts; }
      DamagedTxtReads(AfterEntry(m, e), payload, cursor + 1 + |e|, raws[1..], cut);
    }
  }

  function AfterEntry(m: map<string, string>, e: seq<byte>): map<string, string> {
    if e == [] || Decode(e).None? then m else WithEntry(m, Decode(e).value)
  }

  lemma {:induction false} EntryReads(m: map<string, string>, payload: seq<byte>, cursor: nat, e: seq<byte>)
    requires cursor + 1 + |e| <= |payload| && payload[cursor] == |e| && payload[cursor + 1..cursor + 1 + |e|] == e
    ensures PairsFrom(m, payload, cursor) == PairsFrom(AfterEntry(m, e), payload, cursor + 1 + |e|)
  {
    hide Decode, WithEntry;
  }

  lemma {:induction false} CutOffEnds(m: map<string, string>, payload: seq<byte>, cursor: nat)
    requires cursor <= |payload| && CutOff(payload[cursor..])
    ensures PairsFrom(m, payload, cursor) == m
  {
    assert cursor < |payload| ==> payload[cursor..][0] == payload[cursor];
  }

  lemma {:induction false} EmptyDecodes(e: seq<byte>)
    ensures e == [] ==> Decode(e) == Some([])
    ensures e != [] && Decode(e).Some? ==> Decode(e).value != []
  {
    hide EncodeChar;
  }
}
