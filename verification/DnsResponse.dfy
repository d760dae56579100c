/** Responses as peers write them, and what the scanner learns from them. */
module DnsResponse {
  import opened Base
  import opened Utf8
  import opened DnsName
  import opened DnsPacket

  /** A record before it is written: names as given, not yet in normal form; class and time to live as bytes. */
  datatype Answer =
    | PtrAnswer(owner: string, classAndTtl: seq<byte>, target: string)
    | SrvAnswer(owner: string, classAndTtl: seq<byte>, port: nat, target: string)
    | TxtAnswer(owner: string, classAndTtl: seq<byte>, entries: seq<string>)
    | AddressAnswer(owner: string, classAndTtl: seq<byte>, octets: seq<byte>)

  function Be16(n: nat): (b: seq<byte>)
    requires n < 0x1_0000
    ensures |b| == 2
  {
    [n / 256, n % 256]
  }

  predicate GoodEntries(entries: seq<string>) {
    forall i :: 0 <= i < |entries| ==> |Encode(entries[i])| < 256
  }

  function TxtBytes(entries: seq<string>): seq<byte>
    requires GoodEntries(entries)
  {
    if entries == [] then []
    else
      var e := Encode(entries[0]);
      assert GoodEntries(entries[1..]);
      [|e|] + e + TxtBytes(entries[1..])
  }

  /** The payload can be written: names are encodable and lengths fit their fields. */
  predicate Writable(a: Answer) {
    && Encodable(a.owner) && |a.classAndTtl| == 6
    && match a
       case PtrAnswer(_, _, target) => Encodable(target) && |EncodedName(target)| < 0x1_0000
       case SrvAnswer(_, _, port, target) =>
         port < 0x1_0000 && Encodable(target) && |EncodedName(target)| + 6 < 0x1_0000
       case TxtAnswer(_, _, entries) => GoodEntries(entries) && |TxtBytes(entries)| < 0x1_0000
       case AddressAnswer(_, _, octets) => |octets| == 4 || |octets| == 16
  }

  /** The type codes of section 3.2.2 of RFC 1035, RFC 2782 and RFC 3596. */
  function TypeOf(a: Answer): nat {
    match a
    case PtrAnswer(_, _, _) => 12
    case SrvAnswer(_, _, _, _) => 33
    case TxtAnswer(_, _, _) => 16
    case AddressAnswer(_, _, octets) => if |octets| == 4 then 1 else 28
  }

  function Payload(a: Answer): (b: seq<byte>)
    requires Writable(a)
    ensures |b| < 0x1_0000
  {
    match a
    case PtrAnswer(_, _, target) => EncodedName(target)
    case SrvAnswer(_, _, port, target) => [0, 0, 0, 0] + Be16(port) + EncodedName(target)
    case TxtAnswer(_, _, entries) => TxtBytes(entries)
    case AddressAnswer(_, _, octets) => octets
  }

  /** Type, class, time to live and the payload length. */
  function FixedFields(a: Answer): (b: seq<byte>)
    requires Writable(a)
    ensures |b| == 10
  {
    Be16(TypeOf(a)) + a.classAndTtl + Be16(|Payload(a)|)
  }

  function AnswerBytes(a: Answer): seq<byte>
    requires Writable(a)
  {
    EncodedName(a.owner) + FixedFields(a) + Payload(a)
  }

  predicate AllWritable(answers: seq<Answer>) {
    forall i :: 0 <= i < |answers| ==> Writable(answers[i])
  }

  function AnswersBytes(answers: seq<Answer>): seq<byte>
    requires AllWritable(answers)
  {
    if answers == [] then []
    else
      assert AllWritable(answers[1..]);
      AnswerBytes(answers[0]) + AnswersBytes(answers[1..])
  }

  /** A question; its type and class are four bytes the scanner skips. */
  datatype Question = Question(name: string, typeAndClass: seq<byte>)

  predicate Askable(questions: seq<Question>) {
    forall i :: 0 <= i < |questions| ==> Encodable(questions[i].name) && |questions[i].typeAndClass| == 4
  }

  function QuestionsBytes(questions: seq<Question>): seq<byte>
    requires Askable(questions)
  {
    if questions == [] then []
    else
      assert Askable(questions[1..]);
      (EncodedName(questions[0].name) + questions[0].typeAndClass) + QuestionsBytes(questions[1..])
  }

  /** A packet before it is written: id and flags, questions, and the three record sections. */
  datatype Message = Message(idAndFlags: seq<byte>, questions: seq<Question>,
                             answers: seq<Answer>, authority: seq<Answer>, additional: seq<Answer>)

  function RecordsOf(m: Message): seq<Answer> {
    m.answers + m.authority + m.additional
  }

  predicate Sendable(m: Message) {
    && |m.idAndFlags| == 4 && Askable(m.questions) && AllWritable(RecordsOf(m))
    && |m.questions| < 0x1_0000 && |m.answers| < 0x1_0000 && |m.authority| < 0x1_0000 && |m.additional| < 0x1_0000
  }

  function Header(m: Message): (b: seq<byte>)
    requires Sendable(m)
    ensures |b| == HEADER_LEN
  {
    m.idAndFlags + Be16(|m.questions|) + Be16(|m.answers|) + Be16(|m.authority|) + Be16(|m.additional|)
  }

  function MessageBytes(m: Message): seq<byte>
    requires Sendable(m)
  {
    Header(m) + (QuestionsBytes(m.questions) + AnswersBytes(RecordsOf(m)))
  }

  /** The pairs of a list of TXT entries; empty entries say nothing. */
  function TxtEntries(m: map<string, string>, entries: seq<string>): map<string, string>
    decreases entries
  {
    if entries == [] then m
    else TxtEntries(if entries[0] == [] then m else WithEntry(m, entries[0]), entries[1..])
  }

  /** What an answer teaches. */
  function Meaning(a: Answer): Record {
    var owner := NormalizeDnsName(a.owner);
    match a
    case PtrAnswer(_, _, target) => Ptr(owner, NormalizeDnsName(target))
    case SrvAnswer(_, _, port, target) => Srv(owner, SrvRecord(NormalizeDnsName(target), port))
    case TxtAnswer(_, _, entries) => Txt(owner, TxtEntries(map[], entries))
    case AddressAnswer(_, _, octets) => Address(owner, octets)
  }

  /** The records after learning from answers in turn. */
  function Learn(r: Records, answers: seq<Answer>): Records
    decreases answers
  {
    if answers == [] then r else Learn(Merge(r, Meaning(answers[0])), answers[1..])
  }

  // ----- Reading parts back -----

  lemma {:induction false} WrittenSlice(packet: seq<byte>, start: nat, a: seq<byte>)
    requires WrittenAt(packet, start, a)
    ensures packet[start..start + |a|] == a
  {
  }

  lemma {:induction false} Be16ReadsBack(packet: seq<byte>, start: nat, n: nat)
    requires n < 0x1_0000 && WrittenAt(packet, start, Be16(n))
    ensures start + 2 <= |packet| && U16(packet, start) == n
  {
    assert packet[start + 0] == Be16(n)[0] && packet[start + 1] == Be16(n)[1];
  }

  /** TXT entries read back in order; later ones replace earlier ones with the same key. */
  lemma {:induction false} TxtReadsBack(m: map<string, string>, payload: seq<byte>, cursor: nat, entries: seq<string>)
    requires GoodEntries(entries) && cursor <= |payload| && payload[cursor..] == TxtBytes(entries)
    ensures PairsFrom(m, payload, cursor) == TxtEntries(m, entries)
    decreases |entries|
  {
    hide Encode, Decode, WithEntry;
    if entries != [] {
      var e, rest := Encode(entries[0]), TxtBytes(entries[1..]);
      var all := [|e|] + e + rest;
      var next := cursor + 1 + |e|;
      TxtLayout(payload, cursor, e, rest);
      DecodeInvertsEncode(entries[0]);
      EmptyEncodes(entries[0]);
      TxtReadsBack(if entries[0] == [] then m else WithEntry(m, entries[0]), payload, next, entries[1..]);
    }
  }

  lemma {:induction false} TxtLayout(payload: seq<byte>, cursor: nat, e: seq<byte>, rest: seq<byte>)
    requires |e| < 256 && cursor <= |payload| && payload[cursor..] == [|e|] + e + rest
    ensures cursor + 1 + |e| <= |payload| && payload[cursor] == |e|
    ensures payload[cursor + 1..cursor + 1 + |e|] == e && payload[cursor + 1 + |e|..] == rest
  {
    var all := [|e|] + e + rest;
    assert |payload| - cursor == |all|;
    assert payload[cursor..][0] == |e|;
    assert payload[cursor + 1..cursor + 1 + |e|] == all[1..1 + |e|];
    assert payload[cursor + 1 + |e|..] == all[1 + |e|..];
  }

  lemma {:induction false} EmptyEncodes(s: string)
    ensures |Encode(s)| == 0 <==> s == []
  {
    hide EncodeChar;
  }

  lemma {:induction false} PayloadReadsBack(packet: seq<byte>, start: nat, a: Answer, owner: string)
    requires Writable(a) && WrittenAt(packet, start, Payload(a)) && owner == NormalizeDnsName(a.owner)
    ensures start + |Payload(a)| <= |packet|
    ensures PayloadAt(packet, owner, TypeOf(a), start, |Payload(a)|) == Ok(Meaning(a))
  {
    hide NameAt, NormalizeDnsName, EncodedName, Encodable, PairsFrom, TxtEntries, U16, Be16, TxtBytes;
    var b := Payload(a);
    match a
    case PtrAnswer(_, _, target) =>
      EncodedNameDecodes(packet, start, target);
      NormalizeIsIdempotent(target);
    case SrvAnswer(_, _, port, target) =>
      WrittenConcat(packet, start, [0, 0, 0, 0] + Be16(port), EncodedName(target));
      WrittenConcat(packet, start, [0, 0, 0, 0], Be16(port));
      Be16ReadsBack(packet, start + 4, port);
      EncodedNameDecodes(packet, start + 6, target);
      NormalizeIsIdempotent(target);
    case TxtAnswer(_, _, entries) =>
      WrittenSlice(packet, start, b);
      assert b[0..] == b;
      TxtReadsBack(map[], b, 0, entries);
    case AddressAnswer(_, _, octets) =>
      WrittenSlice(packet, start, b);
  }

  /** Wherever it is written, an answer reads back as its meaning. */
  lemma {:induction false} AnswerReadsBack(packet: seq<byte>, offset: nat, a: Answer)
    requires Writable(a) && WrittenAt(packet, offset, AnswerBytes(a))
    ensures RecordAt(packet, offset) == Ok(Parsed(Meaning(a), offset + |AnswerBytes(a)|))
  {
    hide NameAt, NormalizeDnsName, EncodedName, Encodable, PayloadAt, Payload, U16, Be16, TypeOf, Meaning;
    var name, fixed, b := EncodedName(a.owner), FixedFields(a), Payload(a);
    WrittenConcat(packet, offset, name + fixed, b);
    WrittenConcat(packet, offset, name, fixed);
    EncodedNameDecodes(packet, offset, a.owner);
    NormalizeIsIdempotent(a.owner);
    var at := offset + |name|;
    FixedFieldsReadBack(packet, at, a);
    PayloadReadsBack(packet, at + 10, a, NormalizeDnsName(a.owner));
  }

  lemma {:induction false} FixedFieldsReadBack(packet: seq<byte>, at: nat, a: Answer)
    requires Writable(a) && WrittenAt(packet, at, FixedFields(a))
    ensures at + 10 <= |packet| && U16(packet, at) == TypeOf(a) && U16(packet, at + 8) == |Payload(a)|
  {
    hide Payload, TypeOf, U16, Be16, Encodable, EncodedName;
    TypeFits(a);
    WrittenConcat(packet, at, Be16(TypeOf(a)) + a.classAndTtl, Be16(|Payload(a)|));
    WrittenConcat(packet, at, Be16(TypeOf(a)), a.classAndTtl);
    Be16ReadsBack(packet, at, TypeOf(a));
    Be16ReadsBack(packet, at + 8, |Payload(a)|);
  }

  lemma {:induction false} TypeFits(a: Answer)
    ensures TypeOf(a) < 0x1_0000
  {
  }

  lemma {:induction false} AnswersReadBack(packet: seq<byte>, offset: nat, answers: seq<Answer>, r: Records)
    requires AllWritable(answers) && WrittenAt(packet, offset, AnswersBytes(answers))
    ensures ScanFrom(packet, offset, |answers|, r) == Scan(Learn(r, answers), None)
    decreases |answers|
  {
    hide RecordAt, AnswerBytes, Writable, Merge, Meaning;
    if answers != [] {
      assert Writable(answers[0]) && AllWritable(answers[1..]);
      WrittenConcat(packet, offset, AnswerBytes(answers[0]), AnswersBytes(answers[1..]));
      AnswerReadsBack(packet, offset, answers[0]);
      AnswersReadBack(packet, offset + |AnswerBytes(answers[0])|, answers[1..], Merge(r, Meaning(answers[0])));
    }
  }

  lemma {:induction false} QuestionsAreSkipped(packet: seq<byte>, offset: nat, questions: seq<Question>)
    requires Askable(questions) && WrittenAt(packet, offset, QuestionsBytes(questions))
    ensures QuestionsEnd(packet, offset, |questions|) == Ok(offset + |QuestionsBytes(questions)|)
    decreases |questions|
  {
    hide NameAt, EncodedName, Encodable, NormalizeDnsName, WrittenAt;
    if questions != [] {
      var q, rest := questions[0], questions[1..];
      var name, next := EncodedName(q.name), offset + |EncodedName(q.name)| + 4;
      assert Askable(rest);
      WrittenConcat(packet, offset, name + q.typeAndClass, QuestionsBytes(rest));
      WrittenConcat(packet, offset, name, q.typeAndClass);
      EncodedNameDecodes(packet, offset, q.name);
      WrittenFits(packet, offset + |name|, q.typeAndClass);
      QuestionsAreSkipped(packet, next, rest);
    }
  }

  lemma {:induction false} WrittenFits(packet: seq<byte>, start: nat, part: seq<byte>)
    requires WrittenAt(packet, start, part)
    ensures start + |part| <= |packet|
  {
  }

  lemma {:induction false} HeaderReadsBack(packet: seq<byte>, m: Message)
    requires Sendable(m) && WrittenAt(packet, 0, Header(m))
    ensures |packet| >= HEADER_LEN && U16(packet, 4) == |m.questions|
    ensures U16(packet, 6) == |m.answers| && U16(packet, 8) == |m.authority| && U16(packet, 10) == |m.additional|
  {
    hide U16, Be16, WrittenAt, AllWritable, Askable;
    var qd, an, ns, ar := Be16(|m.questions|), Be16(|m.answers|), Be16(|m.authority|), Be16(|m.additional|);
    WrittenConcat(packet, 0, m.idAndFlags + qd + an + ns, ar);
    WrittenConcat(packet, 0, m.idAndFlags + qd + an, ns);
    WrittenConcat(packet, 0, m.idAndFlags + qd, an);
    WrittenConcat(packet, 0, m.idAndFlags, qd);
    Be16ReadsBack(packet, 4, |m.questions|);
    Be16ReadsBack(packet, 6, |m.answers|);
    Be16ReadsBack(packet, 8, |m.authority|);
    Be16ReadsBack(packet, 10, |m.additional|);
  }

  /** Scanning a packet skips its questions and teaches exactly its records, in order and in normal form. */
  lemma {:induction false} MessageIsLearnt(m: Message, r: Records)
    requires Sendable(m)
    ensures ScanPacket(MessageBytes(m), r) == Scan(Learn(r, RecordsOf(m)), None)
  {
    hide ScanFrom, QuestionsEnd, QuestionsBytes, AnswersBytes, Learn, AllWritable, Askable, Header, U16, WrittenAt;
    var packet, questions, records := MessageBytes(m), QuestionsBytes(m.questions), AnswersBytes(RecordsOf(m));
    WholeIsWritten(packet);
    WrittenConcat(packet, 0, Header(m), questions + records);
    WrittenConcat(packet, HEADER_LEN, questions, records);
    HeaderReadsBack(packet, m);
    QuestionsAreSkipped(packet, HEADER_LEN, m.questions);
    AnswersReadBack(packet, HEADER_LEN + |questions|, RecordsOf(m), r);
  }

  lemma {:induction false} WholeIsWritten(packet: seq<byte>)
    ensures WrittenAt(packet, 0, packet)
  {
  }

  // ----- What a packet leaves in the records -----

  function PointerIn(a: Answer): seq<Pointer> {
    if a.PtrAnswer? then [Pointer(NormalizeDnsName(a.owner), NormalizeDnsName(a.target))] else []
  }

  /** The pointers among the answers, in order. */
  function PointersIn(answers: seq<Answer>): seq<Pointer> {
    if answers == [] then [] else PointerIn(answers[0]) + PointersIn(answers[1..])
  }

  /** The last service answer of an owner. */
  function LastService(answers: seq<Answer>, owner: string): Option<SrvRecord> {
    if answers == [] then None
    else
      var a, later := answers[0], LastService(answers[1..], owner);
      if later.Some? then later
      else if a.SrvAnswer? && NormalizeDnsName(a.owner) == owner then
        Some(SrvRecord(NormalizeDnsName(a.target), a.port))
      else None
  }

  /** The pairs of the last text answer of an owner that has any. */
  function LastText(answers: seq<Answer>, owner: string): Option<map<string, string>> {
    if answers == [] then None
    else
      var a, later := answers[0], LastText(answers[1..], owner);
      if later.Some? then later
      else if a.TxtAnswer? && NormalizeDnsName(a.owner) == owner && TxtEntries(map[], a.entries) != map[] then
        Some(TxtEntries(map[], a.entries))
      else None
  }

  /** The addresses of an owner, in order. */
  function AddressesIn(answers: seq<Answer>, owner: string): seq<seq<byte>> {
    if answers == [] then []
    else
      var a := answers[0];
      (if a.AddressAnswer? && NormalizeDnsName(a.owner) == owner then [a.octets] else [])
      + AddressesIn(answers[1..], owner)
  }

  function Lookup<K, V>(m: map<K, V>, k: K): Option<V> {
    if k in m then Some(m[k]) else None
  }

  function Or<V>(a: Option<V>, b: Option<V>): Option<V> {
    if a.Some? then a else b
  }

  function AddressesOf(r: Records, owner: string): seq<seq<byte>> {
    if owner in r.addresses then r.addresses[owner] else []
  }

  /** What the records say about one owner afterwards: what they said before and what the answers say. */
  ghost predicate TeachesOf(answers: seq<Answer>, before: Records, after: Records, owner: string) {
    && Lookup(after.srv, owner) == Or(LastService(answers, owner), Lookup(before.srv, owner))
    && Lookup(after.txt, owner) == Or(LastText(answers, owner), Lookup(before.txt, owner))
    && AddressesOf(after, owner) == AddressesOf(before, owner) + AddressesIn(answers, owner)
    && (owner in after.addresses <==> owner in before.addresses || AddressesIn(answers, owner) != [])
  }

  ghost predicate Teaches(answers: seq<Answer>, before: Records, after: Records) {
    && after.ptr == before.ptr + PointersIn(answers)
    && forall owner :: TeachesOf(answers, before, after, owner)
  }

  lemma {:induction false} FirstTeaches(answers: seq<Answer>, r: Records, after: Records, owner: string)
    requires answers != []
    requires TeachesOf(answers[1..], Merge(r, Meaning(answers[0])), after, owner)
    ensures TeachesOf(answers, r, after, owner)
  {
    hide NormalizeDnsName, TxtEntries, AddressesOf, Merge, Meaning, Lookup;
    ServiceAndTextOf(answers[0], r, owner);
    var first := answers[0];
    var a := if first.AddressAnswer? && NormalizeDnsName(first.owner) == owner then [first.octets] else [];
    AddressesGrow(answers[0], r, owner);
    assert AddressesIn(answers, owner) == a + AddressesIn(answers[1..], owner);
    assert (AddressesOf(r, owner) + a) + AddressesIn(answers[1..], owner)
        == AddressesOf(r, owner) + AddressesIn(answers, owner);
  }

  lemma {:induction false} ServiceAndTextOf(a: Answer, r: Records, owner: string)
    ensures var s, own := Merge(r, Meaning(a)), NormalizeDnsName(a.owner) == owner;
            && Lookup(s.srv, owner) == (if a.SrvAnswer? && own then Some(SrvRecord(NormalizeDnsName(a.target), a.port))
                                        else Lookup(r.srv, owner))
            && Lookup(s.txt, owner) == (if a.TxtAnswer? && own && TxtEntries(map[], a.entries) != map[]
                                        then Some(TxtEntries(map[], a.entries)) else Lookup(r.txt, owner))
  {
    hide NormalizeDnsName, TxtEntries;
  }

  lemma {:induction false} AddressesGrow(a: Answer, r: Records, owner: string)
    ensures var s := Merge(r, Meaning(a));
            var more := if a.AddressAnswer? && NormalizeDnsName(a.owner) == owner then [a.octets] else [];
            && AddressesOf(s, owner) == AddressesOf(r, owner) + more
            && (owner in s.addresses <==> owner in r.addresses || more != [])
  {
    hide NormalizeDnsName, TxtEntries;
  }

  lemma {:induction false} PointersGrow(answers: seq<Answer>, r: Records)
    requires answers != []
    ensures Merge(r, Meaning(answers[0])).ptr + PointersIn(answers[1..]) == r.ptr + PointersIn(answers)
  {
    hide Merge, Meaning, PointerIn;
    PointerIsMerged(answers[0], r);
    ConcatIsAssociative(r.ptr, PointerIn(answers[0]), PointersIn(answers[1..]));
  }

  lemma {:induction false} PointerIsMerged(a: Answer, r: Records)
    ensures Merge(r, Meaning(a)).ptr == r.ptr + PointerIn(a)
  {
    hide NormalizeDnsName, TxtEntries;
  }

  lemma {:induction false} LearningTeaches(r: Records, answers: seq<Answer>)
    ensures Teaches(answers, r, Learn(r, answers))
    decreases |answers|
  {
    hide TeachesOf, Merge, Meaning, PointersIn;
    if answers == [] {
      NothingTeachesNothing(r);
    } else {
      var s := Merge(r, Meaning(answers[0]));
      var after := Learn(s, answers[1..]);
      LearningTeaches(s, answers[1..]);
      PointersGrow(answers, r);
      forall owner ensures TeachesOf(answers, r, after, owner) { FirstTeaches(answers, r, after, owner); }
    }
  }

  lemma {:induction false} NothingTeachesNothing(r: Records)
    ensures Teaches([], r, r)
  {
  }

  /** A scan of a written packet leaves in every field exactly what the packet's records say. */
  lemma {:induction false} MessageTeaches(m: Message, r: Records)
    requires Sendable(m)
    ensures ScanPacket(MessageBytes(m), r).error == None
    ensures Teaches(RecordsOf(m), r, ScanPacket(MessageBytes(m), r).records)
  {
    hide *;
    MessageIsLearnt(m, r);
    LearningTeaches(r, RecordsOf(m));
  }
}
