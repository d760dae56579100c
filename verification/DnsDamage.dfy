/** What the scanner makes of records it does not know and of packets that are cut short. */
module DnsDamage {
  import opened Base
  import opened Strings
  import opened Utf8
  import opened DnsName
  import opened DnsPacket
  import opened DnsResponse

  /**
   A record says nothing exactly if its type is not one of the five, if it is a
   service record too short for its fixed part, or an address of the wrong length.
   */
  lemma {:induction false} SaysNothing(packet: seq<byte>, owner: string, rrType: int, start: nat, len: nat)
    requires start + len <= |packet|
    ensures PayloadAt(packet, owner, rrType, start, len) == Ok(Ignored) <==>
            || rrType !in {1, 12, 16, 28, 33}
            || (rrType == 33 && len < 6) || (rrType == 1 && len != 4) || (rrType == 28 && len != 16)
  {
    hide NameAt, PairsFrom, NormalizeDnsName;
  }

  // ----- Cut names -----

  /** A name that the end of the packet cuts off does not decode. */
  lemma {:induction false} CutLabelsFail(packet: seq<byte>, start: nat, labels: seq<string>, k: nat)
    requires AllGood(labels) && k < |labels| && start < |packet| && AllGood(labels[..k]) && AllGood(labels[..k + 1])
    requires WrittenAt(packet, start, EncodedLabels(labels[..k]))
    requires |packet| < start + |EncodedLabels(labels[..k + 1])|
    requires start + |EncodedLabels(labels[..k])| < |packet| ==>
               packet[start + |EncodedLabels(labels[..k])|] == |Encode(labels[k])|
    ensures NameAt(packet, start).Err?
  {
    hide Encode, Decode, AsciiLower, NameAt, WalkAfter, LowerAll, EncodedLabels, WrittenAt;
    var c := start + |EncodedLabels(labels[..k])|;
    assert labels[..k][..k] == labels[..k];
    WalkReadsLabels(packet, start, labels[..k], k);
    LengthWith(labels, k);
    var w := Walk(c, LowerAll(labels[..k]), false, 0);
    WalkGoesOn(packet, start, k, w, StepAt(packet, c));
  }

  lemma {:induction false} LengthWith(labels: seq<string>, k: nat)
    requires k < |labels| && AllGood(labels[..k]) && AllGood(labels[..k + 1])
    ensures GoodLabel(labels[k]) && 1 <= |Encode(labels[k])| <= 63
    ensures EncodedLabels(labels[..k + 1]) == EncodedLabels(labels[..k]) + ([|Encode(labels[k])|] + Encode(labels[k]))
  {
    hide Encode;
    assert labels[..k + 1][..k] == labels[..k] && labels[..k + 1][k] == labels[k];
    EncodeAtLeastLength(labels[k]);
    ConcatIsAssociative(EncodedLabels(labels[..k]), [|Encode(labels[k])|], Encode(labels[k]));
  }

  /** The label in which a cut falls. */
  lemma {:induction false} CutLabel(labels: seq<string>, n: nat) returns (k: nat)
    requires AllGood(labels) && n < |EncodedLabels(labels)|
    ensures k < |labels| && AllGood(labels[..k]) && AllGood(labels[..k + 1])
    ensures |EncodedLabels(labels[..k])| <= n < |EncodedLabels(labels[..k + 1])|
    decreases |labels|
  {
    hide GoodLabel, Encode;
    var m := |labels| - 1;
    assert labels[..m + 1] == labels;
    if |EncodedLabels(labels[..m])| <= n {
      k := m;
    } else {
      k := CutLabel(labels[..m], n);
      assert labels[..m][..k] == labels[..k] && labels[..m][..k + 1] == labels[..k + 1];
    }
  }

  lemma {:induction false} CutNameFails(packet: seq<byte>, start: nat, name: string)
    requires Encodable(name) && start <= |packet| < start + |EncodedName(name)|
    requires packet[start..] <= EncodedName(name)
    ensures NameAt(packet, start).Err?
  {
    hide Encode, NameAt, Bare, Split, GoodLabel, EncodedLabels;
    var labels := Split(Bare(name), '.');
    var enc, all, n := EncodedLabels(labels), EncodedName(name), |packet| - start;
    NoNamePastEnd(packet, start);
    if n > 0 {
      if n == |enc| {
        assert labels[..|labels|] == labels;
        CutBeforeRoot(packet, start, labels);
      } else {
        var k := CutLabel(labels, n);
        EncodedLabelsPrefix(labels, k + 1);
        LengthWith(labels, k);
        CutPrefix(packet, start, all, EncodedLabels(labels[..k]), [|Encode(labels[k])|] + Encode(labels[k]));
        CutLabelsFail(packet, start, labels, k);
      }
    }
  }

  lemma {:induction false} CutBeforeRoot(packet: seq<byte>, start: nat, labels: seq<string>)
    requires AllGood(labels) && start < |packet| && packet[start..] == EncodedLabels(labels)
    ensures NameAt(packet, start).Err?
  {
    hide Encode, NameAt, EncodedLabels, WalkAfter, LowerAll;
    var n := |labels|;
    assert labels[..n] == labels;
    TailIsWritten(packet, start, EncodedLabels(labels), |EncodedLabels(labels)|);
    WalkReadsLabels(packet, start, labels, n);
    WalkGoesOn(packet, start, n, Walk(|packet|, LowerAll(labels), false, 0), StepAt(packet, |packet|));
  }

  lemma {:induction false} TailIsWritten(packet: seq<byte>, start: nat, all: seq<byte>, n: nat)
    requires start <= |packet| && packet[start..] <= all && n <= |packet| - start
    ensures WrittenAt(packet, start, all[..n])
    ensures start + n < |packet| ==> packet[start + n] == all[n]
  {
    forall i | 0 <= i < |packet| - start ensures packet[start + i] == all[i] {
      assert packet[start..][i] == packet[start + i];
    }
  }

  lemma {:induction false} CutPrefix(packet: seq<byte>, start: nat, all: seq<byte>, a: seq<byte>, b: seq<byte>)
    requires start <= |packet| && packet[start..] <= all && a + b <= all && b != []
    requires start + |a| <= |packet|
    ensures WrittenAt(packet, start, a) && (start + |a| < |packet| ==> packet[start + |a|] == b[0])
  {
    TailIsWritten(packet, start, all, |a|);
    assert all[..|a|] == a && all[|a|] == (a + b)[|a|] == b[0];
  }

  // ----- Cut records -----

  /** A record that the end of the packet cuts off is an error. */
  lemma {:induction false} CutRecordFails(packet: seq<byte>, offset: nat, a: Answer)
    requires Writable(a) && offset <= |packet| < offset + |AnswerBytes(a)|
    requires packet[offset..] <= AnswerBytes(a)
    ensures RecordAt(packet, offset).Err?
  {
    hide NameAt, NormalizeDnsName, EncodedName, Encodable, PayloadAt, Payload, U16, FixedFields, WrittenAt;
    var name, fixed, all := EncodedName(a.owner), FixedFields(a), AnswerBytes(a);
    var n := |packet| - offset;
    if n < |name| {
      assert packet[offset..] <= name;
      CutNameFails(packet, offset, a.owner);
    } else {
      TailIsWritten(packet, offset, all, |name|);
      assert all[..|name|] == name;
      EncodedNameDecodes(packet, offset, a.owner);
      if n >= |name| + 10 {
        TailIsWritten(packet, offset, all, |name| + 10);
        assert all[..|name| + 10] == name + fixed;
        WrittenConcat(packet, offset, name, fixed);
        FixedFieldsReadBack(packet, offset + |name|, a);
      }
    }
  }

  /** Reading on after written records. */
  lemma {:induction false} ScanGoesOn(packet: seq<byte>, offset: nat, answers: seq<Answer>, more: nat, r: Records)
    requires AllWritable(answers) && WrittenAt(packet, offset, AnswersBytes(answers))
    ensures ScanFrom(packet, offset, |answers| + more, r)
         == ScanFrom(packet, offset + |AnswersBytes(answers)|, more, Learn(r, answers))
    decreases |answers|
  {
    hide RecordAt, AnswerBytes, Writable, Merge, Meaning, WrittenAt;
    if answers != [] {
      assert Writable(answers[0]) && AllWritable(answers[1..]);
      WrittenConcat(packet, offset, AnswerBytes(answers[0]), AnswersBytes(answers[1..]));
      AnswerReadsBack(packet, offset, answers[0]);
      ScanGoesOn(packet, offset + |AnswerBytes(answers[0])|, answers[1..], more, Merge(r, Meaning(answers[0])));
    }
  }

  lemma {:induction false} AnswersSplit(answers: seq<Answer>, k: nat)
    requires AllWritable(answers) && k < |answers|
    ensures AllWritable(answers[..k]) && Writable(answers[k]) && AllWritable(answers[k + 1..])
    ensures AnswersBytes(answers)
         == AnswersBytes(answers[..k]) + (AnswerBytes(answers[k]) + AnswersBytes(answers[k + 1..]))
    decreases k
  {
    hide Writable, AnswerBytes;
    if k == 0 {
      assert answers[..0] == [] && [] + AnswersBytes(answers) == AnswersBytes(answers);
    } else {
      assert AllWritable(answers[1..]);
      AnswersSplit(answers[1..], k - 1);
      assert answers[1..][..k - 1] == answers[..k][1..] && answers[1..][k - 1] == answers[k];
      assert answers[1..][k..] == answers[k + 1..];
      ConcatIsAssociative(AnswerBytes(answers[0]), AnswersBytes(answers[..k][1..]),
                          AnswerBytes(answers[k]) + AnswersBytes(answers[k + 1..]));
    }
  }

  /** Where the records of a message before its record `k` end. */
  function RecordStart(m: Message, k: nat): nat
    requires Sendable(m) && k <= |RecordsOf(m)|
  {
    assert AllWritable(RecordsOf(m)[..k]);
    HEADER_LEN + |QuestionsBytes(m.questions)| + |AnswersBytes(RecordsOf(m)[..k])|
  }

  /** A packet cut short inside a record is an error, and teaches exactly the records before that one. */
  lemma {:induction false} CutRecordTeaches(m: Message, k: nat, n: nat, r: Records)
    requires Sendable(m) && k < |RecordsOf(m)| && RecordStart(m, k) <= n < RecordStart(m, k + 1)
    ensures n <= |MessageBytes(m)|
    ensures ScanPacket(MessageBytes(m)[..n], r).error.Some?
    ensures Teaches(RecordsOf(m)[..k], r, ScanPacket(MessageBytes(m)[..n], r).records)
  {
    hide ScanFrom, QuestionsEnd, QuestionsBytes, AnswersBytes, Learn, Header, U16, WrittenAt, RecordAt, AnswerBytes,
      Teaches, Writable, Askable;
    var records := RecordsOf(m);
    var q, before := QuestionsBytes(m.questions), AnswersBytes(records[..k]);
    AnswersSplit(records, k);
    AnswersSplit(records[..k + 1], k);
    assert records[..k + 1][..k] == records[..k] && records[..k + 1][k + 1..] == [];
    NoAnswers();
    var body := AnswerBytes(records[k]);
    var rest := AnswersBytes(records[k + 1..]);
    var whole := Header(m) + (q + (before + (body + rest)));
    assert whole == MessageBytes(m);
    CutMessage(whole, Header(m), q, before, body, rest, n);
    var packet := whole[..n];
    HeaderReadsBack(packet, m);
    QuestionsAreSkipped(packet, HEADER_LEN, m.questions);
    var offset := HEADER_LEN + |q|;
    ScanGoesOn(packet, offset, records[..k], |records| - k, r);
    CutRecordFails(packet, offset + |before|, records[k]);
    ScanStops(packet, offset + |before|, |records| - k, Learn(r, records[..k]));
    LearningTeaches(r, records[..k]);
  }

  // ----- Cut questions and headers -----

  lemma {:induction false} CutQuestionsFail(packet: seq<byte>, offset: nat, questions: seq<Question>)
    requires Askable(questions) && offset <= |packet| < offset + |QuestionsBytes(questions)|
    requires packet[offset..] <= QuestionsBytes(questions)
    ensures QuestionsEnd(packet, offset, |questions|).Err?
    decreases |questions|
  {
    hide NameAt, EncodedName, Encodable, NormalizeDnsName, WrittenAt;
    var q, rest := questions[0], questions[1..];
    assert Askable(rest);
    var name, all := EncodedName(q.name), QuestionsBytes(questions);
    var n := |packet| - offset;
    if n < |name| {
      assert packet[offset..] <= name;
      CutNameFails(packet, offset, q.name);
    } else {
      TailIsWritten(packet, offset, all, |name|);
      assert all[..|name|] == name;
      EncodedNameDecodes(packet, offset, q.name);
      if n >= |name| + 4 {
        assert all[|name| + 4..] == QuestionsBytes(rest);
        assert packet[offset + |name| + 4..] == packet[offset..][|name| + 4..];
        CutQuestionsFail(packet, offset + |name| + 4, rest);
      }
    }
  }

  /** A packet cut short before its records is an error and teaches nothing. */
  lemma {:induction false} CutBeforeRecords(m: Message, n: nat, r: Records)
    requires Sendable(m) && n < RecordStart(m, 0)
    ensures n <= |MessageBytes(m)|
    ensures ScanPacket(MessageBytes(m)[..n], r).error.Some? && ScanPacket(MessageBytes(m)[..n], r).records == r
  {
    hide ScanFrom, QuestionsEnd, QuestionsBytes, AnswersBytes, Header, U16, WrittenAt, Writable, Askable;
    assert RecordsOf(m)[..0] == [];
    NoAnswers();
    var q, rest := QuestionsBytes(m.questions), AnswersBytes(RecordsOf(m));
    var whole := MessageBytes(m);
    assert whole == Header(m) + (q + rest);
    var packet := whole[..n];
    if n >= HEADER_LEN {
      TailIsWritten(packet, 0, whole, HEADER_LEN);
      assert packet[0..] == packet && whole[..HEADER_LEN] == Header(m);
      HeaderReadsBack(packet, m);
      assert packet[HEADER_LEN..] == q[..n - HEADER_LEN];
      CutQuestionsFail(packet, HEADER_LEN, m.questions);
    }
  }

  // ----- Any cut -----

  /** The record in which a cut falls. */
  lemma {:induction false} CutRecord(m: Message, n: nat, limit: nat) returns (k: nat)
    requires Sendable(m) && limit <= |RecordsOf(m)| && RecordStart(m, 0) <= n < RecordStart(m, limit)
    ensures k < limit && RecordStart(m, k) <= n < RecordStart(m, k + 1)
    decreases limit
  {
    hide RecordStart;
    if RecordStart(m, limit - 1) <= n { k := limit - 1; } else { k := CutRecord(m, n, limit - 1); }
  }

  /**
   Every packet cut short anywhere is an error, and teaches exactly the records that
   are whole: the first `k`, with the cut before the end of the next one.
   */
  lemma {:induction false} CutMessageTeaches(m: Message, n: nat, r: Records) returns (k: nat)
    requires Sendable(m) && n < |MessageBytes(m)|
    ensures k <= |RecordsOf(m)| && (k > 0 ==> RecordStart(m, k) <= n)
    ensures k < |RecordsOf(m)| ==> n < RecordStart(m, k + 1)
    ensures ScanPacket(MessageBytes(m)[..n], r).error.Some?
    ensures Teaches(RecordsOf(m)[..k], r, ScanPacket(MessageBytes(m)[..n], r).records)
  {
    hide *;
    var all := RecordsOf(m);
    assert all[..|all|] == all;
    StartsGrow(m);
    if n < RecordStart(m, 0) {
      k := 0;
      CutBeforeRecords(m, n, r);
      NothingTeachesNothing(r);
      assert all[..0] == [];
    } else {
      k := CutRecord(m, n, |all|);
      CutRecordTeaches(m, k, n, r);
    }
  }

  lemma {:induction false} StartsGrow(m: Message)
    requires Sendable(m)
    ensures |MessageBytes(m)| == RecordStart(m, |RecordsOf(m)|)
    ensures RecordsOf(m) != [] ==> RecordStart(m, 0) <= RecordStart(m, 1)
  {
    hide Header, QuestionsBytes, Askable, Writable;
    var all := RecordsOf(m);
    assert all[..|all|] == all && all[..0] == [];
  }

  lemma {:induction false} NoAnswers()
    ensures AnswersBytes([]) == []
  {
  }

  lemma {:induction false} ScanStops(packet: seq<byte>, offset: nat, n: nat, r: Records)
    requires n > 0 && RecordAt(packet, offset).Err?
    ensures ScanFrom(packet, offset, n, r) == Scan(r, Some(RecordAt(packet, offset).error))
  {
    hide RecordAt;
  }

  lemma {:induction false} CutMessage(whole: seq<byte>, h: seq<byte>, q: seq<byte>, before: seq<byte>, body: seq<byte>,
                                      rest: seq<byte>, n: nat)
    requires whole == h + (q + (before + (body + rest)))
    requires |h| + |q| + |before| <= n < |h| + |q| + |before| + |body|
    ensures n <= |whole|
    ensures WrittenAt(whole[..n], 0, h) && WrittenAt(whole[..n], |h|, q) && WrittenAt(whole[..n], |h| + |q|, before)
    ensures whole[..n][|h| + |q| + |before|..] <= body
  {
    var p := |h| + |q| + |before|;
    assert whole[..p] == h + q + before;
    assert whole[..n][p..] == body[..n - p];
  }
}
