/**
 Multicast DNS packets: collecting service records from a response, and the packets a
 peer sends them in (section 4.1 of RFC 1035).
 */
module DnsPacket {
  import opened Base
  import opened Strings
  import opened Utf8
  import opened DnsName

  const HEADER_LEN := 12
  const TYPE_A := 1
  const TYPE_PTR := 12
  const TYPE_TXT := 16
  const TYPE_AAAA := 28
  const TYPE_SRV := 33

  datatype PacketError =
    | ShortPacket
    | BadName(error: Error)
    | TruncatedQuestion
    | TruncatedHeader
    | TruncatedPayload

  datatype SrvRecord = SrvRecord(target: string, port: int)

  datatype Pointer = Pointer(owner: string, instance: string)

  /** What has been learnt so far; names are in normal form. */
  datatype Records = Records(
    ptr: seq<Pointer>,
    srv: map<string, SrvRecord>,
    txt: map<string, map<string, string>>,
    addresses: map<string, seq<seq<byte>>>)

  /** One resource record. */
  datatype Record =
    | Ptr(owner: string, instance: string)
    | Srv(owner: string, srv: SrvRecord)
    | Txt(owner: string, pairs: map<string, string>)
    | Address(owner: string, octets: seq<byte>)
    | Ignored

  function Merge(r: Records, rec: Record): Records {
    match rec
    case Ptr(owner, instance) => r.(ptr := r.ptr + [Pointer(owner, instance)])
    case Srv(owner, srv) => r.(srv := r.srv[owner := srv])
    case Txt(owner, pairs) => if pairs == map[] then r else r.(txt := r.txt[owner := pairs])
    case Address(owner, octets) =>
      r.(addresses := r.addresses[owner := (if owner in r.addresses then r.addresses[owner] else []) + [octets]])
    case Ignored => r
  }

  // ----- TXT payloads -----

  /** One entry: `key=value`, or a key alone; keys are case-insensitive. */
  function WithEntry(m: map<string, string>, text: string): map<string, string> {
    match SplitOnce(text, '=')
    case Some((key, value)) => m[AsciiLower(key) := value]
    case None => m[AsciiLower(text) := []]
  }

  /** The entries from an offset on: each a length byte and that many bytes; a cut-off one ends the list. */
  function PairsFrom(m: map<string, string>, payload: seq<byte>, cursor: nat): map<string, string>
    decreases |payload| - cursor
  {
    if cursor >= |payload| then m
    else
      var len: int := payload[cursor];
      var next := cursor + 1 + len;
      if next > |payload| then m
      else if len == 0 then PairsFrom(m, payload, next)
      else
        match Decode(payload[cursor + 1..next])
        case None => PairsFrom(m, payload, next)
        case Some(text) => PairsFrom(WithEntry(m, text), payload, next)
  }

  method ParseTxtPairs(payload: seq<byte>) returns (values: map<string, string>)
    ensures values == PairsFrom(map[], payload, 0)
  {
    hide Decode, WithEntry;
    values := map[];
    var cursor := 0;
    while cursor < |payload|
      invariant 0 <= cursor
      invariant PairsFrom(values, payload, cursor) == PairsFrom(map[], payload, 0)
    {
      var len: int := payload[cursor];
      cursor := cursor + 1;
      if cursor + len > |payload| {
        break;
      }
      if len == 0 {
        continue;
      }
      var text := Decode(payload[cursor..cursor + len]);
      if text.Some? {
        values := WithEntry(values, text.value);
      }
      cursor := cursor + len;
    }
  }

  // ----- Sections of a packet -----

  function U16(packet: seq<byte>, offset: nat): nat
    requires offset + 2 <= |packet|
  {
    var high: int := packet[offset];
    high * 256 + packet[offset + 1]
  }

  /** Where `n` questions that start at `offset` end. */
  ghost function QuestionsEnd(packet: seq<byte>, offset: nat, n: nat): Result<nat, PacketError>
    decreases n
  {
    if n == 0 then Ok(offset)
    else
      match NameAt(packet, offset)
      case Err(e) => Err(BadName(e))
      case Ok(d) => if d.next + 4 > |packet| then Err(TruncatedQuestion) else QuestionsEnd(packet, d.next + 4, n - 1)
  }

  datatype Parsed = Parsed(record: Record, next: nat)

  /** What the payload of a record says. */
  ghost function PayloadAt(packet: seq<byte>, owner: string, rrType: int, start: nat, len: nat)
    : Result<Record, PacketError>
    requires start + len <= |packet|
  {
    if rrType == TYPE_PTR then
      match NameAt(packet, start)
      case Err(e) => Err(BadName(e))
      case Ok(d) => Ok(Ptr(owner, NormalizeDnsName(d.name)))
    else if rrType == TYPE_SRV && len >= 6 then
      match NameAt(packet, start + 6)
      case Err(e) => Err(BadName(e))
      case Ok(d) => Ok(Srv(owner, SrvRecord(NormalizeDnsName(d.name), U16(packet, start + 4))))
    else if rrType == TYPE_TXT then Ok(Txt(owner, PairsFrom(map[], packet[start..start + len], 0)))
    else if (rrType == TYPE_A && len == 4) || (rrType == TYPE_AAAA && len == 16) then
      Ok(Address(owner, packet[start..start + len]))
    else Ok(Ignored)
  }

  ghost function RecordAt(packet: seq<byte>, offset: nat): Result<Parsed, PacketError> {
    match NameAt(packet, offset)
    case Err(e) => Err(BadName(e))
    case Ok(d) =>
      if d.next + 10 > |packet| then Err(TruncatedHeader)
      else
        var start, len := d.next + 10, U16(packet, d.next + 8);
        if start + len > |packet| then Err(TruncatedPayload)
        else
          match PayloadAt(packet, NormalizeDnsName(d.name), U16(packet, d.next), start, len)
          case Err(e) => Err(e)
          case Ok(record) => Ok(Parsed(record, start + len))
  }

  /** What a scan has collected, and the error that ended it early, if any. */
  datatype Scan = Scan(records: Records, error: Option<PacketError>)

  ghost function ScanFrom(packet: seq<byte>, offset: nat, n: nat, r: Records): Scan
    decreases n
  {
    if n == 0 then Scan(r, None)
    else
      match RecordAt(packet, offset)
      case Err(e) => Scan(r, Some(e))
      case Ok(p) => ScanFrom(packet, p.next, n - 1, Merge(r, p.record))
  }

  /** A packet's effect on the records: questions are skipped, then all three record sections are read. */
  ghost function ScanPacket(packet: seq<byte>, r: Records): Scan {
    if |packet| < HEADER_LEN then Scan(r, Some(ShortPacket))
    else
      match QuestionsEnd(packet, HEADER_LEN, U16(packet, 4))
      case Err(e) => Scan(r, Some(e))
      case Ok(offset) => ScanFrom(packet, offset, U16(packet, 6) + U16(packet, 8) + U16(packet, 10), r)
  }

  // ----- The scanner -----

  method ReadPayload(packet: seq<byte>, owner: string, rrType: int, start: nat, len: nat)
    returns (r: Result<Record, PacketError>)
    requires start + len <= |packet|
    ensures r == PayloadAt(packet, owner, rrType, start, len)
  {
    hide NameAt, PairsFrom, NormalizeDnsName;
    if rrType == TYPE_PTR {
      var name := DecodeDnsName(packet, start);
      if name.Err? { return Err(BadName(name.error)); }
      return Ok(Ptr(owner, NormalizeDnsName(name.value.name)));
    } else if rrType == TYPE_SRV {
      if len >= 6 {
        var port := U16(packet, start + 4);
        var name := DecodeDnsName(packet, start + 6);
        if name.Err? { return Err(BadName(name.error)); }
        return Ok(Srv(owner, SrvRecord(NormalizeDnsName(name.value.name), port)));
      }
    } else if rrType == TYPE_TXT {
      var pairs := ParseTxtPairs(packet[start..start + len]);
      return Ok(Txt(owner, pairs));
    } else if rrType == TYPE_A {
      if len == 4 { return Ok(Address(owner, packet[start..start + len])); }
    } else if rrType == TYPE_AAAA {
      if len == 16 { return Ok(Address(owner, packet[start..start + len])); }
    }
    return Ok(Ignored);
  }

  method ReadRecord(packet: seq<byte>, offset: nat) returns (r: Result<Parsed, PacketError>)
    ensures r == RecordAt(packet, offset)
  {
    hide NameAt, PayloadAt, NormalizeDnsName;
    var owner := DecodeDnsName(packet, offset);
    if owner.Err? {
      return Err(BadName(owner.error));
    }
    var at := owner.value.next;
    if at + 10 > |packet| {
      return Err(TruncatedHeader);
    }
    var rrType, len := U16(packet, at), U16(packet, at + 8);
    at := at + 10;
    if at + len > |packet| {
      return Err(TruncatedPayload);
    }
    var record := ReadPayload(packet, NormalizeDnsName(owner.value.name), rrType, at, len);
    if record.Err? {
      return Err(record.error);
    }
    return Ok(Parsed(record.value, at + len));
  }

  /** Merges the records of a packet; on an error, those before it have been merged. */
  method MergeRecordsFromPacket(records: Records, packet: seq<byte>)
    returns (records': Records, error: Option<PacketError>)
    ensures Scan(records', error) == ScanPacket(packet, records)
  {
    hide NameAt, RecordAt, Merge;
    records' := records;
    if |packet| < HEADER_LEN {
      return records', Some(ShortPacket);
    }
    var questions, total := U16(packet, 4), U16(packet, 6) + U16(packet, 8) + U16(packet, 10);
    var offset: nat := HEADER_LEN;
    for i := 0 to questions
      invariant QuestionsEnd(packet, HEADER_LEN, questions) == QuestionsEnd(packet, offset, questions - i)
    {
      var name := DecodeDnsName(packet, offset);
      if name.Err? {
        return records', Some(BadName(name.error));
      }
      offset := name.value.next;
      if offset + 4 > |packet| {
        return records', Some(TruncatedQuestion);
      }
      offset := offset + 4;
    }
    ghost var start := offset;
    for i := 0 to total
      invariant ScanFrom(packet, start, total, records) == ScanFrom(packet, offset, total - i, records')
    {
      var parsed := ReadRecord(packet, offset);
      if parsed.Err? {
        return records', Some(parsed.error);
      }
      records' := Merge(records', parsed.value.record);
      offset := parsed.value.next;
    }
    return records', None;
  }
}
