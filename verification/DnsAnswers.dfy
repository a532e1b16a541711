/** The answer section of a DNS response (section 4.1.3 of RFC 1035): `ReadRecvAnswer` and the
    loop of `socket_gethostbyname` that collects the IPv4 addresses. */
module DnsAnswers {
  import opened Bytes
  import opened DnsName
  import opened DnsReader

  const HEADER_SIZE: nat := 12
  const RESOURCE_SIZE: nat := 10
  const MAX_IP_COUNT: nat := 20
  const TYPE_A: nat := 1

  /** `ntohs` of the two bytes at `pos`. */
  function U16(msg: seq<byte>, pos: nat): word
    requires pos + 2 <= |msg|
  {
    Word(msg[pos], msg[pos + 1])
  }

  /** The value stands for the four parts of a dotted quad, the first part most significant. */
  predicate IsQuad(value: int, a: int, b: int, c: int, d: int) {
    value == 0x100_0000 * a + 0x1_0000 * b + 0x100 * c + d
  }

  /** `ntohl` of four bytes. */
  function U32(bytes: seq<byte>): (value: nat)
    requires |bytes| >= 4
    ensures IsQuad(value, bytes[0], bytes[1], bytes[2], bytes[3])
  {
    Word(bytes[0], bytes[1]) * 0x1_0000 + Word(bytes[2], bytes[3])
  }

  // ---------------------------------------------------------------------------
  // Records, delimited by RDLENGTH
  // ---------------------------------------------------------------------------

  datatype Record = Record(owner: seq<Label>, resource: nat, rtype: nat, rdlength: nat) {
    function Rdata(): nat {
      resource + RESOURCE_SIZE
    }

    function Next(): nat {
      Rdata() + rdlength
    }
  }

  /** The record at `pos`, if its owner name and its RDATA lie within the message. */
  function RecordAt(msg: seq<byte>, pos: nat): Option<Record> {
    match Decode(msg, pos, pos)
    case None => None
    case Some(owner) =>
      var resource := pos + owner.InPlace();
      if resource + RESOURCE_SIZE > |msg| then None
      else
        var record := Record(owner.labels, resource, U16(msg, resource), U16(msg, resource + 8));
        if record.Next() > |msg| then None else Some(record)
  }

  /** A record the source can walk over: an address, or a single name that fills its RDATA. */
  predicate Walkable(msg: seq<byte>, pos: nat) {
    match RecordAt(msg, pos)
    case None => false
    case Some(record) =>
      && Readable(msg, pos)
      && (record.rtype != TYPE_A ==>
            && Readable(msg, record.Rdata())
            && Decode(msg, record.Rdata(), record.Rdata()).value.InPlace() == record.rdlength)
  }

  /** Where record number `i` of the section at `pos` starts. */
  function Boundary(msg: seq<byte>, pos: nat, i: nat): nat {
    if i == 0 then pos
    else
      var last := Boundary(msg, pos, i - 1);
      match RecordAt(msg, last)
      case None => last
      case Some(record) => record.Next()
  }

  predicate WalkableSection(msg: seq<byte>, pos: nat, count: nat) {
    forall i :: 0 <= i < count ==> Walkable(msg, Boundary(msg, pos, i))
  }

  function RecordNumber(msg: seq<byte>, pos: nat, i: nat): Record
    requires Walkable(msg, Boundary(msg, pos, i))
  {
    RecordAt(msg, Boundary(msg, pos, i)).value
  }

  function Records(msg: seq<byte>, pos: nat, count: nat): seq<Record>
    requires WalkableSection(msg, pos, count)
  {
    seq(count, i requires 0 <= i < count => RecordNumber(msg, pos, i))
  }

  /** The number of answers the source looks at. */
  function AnswerCount(msg: seq<byte>): nat
    requires |msg| >= HEADER_SIZE
  {
    Min(MAX_IP_COUNT, U16(msg, 6))
  }

  /** The addresses of the A records, in order. */
  function Addresses(msg: seq<byte>, records: seq<Record>): (addresses: seq<nat>)
    requires forall i :: 0 <= i < |records| && records[i].rtype == TYPE_A ==> records[i].Rdata() + 4 <= |msg|
    ensures |addresses| <= |records|
  {
    if records == [] then []
    else (if records[0].rtype == TYPE_A then [U32(msg[records[0].Rdata()..])] else [])
         + Addresses(msg, records[1..])
  }

  // ---------------------------------------------------------------------------
  // ReadRecvAnswer
  // ---------------------------------------------------------------------------

  /** `RES_RECORD`; the `resource` pointer is an offset into the message. */
  datatype ResRecord = ResRecord(name: array?<byte>, resource: nat, rdata: array?<byte>)

  /** The entry `r` holds the record: its owner as dotted text, its fixed part, and its data, a
      copy of an A record's RDATA with a zero behind it or the name of any other record. */
  ghost predicate Holds(msg: seq<byte>, record: Record, r: ResRecord)
    requires record.Next() <= |msg|
    reads r.name, r.rdata
  {
    && r.name != null && CString(r.name[..]) == Join(record.owner)
    && r.resource == record.resource
    && r.rdata != null
    && if record.rtype == TYPE_A then
         r.rdata[..] == msg[record.Rdata()..record.Next()] + [0]
       else
         var data := Decode(msg, record.Rdata(), record.Rdata());
         data.Some? && CString(r.rdata[..]) == Join(data.value.labels)
  }

  /** One step of the walk: what the source computes from the name sizes and the fixed part is
      where the record's parts are, and the next boundary. */
  lemma RecordLayout(msg: seq<byte>, pos: nat, i: nat)
    requires Walkable(msg, Boundary(msg, pos, i))
    ensures var start, record := Boundary(msg, pos, i), RecordNumber(msg, pos, i);
      && Readable(msg, start) && Decode(msg, start, start).value.labels == record.owner
      && record.resource == start + Decode(msg, start, start).value.InPlace()
      && record.resource + RESOURCE_SIZE <= |msg|
      && record.rtype == U16(msg, record.resource) && record.rdlength == U16(msg, record.resource + 8)
      && Boundary(msg, pos, i + 1) == record.Next() <= |msg|
    ensures var record := RecordNumber(msg, pos, i);
      record.rtype != TYPE_A ==>
        && Readable(msg, record.Rdata())
        && Decode(msg, record.Rdata(), record.Rdata()).value.InPlace() == record.rdlength
  {
    hide Decode;
  }

  /** The walk over the answers: every entry holds its record, and the cursor ends behind the
      last record read. */
  method ReadRecvAnswer(buffer: seq<byte>, reader0: nat, answers: array<ResRecord>) returns (reader: nat)
    requires |buffer| >= HEADER_SIZE && answers.Length == MAX_IP_COUNT
    requires WalkableSection(buffer, reader0, AnswerCount(buffer))
    modifies answers
    ensures reader == Boundary(buffer, reader0, AnswerCount(buffer))
    ensures forall i :: 0 <= i < AnswerCount(buffer) ==>
      Holds(buffer, RecordNumber(buffer, reader0, i), answers[i])
    ensures forall i :: AnswerCount(buffer) <= i < MAX_IP_COUNT ==> answers[i] == old(answers[i])
  {
    hide Boundary, RecordNumber, Walkable, RecordAt, Readable, Decode, CString, Join;
    var answerCount := Min(MAX_IP_COUNT, U16(buffer, 6));
    RecordsFit(buffer, reader0, answerCount);
    assert reader0 == Boundary(buffer, reader0, 0) by { FirstBoundary(buffer, reader0); }
    reader := reader0;
    for i := 0 to answerCount
      invariant reader == Boundary(buffer, reader0, i)
      invariant forall k :: 0 <= k < i ==> Holds(buffer, RecordNumber(buffer, reader0, k), answers[k])
      invariant forall k :: i <= k < MAX_IP_COUNT ==> answers[k] == old(answers[k])
    {
      RecordLayout(buffer, reader0, i);
      var entry, next := ReadRecord(buffer, reader, RecordNumber(buffer, reader0, i));
      reader := next;
      answers[i] := entry;
    }
  }

  lemma RecordsFit(msg: seq<byte>, pos: nat, count: nat)
    requires WalkableSection(msg, pos, count)
    ensures forall i :: 0 <= i < count ==> RecordNumber(msg, pos, i).Next() <= |msg|
  {
    forall i | 0 <= i < count
      ensures RecordNumber(msg, pos, i).Next() <= |msg|
    {
      RecordLayout(msg, pos, i);
    }
  }

  lemma FirstBoundary(msg: seq<byte>, pos: nat)
    ensures Boundary(msg, pos, 0) == pos
  {
  }

  /** The body of the walk, for the record that starts at `reader0`. */
  method ReadRecord(buffer: seq<byte>, reader0: nat, ghost record: Record) returns (entry: ResRecord, reader: nat)
    requires Readable(buffer, reader0) && Decode(buffer, reader0, reader0).value.labels == record.owner
    requires record.resource == reader0 + Decode(buffer, reader0, reader0).value.InPlace()
    requires record.resource + RESOURCE_SIZE <= |buffer| && record.Next() <= |buffer|
    requires record.rtype == U16(buffer, record.resource) && record.rdlength == U16(buffer, record.resource + 8)
    requires record.rtype != TYPE_A ==>
      && Readable(buffer, record.Rdata())
      && Decode(buffer, record.Rdata(), record.Rdata()).value.InPlace() == record.rdlength
    ensures reader == record.Next()
    ensures Holds(buffer, record, entry)
  {
    hide Decode, CString, Join;
    var _, name, stop := ReadName(reader0, buffer);
    reader := reader0 + stop;
    var resource := reader;
    reader := reader + RESOURCE_SIZE;
    var rdata;
    if U16(buffer, resource) == TYPE_A {
      var length := U16(buffer, resource + 8);
      rdata := CopyRdata(buffer, reader, length);
      reader := reader + length;
    } else {
      var _, text, size := ReadName(reader, buffer);
      rdata, stop := text, size;
      reader := reader + stop;
    }
    entry := ResRecord(name, resource, rdata);
  }

  /** The copy of an A record's RDATA, one byte longer and zero-terminated. */
  method CopyRdata(buffer: seq<byte>, reader: nat, length: nat) returns (rdata: array<byte>)
    requires reader + length <= |buffer|
    ensures rdata[..] == buffer[reader..reader + length] + [0]
  {
    rdata := new byte[length + 1];
    for j := 0 to length
      invariant rdata[..j] == buffer[reader..reader + j]
    {
      rdata[j] := buffer[reader + j];
    }
    rdata[length] := 0;
  }

  // ---------------------------------------------------------------------------
  // Collecting the addresses
  // ---------------------------------------------------------------------------

  /** `socket_ipinfo_t`, an address kept as its 32-bit value. */
  class IpInfo {
    var size: nat
    const ip: array<nat>

    constructor ()
      ensures size == 0 && ip.Length == MAX_IP_COUNT && fresh(ip)
    {
      size := 0;
      ip := new nat[MAX_IP_COUNT];
    }
  }

  lemma {:induction false} AddressesAppend(msg: seq<byte>, records: seq<Record>, last: Record)
    requires forall i :: 0 <= i < |records| && records[i].rtype == TYPE_A ==> records[i].Rdata() + 4 <= |msg|
    requires last.rtype == TYPE_A ==> last.Rdata() + 4 <= |msg|
    ensures Addresses(msg, records + [last])
         == Addresses(msg, records) + if last.rtype == TYPE_A then [U32(msg[last.Rdata()..])] else []
  {
    hide U32;
    if records == [] {
      assert records + [last] == [last] && [last][1..] == [];
    } else {
      var rest := records[1..];
      assert (records + [last])[1..] == rest + [last] && (records + [last])[0] == records[0];
      assert forall i :: 0 <= i < |rest| ==> rest[i] == records[i + 1];
      AddressesAppend(msg, rest, last);
    }
  }

  /** Records as they stand in the message, with 4-byte addresses in the A records. */
  predicate Collectable(msg: seq<byte>, records: seq<Record>) {
    forall i :: 0 <= i < |records| ==>
      && records[i].Next() <= |msg| && records[i].rtype == U16(msg, records[i].resource)
      && (records[i].rtype == TYPE_A ==> records[i].rdlength == 4)
  }

  lemma SectionCollectable(msg: seq<byte>, pos: nat, count: nat)
    requires WalkableSection(msg, pos, count)
    requires forall i :: 0 <= i < count && RecordNumber(msg, pos, i).rtype == TYPE_A ==>
      RecordNumber(msg, pos, i).rdlength == 4
    ensures Collectable(msg, Records(msg, pos, count))
  {
    forall i | 0 <= i < count
      ensures RecordNumber(msg, pos, i).Next() <= |msg|
      ensures RecordNumber(msg, pos, i).rtype == U16(msg, RecordNumber(msg, pos, i).resource)
    {
      RecordLayout(msg, pos, i);
    }
  }

  /** The copy of an A record in its entry: the first four bytes are the address. */
  lemma EntryAddress(msg: seq<byte>, record: Record, r: ResRecord)
    requires record.Next() <= |msg| && Holds(msg, record, r)
    requires record.rtype == TYPE_A && record.rdlength == 4
    ensures r.rdata != null && r.rdata.Length == 5 && U32(r.rdata[..]) == U32(msg[record.Rdata()..])
  {
    var copy := msg[record.Rdata()..record.Next()];
    assert |r.rdata[..]| == |copy + [0]|;
    assert forall k :: 0 <= k < 4 ==> r.rdata[..][k] == copy[k] == msg[record.Rdata()..][k];
  }

  /** The loop that turns the entries into the caller's list. */
  method CollectAddresses(buffer: seq<byte>, ghost records: seq<Record>, answers: array<ResRecord>, info: IpInfo)
    requires |buffer| >= HEADER_SIZE && answers.Length == MAX_IP_COUNT && info.ip.Length == MAX_IP_COUNT
    requires |records| == AnswerCount(buffer) && Collectable(buffer, records)
    requires forall i :: 0 <= i < |records| ==> Holds(buffer, records[i], answers[i])
    modifies info, info.ip
    ensures info.size <= MAX_IP_COUNT && info.ip[..info.size] == Addresses(buffer, records)
  {
    hide U32, Addresses, CString, Join, Decode, U16;
    var answerCount := Min(MAX_IP_COUNT, U16(buffer, 6));
    info.size := 0;
    for i := 0 to answerCount
      invariant info.size <= i
      invariant info.ip[..info.size] == Addresses(buffer, records[..i])
      invariant forall k :: 0 <= k < |records| ==> Holds(buffer, records[k], answers[k])
    {
      AddressesAppend(buffer, records[..i], records[i]);
      assert records[..i + 1] == records[..i] + [records[i]];
      if U16(buffer, answers[i].resource) == TYPE_A {
        EntryAddress(buffer, records[i], answers[i]);
        var p := answers[i].rdata;
        info.ip[info.size] := U32(p[..]);
        info.size := info.size + 1;
      }
    }
    assert records[..|records|] == records;
  }

  /** `socket_gethostbyname` once a response is in `buffer`: the list handed back is exactly the A
      addresses among the first 20 records, in order, and the call succeeds if there is one. */
  method HandleResponse(buffer: seq<byte>, reader: nat, info: IpInfo) returns (ret: int)
    requires |buffer| >= HEADER_SIZE && info.ip.Length == MAX_IP_COUNT
    requires WalkableSection(buffer, reader, AnswerCount(buffer))
    requires forall i :: 0 <= i < AnswerCount(buffer) && RecordNumber(buffer, reader, i).rtype == TYPE_A ==>
      RecordNumber(buffer, reader, i).rdlength == 4
    modifies info, info.ip
    ensures Collectable(buffer, Records(buffer, reader, AnswerCount(buffer)))
    ensures info.size <= MAX_IP_COUNT
    ensures info.ip[..info.size] == Addresses(buffer, Records(buffer, reader, AnswerCount(buffer)))
    ensures ret == if info.size == 0 then -1 else 0
  {
    var answers := new ResRecord[MAX_IP_COUNT](_ => ResRecord(null, 0, null));
    ghost var records := Records(buffer, reader, AnswerCount(buffer));
    SectionCollectable(buffer, reader, AnswerCount(buffer));
    var _ := ReadRecvAnswer(buffer, reader, answers);
    CollectAddresses(buffer, records, answers, info);
    ret := if info.size == 0 then -1 else 0;
  }
}
