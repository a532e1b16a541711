/** A lookup from end to end: the response a server gives to the query for a host, with its answers
    compressed against the question, hands back the addresses it carries. */
module DnsResponse {
  import opened Bytes
  import opened DnsName
  import opened DnsReader
  import opened DnsAnswers
  import opened DnsQuery

  const ANSWER_SIZE: nat := 16

  /** A response header that echoes one question and announces `n` answers. */
  function ResponseHeader(id: word, n: word): seq<byte> {
    [id % 256, id / 256, 0x81, 0x80, 0, 1, n / 256, n % 256, 0, 0, 0, 0]
  }

  /** An A record of class IN whose owner is a pointer to the question's name. */
  function Answer(address: seq<byte>): seq<byte> {
    Pointer(HEADER_SIZE) + [0, 1, 0, 1, 0, 0, 0, 60, 0, 4] + address
  }

  function Answers(addresses: seq<seq<byte>>): seq<byte> {
    if addresses == [] then []
    else Answers(addresses[..|addresses| - 1]) + Answer(addresses[|addresses| - 1])
  }

  predicate FourBytes(addresses: seq<seq<byte>>) {
    forall k :: 0 <= k < |addresses| ==> |addresses[k]| == 4
  }

  function Response(id: word, host: seq<byte>, addresses: seq<seq<byte>>): seq<byte>
    requires |addresses| < 0x1_0000
  {
    ResponseHeader(id, |addresses|) + Encoded(host) + ADDRESS_QUESTION + Answers(addresses)
  }

  /** Where the source starts to read answers: `strlen(qname) + 1` octets behind the header, and
      the question. */
  function AnswersStart(host: seq<byte>): nat {
    HEADER_SIZE + StrLen(Encoded(host)) + 1 + QUESTION_SIZE
  }

  lemma {:induction false} AnswersLength(addresses: seq<seq<byte>>)
    requires FourBytes(addresses)
    ensures |Answers(addresses)| == ANSWER_SIZE * |addresses|
  {
    if addresses == [] {
    } else {
      AnswersLength(addresses[..|addresses| - 1]);
    }
  }

  lemma {:induction false} AnswerNumber(addresses: seq<seq<byte>>, i: nat, from: nat)
    requires FourBytes(addresses) && i < |addresses| && from == ANSWER_SIZE * i
    ensures from + ANSWER_SIZE <= |Answers(addresses)|
    ensures Answers(addresses)[from..from + ANSWER_SIZE] == Answer(addresses[i])
    decreases |addresses|
  {
    hide Answer;
    var n := |addresses| - 1;
    var front := addresses[..n];
    AnswersLength(addresses);
    AnswersLength(front);
    if i == n {
    } else {
      AnswerNumber(front, i, from);
      assert Answers(addresses)[from..from + ANSWER_SIZE] == Answers(front)[from..from + ANSWER_SIZE];
    }
  }

  /** The parts of a response. */
  lemma ResponseParts(id: word, host: seq<byte>, addresses: seq<seq<byte>>)
    requires 0 !in host && TextLabels(Split(host)) && |addresses| < 0x1_0000
    ensures var msg, start := Response(id, host, addresses), AnswersStart(host);
      && start == HEADER_SIZE + |host| + 2 + QUESTION_SIZE
      && |msg| == start + |Answers(addresses)| && msg[start..] == Answers(addresses)
      && U16(msg, 6) == |addresses|
      && Decode(msg, HEADER_SIZE, HEADER_SIZE) == Some(Name(Split(host), |host| + 1, false))
  {
    hide Split, Decode, Flat, Answers;
    JoinSplit(host);
    QnameLengthIff(host);
    TextIsVisible(Split(host));
    var msg := Response(id, host, addresses);
    var tail := ADDRESS_QUESTION + Answers(addresses);
    assert msg == ResponseHeader(id, |addresses|) + Encoded(host) + tail;
    ThreeParts(msg, ResponseHeader(id, |addresses|), Encoded(host), tail);
    EncodedDecodesIff(msg, HEADER_SIZE, host);
  }

  /** The octets of an answer where it stands in the message. */
  lemma AnswerBytes(msg: seq<byte>, pos: nat, address: seq<byte>)
    requires pos + ANSWER_SIZE <= |msg| && |address| == 4
    requires msg[pos..pos + ANSWER_SIZE] == Answer(address)
    ensures msg[pos..pos + 2] == Pointer(HEADER_SIZE)
    ensures U16(msg, pos + 2) == TYPE_A && U16(msg, pos + 10) == 4
    ensures U32(msg[pos + 12..]) == U32(address)
  {
    hide U32, Pointer;
    var answer, fixed := Answer(address), [0, 1, 0, 1, 0, 0, 0, 60, 0, 4];
    var found := msg[pos..pos + ANSWER_SIZE];
    ThreeParts(found, Pointer(HEADER_SIZE), fixed, address);
    assert |Pointer(HEADER_SIZE)| == 2 by { PointerIs(HEADER_SIZE); }
    assert forall k :: 0 <= k < 2 ==> msg[pos + k] == found[k] == Pointer(HEADER_SIZE)[k];
    assert msg[pos..pos + 2] == found[..2] == Pointer(HEADER_SIZE);
    assert found[2..12] == fixed;
    assert msg[pos + 2] == found[2] == found[2..12][0] && msg[pos + 3] == found[3] == found[2..12][1];
    assert msg[pos + 10] == found[10] == found[2..12][8] && msg[pos + 11] == found[11] == found[2..12][9];
    U32Same(msg[pos + 12..], address);
  }

  lemma U32Same(a: seq<byte>, b: seq<byte>)
    requires |a| >= 4 && |b| >= 4 && forall k :: 0 <= k < 4 ==> a[k] == b[k]
    ensures U32(a) == U32(b)
  {
  }

  /** One answer as the record parser reads it. */
  lemma AnswerIsRecord(msg: seq<byte>, pos: nat, address: seq<byte>, name: Name)
    requires HEADER_SIZE < pos && pos + ANSWER_SIZE <= |msg| && |address| == 4
    requires msg[pos..pos + ANSWER_SIZE] == Answer(address)
    requires Decode(msg, HEADER_SIZE, HEADER_SIZE) == Some(name)
    requires name.labels != [] && TextLabels(name.labels) && |Flat(name.labels)| < INIT_SIZE
    ensures Walkable(msg, pos)
    ensures RecordAt(msg, pos) == Some(Record(name.labels, pos + 2, TYPE_A, 4))
    ensures U32(msg[pos + 12..]) == U32(address)
  {
    hide Decode, TextLabels, Flat, U32, U16, Answer, Pointer, RecordAt, Walkable;
    AnswerBytes(msg, pos, address);
    PointerDecodes(msg, pos, pos, HEADER_SIZE, name);
    CompressedRecord(msg, pos, name.labels);
  }

  lemma CompressedRecord(msg: seq<byte>, pos: nat, labels: seq<Label>)
    requires pos + ANSWER_SIZE <= |msg| && Decode(msg, pos, pos) == Some(Name(labels, 0, true))
    requires U16(msg, pos + 2) == TYPE_A && U16(msg, pos + 10) == 4
    requires labels != [] && TextLabels(labels) && |Flat(labels)| < INIT_SIZE
    ensures RecordAt(msg, pos) == Some(Record(labels, pos + 2, TYPE_A, 4)) && Walkable(msg, pos)
  {
    hide Decode, TextLabels, Flat;
  }

  lemma SliceOfTail(msg: seq<byte>, start: nat, from: nat, n: nat, pos: nat)
    requires pos == start + from && pos + n <= |msg|
    ensures msg[pos..pos + n] == msg[start..][from..from + n]
  {
    var tail := msg[start..];
    var direct, inner := msg[pos..pos + n], tail[from..from + n];
    forall k | 0 <= k < n
      ensures direct[k] == inner[k]
    {
      assert tail[from + k] == msg[start + (from + k)];
    }
  }

  /** The records stand side by side. */
  lemma {:induction false} Boundaries(msg: seq<byte>, start: nat, addresses: seq<seq<byte>>, name: Name, i: nat)
    requires HEADER_SIZE < start <= |msg| && msg[start..] == Answers(addresses) && FourBytes(addresses)
    requires Decode(msg, HEADER_SIZE, HEADER_SIZE) == Some(name)
    requires name.labels != [] && TextLabels(name.labels) && |Flat(name.labels)| < INIT_SIZE
    requires i <= |addresses|
    ensures Boundary(msg, start, i) == start + ANSWER_SIZE * i
    ensures i < |addresses| ==>
      && Walkable(msg, Boundary(msg, start, i))
      && RecordNumber(msg, start, i) == Record(name.labels, start + ANSWER_SIZE * i + 2, TYPE_A, 4)
      && U32(msg[RecordNumber(msg, start, i).Rdata()..]) == U32(addresses[i])
    decreases i
  {
    hide Answers, Answer, Walkable, RecordAt, Decode, TextLabels, Flat, U32;
    if i == 0 {
    } else {
      Boundaries(msg, start, addresses, name, i - 1);
      RecordLayout(msg, start, i - 1);
    }
    if i < |addresses| {
      var from := ANSWER_SIZE * i;
      var pos := start + from;
      AnswerNumber(addresses, i, from);
      SliceOfTail(msg, start, from, ANSWER_SIZE, pos);
      AnswerIsRecord(msg, pos, addresses[i], name);
    }
  }

  /** The addresses as 32-bit values. */
  function Values(addresses: seq<seq<byte>>): seq<nat>
    requires FourBytes(addresses)
  {
    seq(|addresses|, i requires 0 <= i < |addresses| => U32(addresses[i]))
  }

  /** The value of an address given by its four octets. */
  predicate Carries(value: nat, address: seq<byte>) {
    |address| == 4 && IsQuad(value, address[0], address[1], address[2], address[3])
  }

  lemma ValuesAreQuads(addresses: seq<seq<byte>>)
    requires FourBytes(addresses)
    ensures forall i :: 0 <= i < |addresses| ==> Carries(Values(addresses)[i], addresses[i])
  {
  }

  lemma {:induction false} AddressesAre(msg: seq<byte>, records: seq<Record>, addresses: seq<seq<byte>>, n: nat)
    requires FourBytes(addresses) && n <= |records| == |addresses|
    requires forall i :: 0 <= i < |records| ==>
      && records[i].rtype == TYPE_A && records[i].Rdata() + 4 <= |msg|
      && U32(msg[records[i].Rdata()..]) == U32(addresses[i])
    ensures Addresses(msg, records[..n]) == Values(addresses)[..n]
    decreases n
  {
    hide U32, Addresses;
    if n == 0 {
      NoAddresses(msg);
      assert records[..0] == [];
    } else {
      AddressesAre(msg, records, addresses, n - 1);
      AddressesAppend(msg, records[..n - 1], records[n - 1]);
      assert records[..n] == records[..n - 1] + [records[n - 1]];
      assert Values(addresses)[..n] == Values(addresses)[..n - 1] + [U32(addresses[n - 1])];
    }
  }

  lemma NoAddresses(msg: seq<byte>)
    ensures Addresses(msg, []) == []
  {
  }

  /** The response to the query for a host, for any host of text labels within the limits of
      section 2.3.4 of RFC 1035: its answers form a section the source can walk over, and the
      addresses in it are those that were put in, in their order; of more than 20, the first 20. */
  lemma ResponseAddresses(id: word, host: seq<byte>, addresses: seq<seq<byte>>)
    requires 0 !in host && TextLabels(Split(host)) && |Flat(Split(host))| + 1 <= 255
    requires FourBytes(addresses) && |addresses| < 0x1_0000
    ensures var msg, start, count := Response(id, host, addresses), AnswersStart(host), Min(20, |addresses|);
      && |msg| >= HEADER_SIZE && AnswerCount(msg) == count && WalkableSection(msg, start, count)
      && (forall i :: 0 <= i < count ==> RecordNumber(msg, start, i).rtype == TYPE_A && RecordNumber(msg, start, i).rdlength == 4)
      && Collectable(msg, Records(msg, start, count))
      && Addresses(msg, Records(msg, start, count)) == Values(addresses)[..count]
      && forall i :: 0 <= i < count ==> Carries(Addresses(msg, Records(msg, start, count))[i], addresses[i])
  {
    var msg, start, count := Response(id, host, addresses), AnswersStart(host), Min(MAX_IP_COUNT, |addresses|);
    JoinSplit(host);
    ResponseParts(id, host, addresses);
    var name := Name(Split(host), |host| + 1, false);
    hide Split, Flat, Decode, Response, AnswersStart, Answers, Encoded, TextLabels, Walkable, RecordAt, U32, Addresses, Boundary, Carries;
    AnswersLength(addresses);
    forall i | 0 <= i < count
      ensures Walkable(msg, Boundary(msg, start, i))
      ensures RecordNumber(msg, start, i).rtype == TYPE_A && RecordNumber(msg, start, i).rdlength == 4
      ensures RecordNumber(msg, start, i).Rdata() + 4 <= |msg|
      ensures U32(msg[RecordNumber(msg, start, i).Rdata()..]) == U32(addresses[i])
    {
      Boundaries(msg, start, addresses, name, i);
    }
    SectionCollectable(msg, start, count);
    var records := Records(msg, start, count);
    FirstAddresses(addresses, count);
    AddressesAre(msg, records, addresses[..count], count);
    assert records[..count] == records;
    ValuesAreQuads(addresses);
  }

  /** So a lookup that gets this response hands back exactly these addresses. */
  method LookupRoundTrip(
      buffer: seq<byte>, reader: nat, id: word, host: seq<byte>, addresses: seq<seq<byte>>, info: IpInfo)
    returns (ret: int)
    requires 0 !in host && TextLabels(Split(host)) && |Flat(Split(host))| + 1 <= 255
    requires FourBytes(addresses) && |addresses| < 0x1_0000 && info.ip.Length == MAX_IP_COUNT
    requires buffer == Response(id, host, addresses) && reader == AnswersStart(host)
    modifies info, info.ip
    ensures info.size == Min(20, |addresses|)
    ensures forall i :: 0 <= i < info.size ==> Carries(info.ip[i], addresses[i])
    ensures ret == 0 <==> addresses != []
  {
    ResponseAddresses(id, host, addresses);
    hide Split, Flat, Response, AnswersStart, TextLabels, Walkable, Boundary, Addresses, AnswerCount, U32, Carries;
    ret := HandleResponse(buffer, reader, info);
    assert forall i :: 0 <= i < info.size ==> info.ip[i] == info.ip[..info.size][i];
  }

  lemma FirstAddresses(addresses: seq<seq<byte>>, n: nat)
    requires FourBytes(addresses) && n <= |addresses|
    ensures FourBytes(addresses[..n]) && Values(addresses[..n])[..n] == Values(addresses)[..n]
  {
  }
}
