/** Building a DNS query (sections 3.1, 4.1.1 and 4.1.2 of RFC 1035): `ChangetoDnsNameFormat` and
    `PrepareDnsQueryPacket`, and the round trip of a host name through the packet. */
module DnsQuery {
  import opened Bytes
  import opened DnsName
  import opened DnsReader
  import opened DnsAnswers

  const QUESTION_SIZE: nat := 4

  /** What the source writes for a host: its labels with their length octets and a zero. */
  function Encoded(host: seq<byte>): seq<byte> {
    Flat(Split(host)) + [0]
  }

  /** The encoded host part by part: each part between dots has its length octet in front. */
  lemma EncodedIs(part: seq<byte>, rest: seq<byte>)
    requires 46 !in part
    ensures Encoded(part) == [|part| % 256] + part + [0]
    ensures Encoded(part + [46] + rest) == [|part| % 256] + part + Encoded(rest)
  {
    hide Terminated, Flat;
    TerminatedFirst(part, []);
    TerminatedFirst(part, rest + [DOT]);
    assert part + [DOT] + [] == part + [DOT];
    assert part + [DOT] + (rest + [DOT]) == part + [DOT] + rest + [DOT];
    FlatCons(part, Terminated([]));
    FlatCons(part, Terminated(rest + [DOT]));
    NoParts([]);
  }

  // ---------------------------------------------------------------------------
  // ChangetoDnsNameFormat
  // ---------------------------------------------------------------------------

  /** Writes the label between `lock0` and the dot at `i`, its length octet in front, at `q0`. */
  method WriteLabel(buf: array<byte>, q0: nat, host: seq<byte>, lock0: nat, i: nat) returns (q: nat, lock: nat)
    requires lock0 <= i <= |host| && q0 + 1 + (i - lock0) <= buf.Length
    modifies buf
    ensures lock == i && q == q0 + 1 + (i - lock0)
    ensures buf[..q] == old(buf[..q0]) + Part(host, lock0, i)
    ensures buf[q..] == old(buf[q..])
  {
    q, lock := q0, lock0;
    buf[q] := (i - lock) % 256;
    q := q + 1;
    while lock < i
      invariant lock0 <= lock <= i && q == q0 + 1 + (lock - lock0)
      invariant buf[..q] == old(buf[..q0]) + ([(i - lock0) % 256] + host[lock0..lock])
      invariant buf[q0 + 1 + (i - lock0)..] == old(buf[q0 + 1 + (i - lock0)..])
    {
      assert host[lock0..lock + 1] == host[lock0..lock] + [host[lock]];
      buf[q] := host[lock];
      q := q + 1;
      lock := lock + 1;
    }
  }

  /** `ChangetoDnsNameFormat`: writes the encoded host at `qname` and nothing else, for every
      host, empty labels and long labels included. */
  method ChangetoDnsNameFormat(buf: array<byte>, qname: nat, hostname: seq<byte>)
    requires 0 !in hostname && qname + |hostname| + 2 <= buf.Length
    modifies buf
    ensures |Encoded(hostname)| == |hostname| + 2
    ensures buf[..] == old(buf[..qname]) + Encoded(hostname) + old(buf[qname + |hostname| + 2..])
  {
    hide Flat, Split, Terminated, Part, StrLen;
    var host := hostname + [DOT];
    JoinSplit(hostname);
    SplitIsTerminated(hostname);
    var q, lock, i := qname, 0, 0;
    assert host[0..] == host;
    ghost var front, end, tail := buf[..qname], qname + |hostname| + 2, buf[qname + |hostname| + 2..];
    ghost var written: seq<byte> := [];
    while i < StrLen(host + [0])
      invariant StrLen(host + [0]) == |host|
      invariant 0 <= lock <= i <= |host| && q == qname + lock
      invariant forall k :: lock <= k < i ==> host[k] != DOT
      invariant |written| == lock && written + Flat(Terminated(host[lock..])) == Flat(Split(hostname))
      invariant buf[..q] == front + written && buf[end..] == tail
    {
      if host[i] == DOT {
        ghost var before, q0, lock0 := buf[..], q, lock;
        q, lock := WriteLabel(buf, q, host, lock, i);
        PartWritten(before, buf[..], front, written, Part(host, lock0, i), q0, q, end);
        NextPart(host, lock0, i);
        Regroup(written, Part(host, lock0, i), Flat(Terminated(host[i + 1..])));
        written := written + Part(host, lock0, i);
        lock := lock + 1;
      }
      i := i + 1;
    }
    assert host[|hostname|] == DOT;
    NoParts(host[lock..]);
    ghost var before := buf[..];
    buf[q] := 0;
    ZeroWritten(before, buf[..], front, written, q, end);
  }

  /** The zero that ends the name, in front of the untouched tail. */
  lemma ZeroWritten(
      before: seq<byte>, after: seq<byte>, front: seq<byte>, written: seq<byte>, q: nat, end: nat)
    requires q + 1 == end <= |before| && before[..q] == front + written && after == before[q := 0]
    ensures after == front + (written + [0]) + before[end..]
  {
    assert after == before[..q] + [0] + before[end..];
  }

  /** The octets of the label between `lock` and `i`. */
  function Part(host: seq<byte>, lock: nat, i: nat): (part: seq<byte>)
    requires lock <= i <= |host|
    ensures |part| == i - lock + 1
  {
    [(i - lock) % 256] + host[lock..i]
  }

  /** A part written behind the front, and the tail untouched. */
  lemma PartWritten(
      before: seq<byte>, after: seq<byte>, front: seq<byte>, written: seq<byte>, part: seq<byte>,
      q0: nat, q: nat, end: nat)
    requires q0 <= q <= end <= |before| == |after|
    requires before[..q0] == front + written && after[..q] == before[..q0] + part && after[q..] == before[q..]
    ensures after[..q] == front + (written + part) && after[end..] == before[end..]
  {
    TailKept(before, after, q, end);
    Regroup(front, written, part);
  }

  lemma Regroup<T>(a: seq<T>, b: seq<T>, c: seq<T>)
    ensures (a + b) + c == a + (b + c)
  {
  }

  lemma SplitIsTerminated(hostname: seq<byte>)
    requires 0 !in hostname
    ensures StrLen(hostname + [DOT] + [0]) == |hostname| + 1
    ensures Terminated(hostname + [DOT]) == Split(hostname)
  {
    hide Terminated, StrLen;
    var text := hostname + [DOT] + [0];
    forall k | 0 <= k < |hostname| + 1
      ensures text[k] != 0
    {
      assert k < |hostname| ==> text[k] == hostname[k];
    }
    StrLenIs(text, |hostname| + 1);
  }

  lemma NoParts(text: seq<byte>)
    requires text == []
    ensures Flat(Terminated(text)) == []
  {
  }

  lemma TailKept<T>(before: seq<T>, after: seq<T>, from: nat, end: nat)
    requires from <= end <= |before| == |after| && after[from..] == before[from..]
    ensures after[end..] == before[end..]
  {
    assert after[end..] == after[from..][end - from..];
    assert before[end..] == before[from..][end - from..];
  }

  /** The next label of a terminated text, between `lock` and the dot at `i`. */
  lemma NextPart(host: seq<byte>, lock: nat, i: nat)
    requires lock <= i < |host| && host[i] == DOT
    requires forall k :: lock <= k < i ==> host[k] != DOT
    ensures Flat(Terminated(host[lock..])) == Part(host, lock, i) + Flat(Terminated(host[i + 1..]))
  {
    hide Flat, Terminated;
    var part, rest := host[lock..i], host[i + 1..];
    assert host[lock..] == part + [DOT] + rest;
    assert DOT !in part;
    TerminatedFirst(part, rest);
    FlatCons(part, Terminated(rest));
  }

  lemma FlatCons(l: Label, labels: seq<Label>)
    ensures Flat([l] + labels) == [|l| % 256] + l + Flat(labels)
  {
    assert ([l] + labels)[1..] == labels;
  }

  // ---------------------------------------------------------------------------
  // The encoded host read back
  // ---------------------------------------------------------------------------

  /** An encoded host decodes to its labels exactly when every label has 1 to 63 bytes. */
  lemma EncodedDecodesIff(msg: seq<byte>, at: nat, host: seq<byte>)
    requires at + |Encoded(host)| <= |msg| && msg[at..at + |Encoded(host)|] == Encoded(host)
    ensures |Encoded(host)| == |host| + 2
    ensures SizedLabels(Split(host)) <==> forall k :: 0 <= k < |Split(host)| ==> 1 <= |Split(host)[k]| <= 63
    ensures SizedLabels(Split(host)) <==>
      Decode(msg, at, at).Some? && Decode(msg, at, at).value.labels == Split(host)
    ensures SizedLabels(Split(host)) ==> Decode(msg, at, at) == Some(Name(Split(host), |host| + 1, false))
  {
    hide Decode, Split;
    JoinSplit(host);
    var flat := Flat(Split(host));
    if SizedLabels(Split(host)) {
      var stretch := msg[at..at + |flat| + 1];
      assert stretch[..|flat|] == flat && stretch[|flat|] == 0;
      assert msg[at..at + |flat|] == stretch[..|flat|];
      DecodeUncompressed(msg, at, at, Split(host));
    }
    if Decode(msg, at, at).Some? {
      DecodedLabelSizes(msg, at, at);
    }
  }

  lemma {:induction false} DottedZeroFree(labels: seq<Label>)
    requires 0 !in Dotted(labels)
    ensures forall k :: 0 <= k < |labels| ==> 0 !in labels[k]
  {
    if labels == [] {
    } else {
      var tail := Dotted(labels[1..]);
      assert Dotted(labels) == labels[0] + [DOT] + tail;
      assert forall b :: b in labels[0] || b in tail ==> b in Dotted(labels);
      var others := labels[1..];
      DottedZeroFree(others);
      forall k | 0 <= k < |labels|
        ensures 0 !in labels[k]
      {
        if 0 < k {
          assert labels[k] == others[k - 1];
        }
      }
    }
  }

  /** The length octet of a label is zero when its length is a multiple of 256. */
  predicate VisibleLengths(labels: seq<Label>) {
    forall k :: 0 <= k < |labels| ==> |labels[k]| % 256 != 0
  }

  lemma {:induction false} FlatZeroFreeIff(labels: seq<Label>)
    requires forall k :: 0 <= k < |labels| ==> 0 !in labels[k]
    ensures 0 !in Flat(labels) <==> VisibleLengths(labels)
  {
    if labels == [] {
    } else {
      var first, others := labels[0], labels[1..];
      FlatZeroFreeIff(others);
      assert Flat(labels) == [|first| % 256] + first + Flat(others);
      assert 0 in Flat(labels) <==> |first| % 256 == 0 || 0 in Flat(others);
      assert forall k :: 1 <= k < |labels| ==> labels[k] == others[k - 1];
      assert VisibleLengths(labels) <==> |first| % 256 != 0 && VisibleLengths(others) by {
        assert forall k :: 0 <= k < |others| ==> others[k] == labels[k + 1];
      }
    }
  }

  /** `strlen(qname) + 1`, by which the source places the question and finds the answers, is the
      size of the encoded name exactly when no label is empty or a multiple of 256 long. */
  lemma QnameLengthIff(host: seq<byte>)
    requires 0 !in host
    ensures StrLen(Encoded(host)) + 1 == |host| + 2 <==> VisibleLengths(Split(host))
  {
    hide Split;
    JoinSplit(host);
    var flat := Flat(Split(host));
    DottedIsJoinAndDot(Split(host));
    DottedZeroFree(Split(host));
    FlatZeroFreeIff(Split(host));
    if 0 !in flat {
      StrLenIs(Encoded(host), |flat|);
    } else {
      var k :| 0 <= k < |flat| && flat[k] == 0;
      assert Encoded(host)[k] == 0;
    }
  }

  // ---------------------------------------------------------------------------
  // PrepareDnsQueryPacket
  // ---------------------------------------------------------------------------

  /** The header of a standard query: the identifier in host order (little-endian), recursion
      desired, one question. */
  function QueryHeader(id: word): (header: seq<byte>)
    ensures |header| == HEADER_SIZE
  {
    [id % 256, id / 256, 1, 0, 0, 1, 0, 0, 0, 0, 0, 0]
  }

  /** QTYPE A and QCLASS IN. */
  const ADDRESS_QUESTION: seq<byte> := [0, 1, 0, 1]

  method Store(buf: array<byte>, at: nat, bytes: seq<byte>)
    requires at + |bytes| <= buf.Length
    modifies buf
    ensures buf[..] == old(buf[..at]) + bytes + old(buf[at + |bytes|..])
  {
    forall k | 0 <= k < |bytes| {
      buf[at + k] := bytes[k];
    }
  }

  /** `PrepareDnsQueryPacket`, with the packet size `socket_gethostbyname` computes next.  The
      question stands where `strlen` says the name ends. */
  method PrepareDnsQueryPacket(buf: array<byte>, id: word, host: seq<byte>) returns (packetSize: nat)
    requires 0 !in host && HEADER_SIZE + |host| + 2 + QUESTION_SIZE <= buf.Length
    modifies buf
    ensures |Encoded(host)| == |host| + 2
    ensures packetSize == HEADER_SIZE + StrLen(Encoded(host)) + 1 + QUESTION_SIZE <= buf.Length
    ensures buf[..packetSize] == QueryHeader(id) + CString(Encoded(host)) + [0] + ADDRESS_QUESTION
  {
    hide Encoded, StrLen, CString, QueryHeader;
    Store(buf, 0, QueryHeader(id));
    ghost var started := buf[..];
    ChangetoDnsNameFormat(buf, HEADER_SIZE, host);
    ghost var named := buf[..];
    NamePlaced(started, named, QueryHeader(id), Encoded(host));
    EncodedStrLen(named, HEADER_SIZE, host);
    var question := HEADER_SIZE + StrLen(buf[HEADER_SIZE..]) + 1;
    Store(buf, question, ADDRESS_QUESTION);
    packetSize := question + QUESTION_SIZE;
    QuestionPlaced(named, buf[..], QueryHeader(id), CString(Encoded(host)) + [0], question);
    Regroup(QueryHeader(id), CString(Encoded(host)), [0]);
  }

  /** The buffer once the name stands behind the header. */
  lemma NamePlaced(before: seq<byte>, after: seq<byte>, header: seq<byte>, name: seq<byte>)
    requires |header| + |name| <= |before| && header <= before
    requires after == before[..|header|] + name + before[|header| + |name|..]
    ensures header <= after && after[|header|..|header| + |name|] == name
  {
  }

  /** The buffer once the question stands behind the name. */
  lemma QuestionPlaced(before: seq<byte>, after: seq<byte>, header: seq<byte>, name: seq<byte>, question: nat)
    requires |header| <= question && question + QUESTION_SIZE <= |before|
    requires header <= before && before[|header|..question] == name
    requires after == before[..question] + ADDRESS_QUESTION + before[question + QUESTION_SIZE..]
    ensures after[..question + QUESTION_SIZE] == header + name + ADDRESS_QUESTION
  {
    assert before[..question] == header + name;
    assert after[..question + QUESTION_SIZE] == before[..question] + ADDRESS_QUESTION;
  }

  /** `strlen` over the buffer stops inside the encoded name. */
  lemma EncodedStrLen(buf: seq<byte>, at: nat, host: seq<byte>)
    requires |Encoded(host)| == |host| + 2
    requires at + |Encoded(host)| <= |buf| && buf[at..at + |Encoded(host)|] == Encoded(host)
    ensures StrLen(buf[at..]) == StrLen(Encoded(host)) < |Encoded(host)|
    ensures buf[at..at + StrLen(Encoded(host)) + 1] == CString(Encoded(host)) + [0]
  {
    var n, rest := StrLen(Encoded(host)), buf[at..];
    assert Encoded(host)[|host| + 1] == 0;
    assert forall k :: 0 <= k < |Encoded(host)| ==> rest[k] == buf[at..at + |Encoded(host)|][k];
    StrLenIs(rest, n);
  }

  /** The packet as section 4.1 of RFC 1035 reads it: a standard query with recursion desired and
      no other flag, one question, for the labels of the host, of type A and class IN, and nothing
      behind it.  The identifier stands in host order, the low octet first. */
  lemma QueryParses(packet: seq<byte>, id: word, host: seq<byte>)
    requires 0 !in host && SizedLabels(Split(host))
    requires packet == QueryHeader(id) + Encoded(host) + ADDRESS_QUESTION
    ensures |packet| == HEADER_SIZE + |host| + 2 + QUESTION_SIZE
    ensures packet[0] as int + 256 * packet[1] as int == id && U16(packet, 2) == 0x0100
    ensures U16(packet, 4) == 1 && U16(packet, 6) == 0 && U16(packet, 8) == 0 && U16(packet, 10) == 0
    ensures AnswerCount(packet) == 0
    ensures Decode(packet, HEADER_SIZE, HEADER_SIZE) == Some(Name(Split(host), |host| + 1, false))
    ensures U16(packet, HEADER_SIZE + |host| + 2) == TYPE_A && U16(packet, HEADER_SIZE + |host| + 4) == 1
  {
    hide Split, Decode, Flat;
    JoinSplit(host);
    QnameLengthIff(host);
    ThreeParts(packet, QueryHeader(id), Encoded(host), ADDRESS_QUESTION);
    EncodedDecodesIff(packet, HEADER_SIZE, host);
  }

  lemma ThreeParts<T>(whole: seq<T>, a: seq<T>, b: seq<T>, c: seq<T>)
    requires whole == a + b + c
    ensures whole[|a|..|a| + |b|] == b
    ensures forall k :: 0 <= k < |a| ==> whole[k] == a[k]
    ensures forall k :: 0 <= k < |c| ==> whole[|a| + |b| + k] == c[k]
  {
  }

  /** The round trip: in the packet of a query the name is read within the buffer and as the host
      it was written for, and its octets in place are the `strlen(qname) + 1` the caller skips. */
  lemma HostRoundTrip(packet: seq<byte>, id: word, host: seq<byte>)
    requires 0 !in host && TextLabels(Split(host))
    requires packet == QueryHeader(id) + Encoded(host) + ADDRESS_QUESTION
    ensures Readable(packet, HEADER_SIZE)
    ensures var name := Decode(packet, HEADER_SIZE, HEADER_SIZE).value;
      && Join(name.labels) == host
      && name.InPlace() == StrLen(Encoded(host)) + 1 == |host| + 2
  {
    JoinSplit(host);
    QnameLengthIff(host);
    TextIsVisible(Split(host));
    hide Split, Decode, Flat, Join, Encoded, StrLen, TextLabels;
    QueryParses(packet, id, host);
    BufferSuffices(packet, HEADER_SIZE);
  }

  lemma TextIsVisible(labels: seq<Label>)
    requires TextLabels(labels)
    ensures VisibleLengths(labels) && SizedLabels(labels)
  {
  }

  /** Preparing the packet in `buf` and reading the name back. */
  method ReadBack(buf: array<byte>, id: word, host: seq<byte>)
    returns (packetSize: nat, name: array<byte>, count: nat)
    requires 0 !in host && TextLabels(Split(host))
    requires HEADER_SIZE + |host| + 2 + QUESTION_SIZE <= buf.Length
    modifies buf
    ensures packetSize <= buf.Length && buf[..packetSize] == QueryHeader(id) + Encoded(host) + ADDRESS_QUESTION
    ensures CString(name[..]) == host
    ensures count == packetSize - HEADER_SIZE - QUESTION_SIZE == |host| + 2
  {
    packetSize := PrepareDnsQueryPacket(buf, id, host);
    JoinSplit(host);
    QnameLengthIff(host);
    TextIsVisible(Split(host));
    assert CString(Encoded(host)) + [0] == Encoded(host);
    hide Split, Decode, Flat, Join, Encoded, CString, StrLen, TextLabels;
    assert QueryHeader(id) + CString(Encoded(host)) + [0] == QueryHeader(id) + (CString(Encoded(host)) + [0]);
    HostRoundTrip(buf[..packetSize], id, host);
    var _, text, size := ReadName(HEADER_SIZE, buf[..packetSize]);
    name, count := text, size;
  }
}
