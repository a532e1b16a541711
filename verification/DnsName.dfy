/** Domain names as RFC 1035 defines them: labels, the wire form, the dotted form, and the
    label-wise decoder with compression pointers of section 4.1.4. */
module DnsName {
  import opened Bytes

  type Label = seq<byte>

  const DOT: byte := 46
  const MAX_LABEL: nat := 63
  const COMPRESSION_TAG: nat := 192
  const COMPRESSION_BASE: nat := 49152

  // ---------------------------------------------------------------------------
  // Wire form and dotted form
  // ---------------------------------------------------------------------------

  /** The labels with their length octets in front, without the final zero octet.  A length is
      stored in one octet, so it is reduced modulo 256. */
  function Flat(labels: seq<Label>): (wire: seq<byte>)
  {
    if labels == [] then [] else [|labels[0]| % 256] + labels[0] + Flat(labels[1..])
  }

  /** Every label followed by a dot. */
  function Dotted(labels: seq<Label>): (text: seq<byte>)
  {
    if labels == [] then [] else labels[0] + [DOT] + Dotted(labels[1..])
  }

  /** The labels separated by dots. */
  function Join(labels: seq<Label>): seq<byte> {
    if labels == [] then []
    else if |labels| == 1 then labels[0]
    else labels[0] + [DOT] + Join(labels[1..])
  }

  predicate TextByte(b: byte) {
    1 <= b < COMPRESSION_TAG
  }

  /** A label the byte-by-byte reader can tell from the end of a name and from a pointer. */
  predicate TextLabel(l: Label) {
    && 1 <= |l| <= MAX_LABEL
    && forall k :: 0 <= k < |l| ==> TextByte(l[k])
  }

  /** Label sizes a length octet may announce. */
  predicate SizedLabels(labels: seq<Label>) {
    forall k :: 0 <= k < |labels| ==> 1 <= |labels[k]| <= MAX_LABEL
  }

  predicate TextLabels(labels: seq<Label>) {
    forall k :: 0 <= k < |labels| ==> TextLabel(labels[k])
  }

  lemma {:induction false} DottedIsJoinAndDot(labels: seq<Label>)
    requires labels != []
    ensures Dotted(labels) == Join(labels) + [DOT]
  {
    if |labels| == 1 {
    } else {
      DottedIsJoinAndDot(labels[1..]);
    }
  }

  /** Dots stand between labels and nowhere else: a label alone is its own text, and the texts of
      two lists are joined by one octet 46. */
  lemma {:induction false} JoinConcat(front: seq<Label>, back: seq<Label>)
    requires front != [] && back != []
    ensures Join(front + back) == Join(front) + [46] + Join(back)
    ensures |back| == 1 ==> Join(back) == back[0]
  {
    hide Join;
    var all, rest := front + back, front[1..];
    JoinFirst(all);
    JoinFirst(front);
    JoinFirst(back);
    if |front| == 1 {
      assert all[1..] == back;
    } else {
      assert all[1..] == rest + back;
      JoinConcat(rest, back);
      assert front[0] + [46] + (Join(rest) + [46] + Join(back)) == (front[0] + [46] + Join(rest)) + [46] + Join(back);
    }
  }

  lemma JoinFirst(labels: seq<Label>)
    requires labels != []
    ensures Join(labels) == if |labels| == 1 then labels[0] else labels[0] + [46] + Join(labels[1..])
  {
  }

  lemma {:induction false} FlatAndDottedLengths(labels: seq<Label>)
    ensures |Flat(labels)| == |Dotted(labels)|
  {
    if labels == [] {
    } else {
      FlatAndDottedLengths(labels[1..]);
    }
  }

  lemma {:induction false} DottedAppend(labels: seq<Label>, last: Label)
    ensures Dotted(labels + [last]) == Dotted(labels) + last + [DOT]
  {
    if labels == [] {
      assert [last][1..] == [];
    } else {
      assert (labels + [last])[1..] == labels[1..] + [last];
      DottedAppend(labels[1..], last);
    }
  }

  lemma {:induction false} FlatIsText(labels: seq<Label>)
    requires TextLabels(labels)
    ensures forall k :: 0 <= k < |Flat(labels)| ==> TextByte(Flat(labels)[k])
  {
    if labels == [] {
    } else {
      FlatIsText(labels[1..]);
      var head: seq<byte> := [|labels[0]| % 256] + labels[0];
      assert Flat(labels) == head + Flat(labels[1..]);
    }
  }

  lemma {:induction false} DottedIsText(labels: seq<Label>)
    requires TextLabels(labels)
    ensures forall k :: 0 <= k < |Dotted(labels)| ==> TextByte(Dotted(labels)[k])
  {
    if labels == [] {
    } else {
      DottedIsText(labels[1..]);
      var head := labels[0] + [DOT];
      assert Dotted(labels) == head + Dotted(labels[1..]);
    }
  }

  /** A stretch of a sequence that is an item, a part and a rest. */
  lemma Layout<T>(s: seq<T>, pos: nat, item: T, part: seq<T>, rest: seq<T>)
    requires pos + 1 + |part| + |rest| <= |s|
    requires s[pos..pos + 1 + |part| + |rest|] == [item] + part + rest
    ensures s[pos] == item
    ensures s[pos + 1..pos + 1 + |part|] == part
    ensures s[pos + 1 + |part|..pos + 1 + |part| + |rest|] == rest
  {
    var whole, parts := s[pos..pos + 1 + |part| + |rest|], [item] + part + rest;
    assert whole[0] == parts[0];
    forall k | 0 <= k < |part|
      ensures s[pos + 1..pos + 1 + |part|][k] == part[k]
    {
      assert whole[1 + k] == parts[1 + k];
    }
    forall k | 0 <= k < |rest|
      ensures s[pos + 1 + |part|..pos + 1 + |part| + |rest|][k] == rest[k]
    {
      assert whole[1 + |part| + k] == parts[1 + |part| + k];
    }
  }

  // ---------------------------------------------------------------------------
  // C strings
  // ---------------------------------------------------------------------------

  /** `strlen`: the index of the first zero byte. */
  function StrLen(s: seq<byte>): (n: nat)
    ensures n <= |s|
    ensures forall k :: 0 <= k < n ==> s[k] != 0
    ensures n < |s| ==> s[n] == 0
  {
    if s == [] || s[0] == 0 then 0 else 1 + StrLen(s[1..])
  }

  function CString(s: seq<byte>): seq<byte> {
    s[..StrLen(s)]
  }

  // ---------------------------------------------------------------------------
  // The decoder of RFC 1035, section 4.1.4
  // ---------------------------------------------------------------------------

  /** A decoded name: its labels, the octets its labels take before the first zero octet or
      pointer, and whether that segment ends in a pointer. */
  datatype Name = Name(labels: seq<Label>, local: nat, compressed: bool) {
    /** The octets the name takes where it stands. */
    function InPlace(): nat {
      local + if compressed then 2 else 1
    }

    /** The octets of the fully expanded name, final zero included (section 2.3.4: at most 255). */
    function Expanded(): nat {
      |Flat(labels)| + 1
    }
  }

  function Target(high: byte, low: byte): int {
    high * 256 + low - COMPRESSION_BASE
  }

  /** Decodes the name at `pos`, in the segment that started at `start`.  A pointer must lead to
      an offset strictly before that start: a prior occurrence. */
  function Decode(msg: seq<byte>, pos: nat, start: nat): Option<Name>
    decreases start, |msg| - pos
  {
    if pos >= |msg| then None
    else if msg[pos] == 0 then Some(Name([], 0, false))
    else if msg[pos] >= COMPRESSION_TAG then
      if pos + 1 >= |msg| then None
      else
        var target := Target(msg[pos], msg[pos + 1]);
        if target >= start then None
        else
          match Decode(msg, target, target)
          case None => None
          case Some(rest) => Some(Name(rest.labels, 0, true))
    else if msg[pos] > MAX_LABEL || pos + 1 + msg[pos] > |msg| then None
    else
      var next := pos + 1 + msg[pos];
      match Decode(msg, next, start)
      case None => None
      case Some(rest) =>
        Some(Name([msg[pos + 1..next]] + rest.labels, 1 + msg[pos] + rest.local, rest.compressed))
  }

  /** One label in front of a decodable tail. */
  lemma DecodeLabel(msg: seq<byte>, pos: nat, start: nat, l: Label, tail: Name)
    requires 1 <= |l| <= MAX_LABEL && pos + 1 + |l| <= |msg|
    requires msg[pos] == |l| && msg[pos + 1..pos + 1 + |l|] == l
    requires Decode(msg, pos + 1 + |l|, start) == Some(tail)
    ensures Decode(msg, pos, start) == Some(Name([l] + tail.labels, 1 + |l| + tail.local, tail.compressed))
  {
  }

  lemma DecodeEnd(msg: seq<byte>, pos: nat, start: nat)
    requires pos < |msg| && msg[pos] == 0
    ensures Decode(msg, pos, start) == Some(Name([], 0, false))
  {
  }

  lemma DecodePointer(msg: seq<byte>, pos: nat, start: nat, target: nat, rest: Name)
    requires pos + 1 < |msg| && msg[pos] >= COMPRESSION_TAG
    requires Target(msg[pos], msg[pos + 1]) == target < start
    requires Decode(msg, target, target) == Some(rest)
    ensures Decode(msg, pos, start) == Some(Name(rest.labels, 0, true))
  {
  }

  /** Decoding looks at nothing past the octets it needs: more message changes nothing. */
  lemma {:induction false} DecodeExtends(msg: seq<byte>, more: seq<byte>, pos: nat, start: nat)
    requires Decode(msg, pos, start).Some?
    ensures Decode(msg + more, pos, start) == Decode(msg, pos, start)
    decreases start, |msg| - pos
  {
    var longer := msg + more;
    if msg[pos] >= COMPRESSION_TAG {
      var target := Target(msg[pos], msg[pos + 1]);
      DecodeExtends(msg, more, target, target);
      DecodePointer(longer, pos, start, target, Decode(msg, target, target).value);
    } else if msg[pos] != 0 {
      var next := pos + 1 + msg[pos];
      DecodeExtends(msg, more, next, start);
      var l := msg[pos + 1..next];
      assert longer[pos + 1..next] == l;
      DecodeLabel(longer, pos, start, l, Decode(msg, next, start).value);
    }
  }

  /** Labels laid out in front of any decodable tail are decoded in front of it. */
  lemma {:induction false} DecodeLabels(msg: seq<byte>, pos: nat, end: nat, start: nat, labels: seq<Label>, tail: Name)
    requires SizedLabels(labels)
    requires pos <= end <= |msg| && msg[pos..end] == Flat(labels)
    requires Decode(msg, end, start) == Some(tail)
    ensures Decode(msg, pos, start) == Some(Name(labels + tail.labels, end - pos + tail.local, tail.compressed))
    decreases |labels|
  {
    hide Decode;
    if labels == [] {
      assert labels + tail.labels == tail.labels;
    } else {
      var first, others := labels[0], labels[1..];
      var next := pos + 1 + |first|;
      assert Flat(labels) == [|first|] + first + Flat(others);
      Layout(msg, pos, |first|, first, Flat(others));
      var rest := Name(others + tail.labels, end - next + tail.local, tail.compressed);
      assert Decode(msg, next, start) == Some(rest) by {
        DecodeLabels(msg, next, end, start, others, tail);
      }
      DecodeLabel(msg, pos, start, first, rest);
      ConsConcat(labels, tail.labels);
    }
  }

  lemma ConsConcat<T>(a: seq<T>, b: seq<T>)
    requires a != []
    ensures [a[0]] + (a[1..] + b) == a + b
  {
  }

  lemma {:induction false} DecodedLabelSizes(msg: seq<byte>, pos: nat, start: nat)
    requires Decode(msg, pos, start).Some?
    ensures SizedLabels(Decode(msg, pos, start).value.labels)
    decreases start, |msg| - pos
  {
    if msg[pos] >= COMPRESSION_TAG {
      var target := Target(msg[pos], msg[pos + 1]);
      DecodedLabelSizes(msg, target, target);
    } else if msg[pos] != 0 {
      DecodedLabelSizes(msg, pos + 1 + msg[pos], start);
    }
  }

  /** An uncompressed name decodes to its labels. */
  lemma DecodeUncompressed(msg: seq<byte>, pos: nat, start: nat, labels: seq<Label>)
    requires SizedLabels(labels)
    requires pos + |Flat(labels)| < |msg|
    requires msg[pos..pos + |Flat(labels)|] == Flat(labels)
    requires msg[pos + |Flat(labels)|] == 0
    ensures Decode(msg, pos, start) == Some(Name(labels, |Flat(labels)|, false))
  {
    hide Decode;
    DecodeEnd(msg, pos + |Flat(labels)|, start);
    DecodeLabels(msg, pos, pos + |Flat(labels)|, start, labels, Name([], 0, false));
    assert labels + [] == labels;
  }

  function Pointer(target: nat): seq<byte>
    requires target < 0x4000
  {
    [COMPRESSION_TAG + target / 256, target % 256]
  }

  /** The two octets of a pointer: two one bits, and the offset in 14. */
  lemma PointerIs(target: nat)
    requires target < 0x4000
    ensures Pointer(target) == [0xC0 + target / 0x100, target % 0x100]
    ensures Target(Pointer(target)[0], Pointer(target)[1]) == target
  {
  }

  /** Compression preserves meaning.  `head` is the message so far; it holds at `target` a
      complete copy of a suffix, itself compressed or not.  Writing after `head` the labels
      `front` and then either the whole suffix or a pointer to the copy gives the same labels,
      and the second form takes the octets of `front` plus 2. */
  lemma CompressionPreservesMeaning(
      head: seq<byte>, front: seq<Label>, suffix: seq<Label>, target: nat, after: seq<byte>, after': seq<byte>)
    requires SizedLabels(front + suffix)
    requires target < |head| && target < 0x4000
    requires Decode(head, target, target).Some? && Decode(head, target, target).value.labels == suffix
    ensures
      var plain := Decode(head + Flat(front + suffix) + [0] + after, |head|, |head|);
      var short := Decode(head + Flat(front) + Pointer(target) + after', |head|, |head|);
      && plain.Some? && short.Some?
      && plain.value.labels == short.value.labels == front + suffix
      && plain.value.InPlace() == |Flat(front + suffix)| + 1
      && short.value.InPlace() == |Flat(front)| + 2
  {
    hide Decode;
    PlainSuffix(head, front + suffix, after);
    PointedSuffix(head, front, suffix, target, after');
  }

  lemma PlainSuffix(head: seq<byte>, labels: seq<Label>, after: seq<byte>)
    requires SizedLabels(labels)
    ensures Decode(head + Flat(labels) + [0] + after, |head|, |head|) == Some(Name(labels, |Flat(labels)|, false))
  {
    hide Decode;
    var msg, end := head + Flat(labels) + [0] + after, |head| + |Flat(labels)|;
    assert msg[|head|..end] == Flat(labels);
    DecodeUncompressed(msg, |head|, |head|, labels);
  }

  lemma PointedSuffix(head: seq<byte>, front: seq<Label>, suffix: seq<Label>, target: nat, after: seq<byte>)
    requires SizedLabels(front + suffix)
    requires target < |head| && target < 0x4000
    requires Decode(head, target, target).Some? && Decode(head, target, target).value.labels == suffix
    ensures Decode(head + Flat(front) + Pointer(target) + after, |head|, |head|)
         == Some(Name(front + suffix, |Flat(front)|, true))
  {
    hide Decode;
    var msg, cut := head + Flat(front) + Pointer(target) + after, |head| + |Flat(front)|;
    var copy := Decode(head, target, target).value;
    assert Decode(msg, target, target) == Some(copy) by {
      assert msg == head + (Flat(front) + Pointer(target) + after);
      DecodeExtends(head, Flat(front) + Pointer(target) + after, target, target);
    }
    assert msg[cut..cut + 2] == Pointer(target);
    PointerDecodes(msg, cut, |head|, target, copy);
    assert forall k :: 0 <= k < |front| ==> front[k] == (front + suffix)[k];
    assert msg[|head|..cut] == Flat(front);
    DecodeLabels(msg, |head|, cut, |head|, front, Name(suffix, 0, true));
  }

  lemma PointerDecodes(msg: seq<byte>, pos: nat, start: nat, target: nat, rest: Name)
    requires pos + 2 <= |msg| && target < 0x4000 && msg[pos..pos + 2] == Pointer(target)
    requires target < start && Decode(msg, target, target) == Some(rest)
    ensures Decode(msg, pos, start) == Some(Name(rest.labels, 0, true))
  {
    hide Decode;
    assert msg[pos] == msg[pos..pos + 2][0] && msg[pos + 1] == msg[pos..pos + 2][1];
    DecodePointer(msg, pos, start, target, rest);
  }

  // ---------------------------------------------------------------------------
  // Dotted text and labels
  // ---------------------------------------------------------------------------

  /** The labels of a text in which every label ends with a dot; bytes after the last dot are
      dropped. */
  function Terminated(text: seq<byte>): seq<Label> {
    if text == [] || DOT !in text then []
    else
      var k := IndexOfDot(text);
      [text[..k]] + Terminated(text[k + 1..])
  }

  function IndexOfDot(text: seq<byte>): (k: nat)
    requires DOT in text
    ensures k < |text| && text[k] == DOT
    ensures forall i :: 0 <= i < k ==> text[i] != DOT
  {
    if text[0] == DOT then 0 else 1 + IndexOfDot(text[1..])
  }

  /** The labels of a host name. */
  function Split(host: seq<byte>): seq<Label> {
    Terminated(host + [DOT])
  }

  /** A text that starts with a dot-free part and a dot: the part is its first label. */
  lemma TerminatedFirst(part: Label, rest: seq<byte>)
    requires DOT !in part
    ensures Terminated(part + [DOT] + rest) == [part] + Terminated(rest)
  {
    var text := part + [DOT] + rest;
    assert text[|part|] == DOT;
    assert forall i :: 0 <= i < |part| ==> text[i] == part[i];
    assert IndexOfDot(text) == |part|;
    assert text[..|part|] == part;
    assert text[|part| + 1..] == rest;
  }

  lemma {:induction false} TerminatedDotted(labels: seq<Label>)
    requires forall l :: l in labels ==> DOT !in l
    ensures Terminated(Dotted(labels)) == labels
  {
    if labels == [] {
    } else {
      assert labels[0] in labels;
      TerminatedFirst(labels[0], Dotted(labels[1..]));
      TerminatedDotted(labels[1..]);
    }
  }

  lemma {:induction false} DottedTerminated(text: seq<byte>)
    requires text == [] || text[|text| - 1] == DOT
    ensures Dotted(Terminated(text)) == text
    ensures text != [] ==> Terminated(text) != []
    ensures forall l :: l in Terminated(text) ==> DOT !in l
    decreases |text|
  {
    if text == [] {
    } else {
      assert DOT in text;
      var k := IndexOfDot(text);
      var first, rest := text[..k], text[k + 1..];
      assert text == first + [DOT] + rest;
      DottedTerminated(rest);
      TerminatedFirst(first, rest);
      assert ([first] + Terminated(rest))[1..] == Terminated(rest);
    }
  }

  /** Splitting a host and joining labels are inverse to each other. */
  lemma SplitJoin(labels: seq<Label>)
    requires labels != [] && forall l :: l in labels ==> DOT !in l
    ensures Split(Join(labels)) == labels
  {
    DottedIsJoinAndDot(labels);
    TerminatedDotted(labels);
  }

  lemma JoinSplit(host: seq<byte>)
    ensures Split(host) != [] && Join(Split(host)) == host
    ensures |Flat(Split(host))| == |host| + 1
    ensures forall l :: l in Split(host) ==> DOT !in l
  {
    var text := host + [DOT];
    DottedTerminated(text);
    DottedIsJoinAndDot(Split(host));
    FlatAndDottedLengths(Split(host));
    assert text[..|host|] == host;
    assert (Join(Split(host)) + [DOT])[..|host|] == Join(Split(host));
  }
}
