/** Reading names out of a DNS message: `ReadName` of dnsquery.cpp, byte by byte. */
module DnsReader {
  import opened Bytes
  import opened DnsName

  const INIT_SIZE: nat := 256
  const INCREMENT: nat := 64

  /** The size the name buffer has grown to once `count` octets were counted. */
  function Capacity(count: nat): nat {
    if count < INIT_SIZE then INIT_SIZE else INIT_SIZE + INCREMENT * ((count - INIT_SIZE) / INCREMENT + 1)
  }

  /** The number of times the buffer was grown, as the test after each counted octet keeps it. */
  predicate Grown(count: nat, times: nat) {
    count < INIT_SIZE + INCREMENT * times && (0 < times ==> INIT_SIZE + INCREMENT * (times - 1) <= count)
  }

  lemma GrownCapacity(count: nat, times: nat)
    requires Grown(count, times)
    ensures Capacity(count) == INIT_SIZE + INCREMENT * times
  {
  }

  /** A decodable name other than the root, with labels of text bytes. */
  predicate Named(msg: seq<byte>, pos: nat) {
    match Decode(msg, pos, pos)
    case None => false
    case Some(name) => name.labels != [] && TextLabels(name.labels)
  }

  /** The name and its zero fit the buffer.  The buffer grows with the octets counted, and counting
      stops at the first pointer. */
  predicate Fits(name: Name) {
    |Flat(name.labels)| < Capacity(1 + name.local)
  }

  /** A name `ReadName` reads within its buffer. */
  predicate Readable(msg: seq<byte>, pos: nat) {
    Named(msg, pos) && Fits(Decode(msg, pos, pos).value)
  }

  /** Every name within the 255 octets of section 2.3.4 of RFC 1035 fits, and so does every
      uncompressed name of any size. */
  lemma BufferSuffices(msg: seq<byte>, pos: nat)
    requires Named(msg, pos)
    requires Decode(msg, pos, pos).value.Expanded() <= 255 || !Decode(msg, pos, pos).value.compressed
    ensures Readable(msg, pos)
  {
    UncompressedSize(msg, pos, pos);
  }

  /** Beyond these it need not: wherever in a message a name stands, a lone pointer to it behind
      that is read within the buffer if and only if the name and its zero have at most the initial
      256 octets. */
  lemma LonePointerFitsIff(head: seq<byte>, target: nat, after: seq<byte>)
    requires Named(head, target) && target < 0x4000
    ensures var msg, labels := head + Pointer(target) + after, Decode(head, target, target).value.labels;
      && Named(msg, |head|) && Decode(msg, |head|, |head|).value.labels == labels
      && (Readable(msg, |head|) <==> |Flat(labels)| + 1 <= 256)
  {
    var labels := Decode(head, target, target).value.labels;
    Inside(head, target);
    hide Decode, Flat;
    NoLabels();
    assert [] + labels == labels && head + [] == head;
    PointedSuffix(head, [], labels, target, after);
  }

  lemma Inside(msg: seq<byte>, pos: nat)
    requires Decode(msg, pos, pos).Some?
    ensures pos < |msg|
  {
  }

  lemma NoLabels()
    ensures Flat([]) == []
  {
  }

  /** There are such names, behind any header: five labels of 60 octets. */
  lemma LongName(header: seq<byte>) returns (head: seq<byte>)
    ensures header <= head && Named(head, |header|)
    ensures |Flat(Decode(head, |header|, |header|).value.labels)| + 1 > INIT_SIZE
  {
    var l: Label := seq(60, _ => 97);
    var labels := [l, l, l, l, l];
    hide Decode, Flat;
    FlatSize(labels, l);
    head := header + Flat(labels) + [0];
    PlainSuffix(header, labels, []);
    assert head + [] == head;
  }

  lemma {:induction false} FlatSize(labels: seq<Label>, l: Label)
    requires forall k :: 0 <= k < |labels| ==> labels[k] == l
    ensures |Flat(labels)| == (|l| + 1) * |labels|
  {
    if labels == [] {
    } else {
      FlatSize(labels[1..], l);
    }
  }

  lemma {:induction false} UncompressedSize(msg: seq<byte>, pos: nat, start: nat)
    requires Decode(msg, pos, start).Some?
    ensures var name := Decode(msg, pos, start).value;
      name.local <= |Flat(name.labels)| && (!name.compressed ==> name.local == |Flat(name.labels)|)
    decreases |msg| - pos
  {
    if msg[pos] == 0 || msg[pos] >= COMPRESSION_TAG {
    } else {
      UncompressedSize(msg, pos + 1 + msg[pos], start);
      var name, rest := Decode(msg, pos, start).value, Decode(msg, pos + 1 + msg[pos], start).value;
      assert name.labels[1..] == rest.labels;
    }
  }

  /** What the conversion of the label `part` at index `i` does to the buffer. */
  ghost predicate Shifted(before: seq<byte>, after: seq<byte>, i: nat, part: Label) {
    && |before| == |after| && i + |part| + 1 <= |after|
    && after[..i] == before[..i]
    && after[i..i + |part| + 1] == part + [DOT]
    && after[i + |part| + 1..] == before[i + |part| + 1..]
  }

  /** One label of the in-place conversion: the length octet at `i` is overwritten by the label
      behind it, and a dot ends the label. */
  method ShiftLabel(name: array<byte>, i0: nat, ghost part: Label, ghost rest: seq<byte>) returns (i: nat)
    requires |part| < 256 && i0 + 1 + |part| + |rest| < name.Length
    requires name[..][i0..i0 + 1 + |part| + |rest|] == [|part|] + part + rest
    modifies name
    ensures i == i0 + |part|
    ensures Shifted(old(name[..]), name[..], i0, part)
  {
    Layout(name[..], i0, |part|, part, rest);
    i := i0;
    var p := name[i];
    var j := 0;
    while j < p
      invariant 0 <= j <= p == |part| && i == i0 + j
      invariant name[..i0] == old(name[..i0])
      invariant name[i0..i] == part[..j]
      invariant name[i + 1..i0 + 1 + |part|] == part[j..]
      invariant name[i0 + 1 + |part|..] == old(name[i0 + 1 + |part|..])
    {
      assert name[i + 1] == name[i + 1..i0 + 1 + |part|][0] == part[j];
      assert part[..j + 1] == part[..j] + [part[j]];
      name[i] := name[i + 1];
      i := i + 1;
      j := j + 1;
    }
    name[i] := DOT;
  }

  /** The name buffer with its first `k` labels converted to dotted text, up to index `i`. */
  ghost predicate HalfConverted(s: seq<byte>, labels: seq<Label>, k: nat, i: nat) {
    && k <= |labels| && i == |Dotted(labels[..k])|
    && i + |Flat(labels[k..])| == |Flat(labels)| < |s|
    && s[..i] == Dotted(labels[..k])
    && s[i..|Flat(labels)|] == Flat(labels[k..])
    && s[|Flat(labels)|] == 0
  }

  /** The in-place conversion that ends `ReadName`: length octets become dots, and each label
      moves one place to the front. */
  method ToDotted(name: array<byte>, ghost labels: seq<Label>)
    requires labels != [] && TextLabels(labels)
    requires |Flat(labels)| < name.Length
    requires name[..|Flat(labels)|] == Flat(labels) && name[|Flat(labels)|] == 0
    modifies name
    ensures CString(name[..]) == Join(labels)
  {
    hide Flat, HalfConverted, Shifted, TextLabels, Join, CString, StrLen;
    ghost var k := 0;
    NothingConverted(name[..], labels);
    HalfConvertedLength(name[..], labels, 0, 0);
    var i: nat := 0;
    while i < StrLen(name[..])
      invariant k <= |labels| && i <= |Flat(labels)| == StrLen(name[..])
      invariant HalfConverted(name[..], labels, k, i)
      decreases |labels| - k
    {
      ghost var before, base := name[..], i;
      NextLabel(before, labels, k, i);
      i := ShiftLabel(name, i, labels[k], Flat(labels[k + 1..]));
      LabelShifted(before, name[..], labels, k, base);
      i := i + 1;
      k := k + 1;
      HalfConvertedLength(name[..], labels, k, i);
    }
    LastDotCut(name[..], labels, k, i);
    name[i - 1] := 0;
  }

  lemma NothingConverted(s: seq<byte>, labels: seq<Label>)
    requires |Flat(labels)| < |s| && s[..|Flat(labels)|] == Flat(labels) && s[|Flat(labels)|] == 0
    ensures HalfConverted(s, labels, 0, 0)
  {
    assert labels[0..] == labels;
  }

  lemma NextLabel(s: seq<byte>, labels: seq<Label>, k: nat, i: nat)
    requires HalfConverted(s, labels, k, i) && i < |Flat(labels)| && TextLabels(labels)
    ensures k < |labels|
    ensures var part, rest := labels[k], Flat(labels[k + 1..]);
      && |part| < 256 && i + 1 + |part| + |rest| == |Flat(labels)| < |s|
      && s[i..i + 1 + |part| + |rest|] == [|part|] + part + rest
  {
    hide Flat, Dotted, TextLabels;
    NoLabels();
    var remaining := labels[k..];
    assert k == |labels| ==> remaining == [];
    FlatFirst(labels, k);
    assert remaining[1..] == labels[k + 1..];
  }

  lemma FlatFirst(labels: seq<Label>, k: nat)
    requires k < |labels| && TextLabels(labels)
    ensures |labels[k]| < 256
    ensures Flat(labels[k..]) == [|labels[k]|] + labels[k] + Flat(labels[k..][1..])
  {
    assert TextLabel(labels[k]);
  }

  /** The effect of one shifted label on the converted front and the rest. */
  lemma LabelShifted(before: seq<byte>, after: seq<byte>, labels: seq<Label>, k: nat, i: nat)
    requires HalfConverted(before, labels, k, i) && i < |Flat(labels)| && TextLabels(labels)
    requires k < |labels| && Shifted(before, after, i, labels[k])
    ensures HalfConverted(after, labels, k + 1, i + |labels[k]| + 1)
  {
    hide TextLabels, Flat, Dotted;
    var part, rest, size := labels[k], Flat(labels[k + 1..]), |Flat(labels)|;
    NextLabel(before, labels, k, i);
    Layout(before, i, |part|, part, rest);
    assert labels[..k + 1] == labels[..k] + [part];
    DottedAppend(labels[..k], part);
    ghost var next := i + |part| + 1;
    assert after[..next] == Dotted(labels[..k + 1]) && after[next..size] == rest && after[size] == 0 by {
      Spliced(before, after, i, part + [DOT], size);
    }
  }

  /** A front kept, a part replaced and everything behind it kept. */
  lemma Spliced<T>(before: seq<T>, after: seq<T>, i: nat, part: seq<T>, size: nat)
    requires i + |part| <= size < |before| == |after|
    requires after[..i] == before[..i] && after[i..i + |part|] == part
    requires after[i + |part|..] == before[i + |part|..]
    ensures after[..i + |part|] == before[..i] + part
    ensures after[i + |part|..size] == before[i + |part|..size] && after[size] == before[size]
  {
    var next := i + |part|;
    assert after[..next] == after[..i] + after[i..next];
    forall j | next <= j < |after|
      ensures after[j] == before[j]
    {
      assert after[next..][j - next] == before[next..][j - next];
    }
  }

  /** Half converted or not, the buffer has the same length as a C string. */
  lemma HalfConvertedLength(s: seq<byte>, labels: seq<Label>, k: nat, i: nat)
    requires HalfConverted(s, labels, k, i) && TextLabels(labels)
    ensures StrLen(s) == |Flat(labels)| && i <= |Flat(labels)|
  {
    var size := |Flat(labels)|;
    DottedIsText(labels[..k]);
    FlatIsText(labels[k..]);
    forall j | 0 <= j < size
      ensures s[j] != 0
    {
      if j < i {
        assert s[..i][j] == Dotted(labels[..k])[j];
      } else {
        assert s[i..size][j - i] == Flat(labels[k..])[j - i];
      }
    }
    StrLenIs(s, size);
  }

  /** Everything converted: a zero over the last dot leaves the dotted join. */
  lemma LastDotCut(s: seq<byte>, labels: seq<Label>, k: nat, i: nat)
    requires HalfConverted(s, labels, k, i) && i == |Flat(labels)| && labels != [] && TextLabels(labels)
    ensures 0 < i <= |s| && CString(s[i - 1 := 0]) == Join(labels)
  {
    assert Flat(labels[k..]) == [];
    assert labels[..|labels|] == labels;
    DottedIsJoinAndDot(labels);
    DottedIsText(labels);
    var cut := s[i - 1 := 0];
    forall j | 0 <= j < i - 1
      ensures cut[j] == Join(labels)[j] != 0
    {
      assert s[..i][j] == Dotted(labels)[j] == Join(labels)[j];
    }
    StrLenIs(cut, i - 1);
  }

  /** A buffer without zeros before `n` and with one at `n` has length `n` as a C string. */
  lemma StrLenIs(s: seq<byte>, n: nat)
    requires n < |s| && s[n] == 0 && forall k :: 0 <= k < n ==> s[k] != 0
    ensures StrLen(s) == n
  {
  }

  /** What the octet at a label boundary says about the name that remains there. */
  lemma AtBoundary(msg: seq<byte>, pos: nat, start: nat, rest: Name)
    requires Decode(msg, pos, start) == Some(rest) && TextLabels(rest.labels)
    ensures pos < |msg|
    ensures msg[pos] == 0 ==> rest == Name([], 0, false)
    ensures msg[pos] >= COMPRESSION_TAG ==>
      && pos + 1 < |msg| && 0 <= Target(msg[pos], msg[pos + 1]) < start
      && var target := Target(msg[pos], msg[pos + 1]);
      && Decode(msg, target, target).Some? && Decode(msg, target, target).value.labels == rest.labels
      && rest.local == 0 && rest.compressed
    ensures 0 < msg[pos] < COMPRESSION_TAG ==>
      var next := pos + 1 + msg[pos];
      && next <= |msg| && Decode(msg, next, start).Some?
      && var tail := Decode(msg, next, start).value;
      && Flat(rest.labels) == [msg[pos]] + msg[pos + 1..next] + Flat(tail.labels)
      && rest.local == next - pos + tail.local && rest.compressed == tail.compressed
      && TextLabels(tail.labels)
      && forall k :: pos <= k < next ==> TextByte(msg[k])
  {
    if 0 < msg[pos] < COMPRESSION_TAG {
      var next := pos + 1 + msg[pos];
      var tail := Decode(msg, next, start).value;
      assert rest.labels[0] == msg[pos + 1..next] && rest.labels[1..] == tail.labels;
      assert TextLabel(rest.labels[0]);
      forall k | pos <= k < next
        ensures TextByte(msg[k])
      {
        if pos < k {
          assert rest.labels[0][k - pos - 1] == msg[k];
        }
      }
    }
  }

  /** The reader seen by the decoder: the octets copied so far, the next label boundary, the start
      of the current segment, and the name that remains at the boundary. */
  datatype Sync = Sync(copied: seq<byte>, boundary: nat, start: nat, rest: Name) {
    /** In step: the octets copied, the unread octets of the current label and the labels that
        remain spell the whole name. */
    ghost predicate InStep(msg: seq<byte>, reader: int, flat: seq<byte>) {
      && 0 <= reader <= boundary < |msg|
      && (forall k :: reader <= k < boundary ==> TextByte(msg[k]))
      && Decode(msg, boundary, start) == Some(rest) && TextLabels(rest.labels)
      && copied + msg[reader..boundary] + Flat(rest.labels) == flat
    }

    /** The octets of this segment that are copied or still to be copied. */
    function Local(reader: int): int {
      |copied| + boundary - reader + rest.local
    }
  }

  lemma StepPointer(s: Sync, msg: seq<byte>, reader: nat, flat: seq<byte>) returns (s': Sync)
    requires s.InStep(msg, reader, flat) && msg[reader] >= COMPRESSION_TAG
    ensures reader == s.boundary && reader + 1 < |msg|
    ensures 0 <= Target(msg[reader], msg[reader + 1]) == s'.start < s.start
    ensures s'.InStep(msg, Target(msg[reader], msg[reader + 1]), flat)
    ensures s'.copied == s.copied && s.rest.local == 0 && s.rest.compressed
  {
    AtBoundary(msg, s.boundary, s.start, s.rest);
    hide Decode, Flat;
    var target := Target(msg[reader], msg[reader + 1]);
    s' := Sync(s.copied, target, target, Decode(msg, target, target).value);
    AtBoundary(msg, target, target, s'.rest);
    assert msg[target..target] == msg[reader..s.boundary];
  }

  lemma StepInLabel(s: Sync, msg: seq<byte>, reader: nat, flat: seq<byte>)
    requires s.InStep(msg, reader, flat) && reader < s.boundary
    ensures s.(copied := s.copied + [msg[reader]]).InStep(msg, reader + 1, flat)
    ensures |s.copied| < |flat|
  {
    hide Decode, Flat;
    assert msg[reader..s.boundary] == [msg[reader]] + msg[reader + 1..s.boundary];
    assert s.copied + [msg[reader]] + msg[reader + 1..s.boundary] == s.copied + msg[reader..s.boundary];
  }

  lemma StepLength(s: Sync, msg: seq<byte>, flat: seq<byte>) returns (s': Sync)
    requires s.InStep(msg, s.boundary, flat) && 0 < msg[s.boundary] < COMPRESSION_TAG
    ensures s'.InStep(msg, s.boundary + 1, flat)
    ensures s'.copied == s.copied + [msg[s.boundary]] && s'.start == s.start
    ensures s.rest.local == s'.boundary - s.boundary + s'.rest.local && s'.rest.compressed == s.rest.compressed
    ensures |s.copied| < |flat|
  {
    hide Decode, Flat, TextLabels, TextByte;
    AtBoundary(msg, s.boundary, s.start, s.rest);
    var length := msg[s.boundary];
    var next := s.boundary + 1 + length;
    s' := Sync(s.copied + [length], next, s.start, Decode(msg, next, s.start).value);
    AtBoundary(msg, next, s.start, s'.rest);
    assert msg[s.boundary..s.boundary] == [];
    OneMore(s.copied, length, msg[s.boundary + 1..next], Flat(s'.rest.labels));
  }

  lemma OneMore<T>(copied: seq<T>, item: T, part: seq<T>, rest: seq<T>)
    ensures copied + [] + ([item] + part + rest) == (copied + [item]) + part + rest
  {
  }

  /** One iteration of the reading loop: following a pointer, or copying an octet. */
  lemma Step(s: Sync, msg: seq<byte>, reader: nat, flat: seq<byte>) returns (s': Sync)
    requires s.InStep(msg, reader, flat) && msg[reader] != 0
    ensures msg[reader] >= COMPRESSION_TAG ==>
      && reader + 1 < |msg|
      && 0 <= Target(msg[reader], msg[reader + 1]) == s'.start < s.start
      && s'.start < |msg|
      && s'.InStep(msg, Target(msg[reader], msg[reader + 1]), flat)
      && s'.copied == s.copied && s.Local(reader) == |s.copied| && s.rest.compressed
    ensures msg[reader] < COMPRESSION_TAG ==>
      && |s.copied| < |flat| && reader + 1 < |msg|
      && s'.InStep(msg, reader + 1, flat)
      && s'.copied == s.copied + [msg[reader]] && s'.start == s.start
      && s'.Local(reader + 1) == s.Local(reader) && s'.rest.compressed == s.rest.compressed
  {
    if msg[reader] >= COMPRESSION_TAG {
      s' := StepPointer(s, msg, reader, flat);
    } else if reader < s.boundary {
      StepInLabel(s, msg, reader, flat);
      s' := s.(copied := s.copied + [msg[reader]]);
    } else {
      s' := StepLength(s, msg, flat);
    }
  }

  lemma StepEnd(s: Sync, msg: seq<byte>, reader: nat, flat: seq<byte>)
    requires s.InStep(msg, reader, flat) && msg[reader] == 0
    ensures s.copied == flat && s.Local(reader) == |flat| && !s.rest.compressed
  {
    AtBoundary(msg, s.boundary, s.start, s.rest);
  }

  /** The `realloc` test of `ReadName`: a block that `count` has caught up with is replaced by a
      larger one with the same bytes in front. */
  method GrowIfFull(name: array<byte>, p: nat, count: nat, times: nat) returns (more: array<byte>, times': nat)
    requires p <= name.Length == INIT_SIZE + INCREMENT * times
    ensures times' == if count >= name.Length then times + 1 else times
    ensures more.Length == 256 + 64 * times' && more[..p] == name[..p]
    ensures more == name || fresh(more)
  {
    more, times' := name, times;
    if count >= INIT_SIZE + INCREMENT * times {
      times' := times + 1;
      more := new byte[INIT_SIZE + INCREMENT * times'];
      forall k | 0 <= k < name.Length {
        more[k] := name[k];
      }
    }
  }

  /** `name[p] = b`, seen from the copied front. */
  method Put(name: array<byte>, p: nat, b: byte)
    requires p < name.Length
    modifies name
    ensures name[..p + 1] == old(name[..p]) + [b]
  {
    name[p] := b;
  }

  /** The reading loop of `ReadName`: copies length octets and labels to `name`, following the
      pointers, and counts the octets up to the first one.  Where the source would write outside
      its block the model stops, with `fits` false: this happens if and only if the name does not
      fit. */
  method CopyOctets(reader0: nat, buffer: seq<byte>, ghost whole: Name)
    returns (fits: bool, name: array<byte>, p: nat, count: nat)
    requires reader0 < |buffer| && Sync([], reader0, reader0, whole).InStep(buffer, reader0, Flat(whole.labels))
    ensures fits <==> Fits(whole)
    ensures fits ==> fresh(name) && p < name.Length && name[..p] == Flat(whole.labels)
    ensures fits ==> count == whole.InPlace()
  {
    hide Sync.InStep, Flat, Decode, Target, Capacity;
    ghost var flat := Flat(whole.labels);
    var reader: int := reader0;
    var jumped, timesForRealloc := false, 0;
    p, count := 0, 1;
    name := new byte[INIT_SIZE];
    name[0] := 0;

    ghost var s := Sync([], reader0, reader0, whole);
    while buffer[reader] != 0
      invariant 0 <= reader < |buffer| && s.InStep(buffer, reader, flat)
      invariant p <= name.Length && name[..p] == s.copied
      invariant fresh(name) && name.Length == INIT_SIZE + INCREMENT * timesForRealloc
      invariant Grown(count, timesForRealloc)
      invariant !jumped ==> count == 1 + p && s.Local(reader) == whole.local && s.rest.compressed == whole.compressed
      invariant jumped ==> whole.compressed && count == 1 + whole.local
      decreases s.start, |buffer| - reader
    {
      GrownCapacity(count, timesForRealloc);
      s := Step(s, buffer, reader, flat);
      if buffer[reader] >= COMPRESSION_TAG {
        var offset := Target(buffer[reader], buffer[reader + 1]);
        reader := offset - 1;
        jumped := true;
      } else {
        if p == name.Length {
          return false, name, p, count;
        }
        Put(name, p, buffer[reader]);
        p := p + 1;
      }
      reader := reader + 1;
      if !jumped {
        count := count + 1;
      }
      name, timesForRealloc := GrowIfFull(name, p, count, timesForRealloc);
    }
    StepEnd(s, buffer, reader, flat);
    GrownCapacity(count, timesForRealloc);
    if jumped {
      count := count + 1;
    }
    fits := p < name.Length;
  }

  /** `ReadName`: reads the name at `reader` of the message `buffer`.  The result is the dotted
      join of the labels the decoder of RFC 1035 gives, and `count` the octets the name takes
      where it stands, if and only if the name fits the buffer; otherwise the source writes
      outside its block, which is `fits` being false. */
  method ReadName(reader: nat, buffer: seq<byte>) returns (fits: bool, name: array<byte>, count: nat)
    requires Named(buffer, reader)
    ensures fits <==> Readable(buffer, reader)
    ensures fits ==> fresh(name) && CString(name[..]) == Join(Decode(buffer, reader, reader).value.labels)
    ensures fits ==> count == Decode(buffer, reader, reader).value.InPlace()
  {
    ghost var whole := Decode(buffer, reader, reader).value;
    AtBoundary(buffer, reader, reader, whole);
    hide Decode, Flat, Join, CString;
    StartsInStep(buffer, reader, whole);
    var p;
    fits, name, p, count := CopyOctets(reader, buffer, whole);
    if fits {
      name[p] := 0;
      ToDotted(name, whole.labels);
    }
  }

  lemma StartsInStep(msg: seq<byte>, reader: nat, whole: Name)
    requires reader < |msg| && Decode(msg, reader, reader) == Some(whole) && TextLabels(whole.labels)
    ensures Sync([], reader, reader, whole).InStep(msg, reader, Flat(whole.labels))
  {
    hide Decode, Flat;
    assert msg[reader..reader] == [] && [] + [] + Flat(whole.labels) == Flat(whole.labels);
  }

  /** A name and its compressed form read alike: `head` holds at `target` a copy of `suffix`; the
      labels of `front` followed by the whole suffix, or by a pointer to the copy, are both read
      within the buffer and as the same text, and the second form takes the octets of `front`
      plus 2. */
  lemma BothFormsReadable(
      head: seq<byte>, front: seq<Label>, suffix: seq<Label>, target: nat, after: seq<byte>, after': seq<byte>)
    requires front + suffix != [] && TextLabels(front + suffix) && |Flat(front + suffix)| + 1 <= 255
    requires target < |head| && target < 0x4000
    requires Decode(head, target, target).Some? && Decode(head, target, target).value.labels == suffix
    ensures
      var whole := head + Flat(front + suffix) + [0] + after;
      var compressed := head + Flat(front) + Pointer(target) + after';
      && Readable(whole, |head|) && Readable(compressed, |head|)
      && Decode(whole, |head|, |head|).value.labels == front + suffix
      && Decode(compressed, |head|, |head|).value.labels == front + suffix
      && Decode(whole, |head|, |head|).value.InPlace() == |Flat(front + suffix)| + 1
      && Decode(compressed, |head|, |head|).value.InPlace() == |Flat(front)| + 2
  {
    hide Decode, Flat;
    CompressionPreservesMeaning(head, front, suffix, target, after, after');
    BufferSuffices(head + Flat(front + suffix) + [0] + after, |head|);
    BufferSuffices(head + Flat(front) + Pointer(target) + after', |head|);
  }

  /** Reading the two forms. */
  method ReadBothForms(
      whole: seq<byte>, compressed: seq<byte>,
      head: seq<byte>, front: seq<Label>, suffix: seq<Label>, target: nat, after: seq<byte>, after': seq<byte>)
    returns (plain: array<byte>, plainCount: nat, short: array<byte>, shortCount: nat)
    requires front + suffix != [] && TextLabels(front + suffix) && |Flat(front + suffix)| + 1 <= 255
    requires target < |head| && target < 0x4000
    requires Decode(head, target, target).Some? && Decode(head, target, target).value.labels == suffix
    requires whole == head + Flat(front + suffix) + [0] + after
    requires compressed == head + Flat(front) + Pointer(target) + after'
    ensures Readable(whole, |head|) && Readable(compressed, |head|)
    ensures CString(plain[..]) == Join(Decode(whole, |head|, |head|).value.labels) == Join(front + suffix)
    ensures CString(short[..]) == Join(Decode(compressed, |head|, |head|).value.labels) == Join(front + suffix)
    ensures plainCount == |Flat(front + suffix)| + 1 && shortCount == |Flat(front)| + 2
  {
    hide Decode, Flat, Join, CString;
    BothFormsReadable(head, front, suffix, target, after, after');
    var fits;
    fits, plain, plainCount := ReadName(|head|, whole);
    fits, short, shortCount := ReadName(|head|, compressed);
  }
}
