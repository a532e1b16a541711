/** The ICMP header and the Internet checksum of icmp_header.hpp.

    The source adds 16-bit words into a 32-bit `unsigned int`, folds it exactly twice and stores
    the complement.  Section 1 of RFC 1071 defines the checksum by one's complement addition
    (end-around carry); the lemmas here say exactly when the two agree. */
module IcmpChecksum {
  import opened Bytes

  const UINT32: nat := 0x1_0000_0000
  const MAX_BODY: nat := 131068

  // ---------------------------------------------------------------------------
  // RFC 1071: words, exact sums and one's complement sums
  // ---------------------------------------------------------------------------

  /** The body as 16-bit words, an odd last byte padded with zero. */
  function BodyWords(body: seq<byte>): seq<word> {
    if body == [] then []
    else if |body| == 1 then [Word(body[0], 0)]
    else [Word(body[0], body[1])] + BodyWords(body[2..])
  }

  /** The words the source sums: every header word but the checksum, then the body. */
  function SummedWords(header: seq<byte>, body: seq<byte>): seq<word>
    requires |header| == 8
  {
    [Word(header[0], header[1]), Word(header[4], header[5]), Word(header[6], header[7])] + BodyWords(body)
  }

  /** The words of the packet as it is sent, stored checksum included. */
  function PacketWords(header: seq<byte>, body: seq<byte>): seq<word>
    requires |header| == 8
  {
    [Word(header[0], header[1]), Word(header[2], header[3]), Word(header[4], header[5]),
     Word(header[6], header[7])] + BodyWords(body)
  }

  /** The words of a sequence of octets: word `i` has octets `2 * i` and `2 * i + 1`, or a zero
      where there is none. */
  lemma {:induction false} BodyWordsAre(body: seq<byte>)
    ensures |BodyWords(body)| == (|body| + 1) / 2
    ensures forall i :: 0 <= i < |BodyWords(body)| ==>
      BodyWords(body)[i] == 0x100 * body[2 * i] as int + if 2 * i + 1 < |body| then body[2 * i + 1] as int else 0
  {
    if |body| <= 1 {
    } else {
      var rest := body[2..];
      BodyWordsAre(rest);
      forall i | 1 <= i < |BodyWords(body)|
        ensures BodyWords(body)[i] == 0x100 * body[2 * i] as int + if 2 * i + 1 < |body| then body[2 * i + 1] as int else 0
      {
        assert BodyWords(body)[i] == BodyWords(rest)[i - 1];
        assert rest[2 * (i - 1)] == body[2 * i];
        assert 2 * i + 1 < |body| ==> rest[2 * (i - 1) + 1] == body[2 * i + 1];
      }
    }
  }

  /** The words a receiver sums are those of the whole packet, header and body. */
  lemma PacketWordsAre(header: seq<byte>, body: seq<byte>)
    requires |header| == 8
    ensures PacketWords(header, body) == BodyWords(header + body)
  {
    var packet := header + body;
    TwoOctets(header, body);
    TwoOctets(header[2..], body);
    TwoOctets(header[4..], body);
    TwoOctets(header[6..], body);
    assert header[2..][2..] == header[4..] && header[4..][2..] == header[6..] && header[6..][2..] == [];
    assert [] + body == body;
  }

  lemma TwoOctets(front: seq<byte>, body: seq<byte>)
    requires |front| >= 2
    ensures BodyWords(front + body) == [Word(front[0], front[1])] + BodyWords(front[2..] + body)
  {
    assert (front + body)[2..] == front[2..] + body;
  }

  function Sum(words: seq<word>): nat {
    if words == [] then 0 else words[0] + Sum(words[1..])
  }

  /** One's complement addition: a carry out of bit 15 is added back in. */
  function AddOnes(a: word, b: word): word {
    if a + b >= 0x1_0000 then a + b - 0xFFFF else a + b
  }

  function OnesSum(words: seq<word>): word {
    if words == [] then 0 else AddOnes(words[0], OnesSum(words[1..]))
  }

  /** A receiver accepts a packet whose one's complement sum is all ones. */
  predicate Verifies(header: seq<byte>, body: seq<byte>)
    requires |header| == 8
  {
    OnesSum(PacketWords(header, body)) == 0xFFFF
  }

  // ---------------------------------------------------------------------------
  // The source's arithmetic on an exact sum
  // ---------------------------------------------------------------------------

  /** `sum = (sum >> 16) + (sum & 0xFFFF)` on a 32-bit value. */
  function FirstFold(sum: nat): nat
    requires sum < UINT32
  {
    sum / 0x1_0000 + sum % 0x1_0000
  }

  /** `sum += (sum >> 16)`, of which the cast to `unsigned short` keeps 16 bits. */
  function SecondFold(sum: nat): word {
    (sum + sum / 0x1_0000) % 0x1_0000
  }

  /** The value stored for a given exact sum: wrap to 32 bits, fold twice, complement. */
  function Stored(exact: nat): word {
    0xFFFF - Reduced(exact % UINT32)
  }

  /** What one's complement addition makes of an exact sum. */
  function Reduced(exact: nat): word {
    if exact == 0 then 0 else (exact - 1) % 0xFFFF + 1
  }

  lemma {:induction false} OnesSumIsReducedSum(words: seq<word>)
    ensures OnesSum(words) == Reduced(Sum(words))
  {
    if words == [] {
    } else {
      OnesSumIsReducedSum(words[1..]);
      AddOnesReduces(words[0], Sum(words[1..]));
    }
  }

  lemma AddOnesReduces(w: word, rest: nat)
    ensures AddOnes(w, Reduced(rest)) == Reduced(w + rest)
  {
    if rest != 0 {
      var q, r := (rest - 1) / 0xFFFF, (rest - 1) % 0xFFFF;
      assert rest - 1 == 0xFFFF * q + r;
      if w + r < 0xFFFF {
        DivModUnique(w + rest - 1, q, w + r);
      } else if w + r < 2 * 0xFFFF {
        DivModUnique(w + rest - 1, q + 1, w + r - 0xFFFF);
      }
    } else if 0 < w {
      DivModUnique(w - 1, 0, w - 1);
    }
  }

  lemma DivModUnique(n: nat, q: nat, r: nat)
    requires n == 0xFFFF * q + r && r < 0xFFFF
    ensures n % 0xFFFF == r
  {
  }

  /** Two folds are enough: they give the one's complement sum of the 32-bit value. */
  lemma TwoFoldsSuffice(sum: nat)
    requires sum < UINT32
    ensures SecondFold(FirstFold(sum)) == Reduced(sum)
  {
    var hi, lo := sum / 0x1_0000, sum % 0x1_0000;
    assert sum == 0x1_0000 * hi + lo;
    var folded := hi + lo;
    if sum != 0 {
      assert sum - 1 == 0xFFFF * hi + (folded - 1);
      if folded <= 0xFFFF {
        DivModUnique(sum - 1, hi, folded - 1);
      } else {
        DivModUnique(sum - 1, hi + 1, folded - 1 - 0xFFFF);
      }
    }
  }

  /** The checksum the source stores makes the packet verify exactly when the number of times
      the 32-bit sum wrapped is a multiple of 65535; in particular when it never wrapped. */
  lemma StoredVerifiesIff(exact: nat)
    ensures Reduced(exact + Stored(exact)) == 0xFFFF <==> exact / UINT32 % 0xFFFF == 0
  {
    var wraps, sum := exact / UINT32, exact % UINT32;
    assert exact == UINT32 * wraps + sum;
    TwoFoldsSuffice(sum);
    assert UINT32 == 0xFFFF * 0x1_0001 + 1;
    var total := exact + Stored(exact);
    assert total == UINT32 * wraps + sum + 0xFFFF - Reduced(sum);
    if sum == 0 {
      var k := 0x1_0001 * wraps + 1;
      assert total == 0xFFFF * k + wraps;
      ReducedAllOnes(total, k, wraps);
    } else {
      var q := (sum - 1) / 0xFFFF;
      assert sum - Reduced(sum) == 0xFFFF * q;
      var k := 0x1_0001 * wraps + q + 1;
      assert total == 0xFFFF * k + wraps;
      ReducedAllOnes(total, k, wraps);
    }
  }

  lemma ReducedAllOnes(total: nat, k: nat, rest: nat)
    requires total == 0xFFFF * k + rest && 0 < k
    ensures Reduced(total) == 0xFFFF <==> rest % 0xFFFF == 0
  {
    var q, r := rest / 0xFFFF, rest % 0xFFFF;
    assert total == 0xFFFF * (k + q) + r;
    if r == 0 {
      DivModUnique(total - 1, k + q - 1, 0xFFFE);
    } else {
      DivModUnique(total - 1, k + q, r - 1);
    }
  }

  // ---------------------------------------------------------------------------
  // The bound on the body
  // ---------------------------------------------------------------------------

  lemma {:induction false} BodySumBound(body: seq<byte>)
    ensures |BodyWords(body)| == (|body| + 1) / 2
    ensures Sum(BodyWords(body)) <= 0xFFFF * ((|body| + 1) / 2)
  {
    if |body| == 1 {
      assert BodyWords(body)[1..] == [];
    } else if |body| > 1 {
      assert BodyWords(body)[1..] == BodyWords(body[2..]);
      BodySumBound(body[2..]);
    }
  }

  lemma SummedWordsSum(header: seq<byte>, body: seq<byte>)
    requires |header| == 8
    ensures Sum(SummedWords(header, body))
         == Word(header[0], header[1]) + Word(header[4], header[5]) + Word(header[6], header[7]) + Sum(BodyWords(body))
    ensures Sum(PacketWords(header, body)) == Sum(SummedWords(header, body)) + Word(header[2], header[3])
  {
    var tail := BodyWords(body);
    var a, b, c, d := Word(header[0], header[1]), Word(header[2], header[3]),
                      Word(header[4], header[5]), Word(header[6], header[7]);
    SumPrepend(d, tail);
    SumPrepend(c, [d] + tail);
    SumPrepend(a, [c] + ([d] + tail));
    SumPrepend(b, [c] + ([d] + tail));
    SumPrepend(a, [b] + ([c] + ([d] + tail)));
    assert SummedWords(header, body) == [a] + ([c] + ([d] + tail));
    assert PacketWords(header, body) == [a] + ([b] + ([c] + ([d] + tail)));
  }

  lemma SumPrepend(w: word, words: seq<word>)
    ensures Sum([w] + words) == w + Sum(words)
  {
    assert ([w] + words)[1..] == words;
  }

  /** With at most 131068 body bytes (65534 words beside the three of the header) the 32-bit
      sum cannot wrap, whatever the header and whatever the parity of the length. */
  lemma NeverWraps(header: seq<byte>, body: seq<byte>)
    requires |header| == 8 && |body| <= MAX_BODY
    ensures Sum(SummedWords(header, body)) < UINT32
  {
    hide Sum, SummedWords, PacketWords, BodyWords;
    BodySumBound(body);
    SummedWordsSum(header, body);
  }

  lemma {:induction false} AllOnesSum(words: nat, last: seq<byte>)
    requires |last| <= 1
    ensures Sum(BodyWords(seq(2 * words, _ => 255) + last)) == 0xFFFF * words + Sum(BodyWords(last))
    decreases words
  {
    var body: seq<byte> := seq(2 * words, _ => 255) + last;
    if words == 0 {
      assert body == last;
    } else {
      AllOnesSum(words - 1, last);
      assert body[2..] == seq(2 * (words - 1), _ => 255) + last;
      assert BodyWords(body)[1..] == BodyWords(body[2..]);
    }
  }

  /** One byte more and the bound fails: the sum wraps and the stored checksum is wrong. */
  lemma BoundIsTight() returns (header: seq<byte>, body: seq<byte>)
    ensures |header| == 8 && |body| == MAX_BODY + 1
    ensures Sum(SummedWords(header, body)) >= UINT32
    ensures Sum(SummedWords(header, body)) / UINT32 % 0xFFFF != 0
  {
    header := seq(8, _ => 255);
    body := seq(2 * 65534, _ => 255) + [255];
    AllOnesSum(65534, [255]);
    assert BodyWords([255]) == [Word(255, 0)];
    SummedWordsSum(header, body);
  }

  /** Storing `Stored` of the other words in the checksum field: the packet verifies exactly when
      the sum wrapped a multiple of 65535 times, so always for a body within the bound. */
  lemma StoredChecksumVerifies(before: seq<byte>, after: seq<byte>, body: seq<byte>)
    requires |before| == |after| == 8
    requires forall k :: 0 <= k < 8 && k != 2 && k != 3 ==> after[k] == before[k]
    requires Word(after[2], after[3]) == Stored(Sum(SummedWords(before, body)))
    ensures Verifies(after, body) <==> Sum(SummedWords(before, body)) / UINT32 % 0xFFFF == 0
    ensures |body| <= MAX_BODY ==> Verifies(after, body)
  {
    hide Sum, OnesSum, Reduced, BodyWords, Stored;
    assert SummedWords(after, body) == SummedWords(before, body);
    SummedWordsSum(after, body);
    OnesSumIsReducedSum(PacketWords(after, body));
    StoredVerifiesIff(Sum(SummedWords(before, body)));
    if |body| <= MAX_BODY {
      NeverWraps(before, body);
    }
  }

  // ---------------------------------------------------------------------------
  // The header object and compute_checksum
  // ---------------------------------------------------------------------------

  class IcmpHeader {
    const rep: array<byte>

    ghost predicate Valid() {
      rep.Length == 8
    }

    constructor ()
      ensures Valid() && fresh(rep) && rep[..] == seq(8, _ => 0)
    {
      rep := new byte[8](_ => 0);
    }

    function Type(): byte
      requires Valid()
      reads rep
    {
      rep[0]
    }

    function Code(): byte
      requires Valid()
      reads rep
    {
      rep[1]
    }

    function Decode(a: nat, b: nat): word
      requires Valid() && a < 8 && b < 8
      reads rep
    {
      Word(rep[a], rep[b])
    }

    function Checksum(): word
      requires Valid()
      reads rep
    {
      Decode(2, 3)
    }

    function Identifier(): word
      requires Valid()
      reads rep
    {
      Decode(4, 5)
    }

    function SequenceNumber(): word
      requires Valid()
      reads rep
    {
      Decode(6, 7)
    }

    /** The octets of the header are its fields in the order of RFC 792, high octet first. */
    lemma LayoutOfFields()
      requires Valid()
      ensures rep[..] == [Type(), Code(), Checksum() / 256, Checksum() % 256, Identifier() / 256, Identifier() % 256,
                          SequenceNumber() / 256, SequenceNumber() % 256]
    {
      assert forall a, b | 0 <= a < 8 && 0 <= b < 8 :: Decode(a, b) / 256 == rep[a] && Decode(a, b) % 256 == rep[b];
    }

    /** Stores a 16-bit value so that `Decode` reads it back, and touches no other byte. */
    method Encode(a: nat, b: nat, n: word)
      requires Valid() && a < 8 && b < 8 && a != b
      modifies rep
      ensures Decode(a, b) == n
      ensures forall k :: 0 <= k < 8 && k != a && k != b ==> rep[k] == old(rep[k])
    {
      rep[a] := n / 256;
      rep[b] := n % 256;
    }

    method SetChecksum(n: word)
      requires Valid()
      modifies rep
      ensures Checksum() == n
      ensures forall k :: 0 <= k < 8 && k != 2 && k != 3 ==> rep[k] == old(rep[k])
    {
      Encode(2, 3, n);
    }

    method SetIdentifier(n: word)
      requires Valid()
      modifies rep
      ensures Identifier() == n
      ensures forall k :: 0 <= k < 8 && k != 4 && k != 5 ==> rep[k] == old(rep[k])
    {
      Encode(4, 5, n);
    }

    method SetSequenceNumber(n: word)
      requires Valid()
      modifies rep
      ensures SequenceNumber() == n
      ensures forall k :: 0 <= k < 8 && k != 6 && k != 7 ==> rep[k] == old(rep[k])
    {
      Encode(6, 7, n);
    }
  }

  /** What an `unsigned int` keeps of a number. */
  function Wrap(n: nat): nat {
    n % UINT32
  }

  lemma WrapIs(n: nat)
    ensures Wrap(n) == n % UINT32 && (n < UINT32 ==> Wrap(n) == n)
  {
  }

  /** Unsigned addition modulo 2^32 may be postponed to the end. */
  lemma WrapLate(a: nat, b: nat)
    ensures Wrap(Wrap(a) + b) == Wrap(a + b)
  {
    var q, r := a / UINT32, a % UINT32;
    assert a + b == UINT32 * q + (r + b);
  }

  /** The complement of a 32-bit value, cast to `unsigned short`. */
  lemma ComplementLow(sum: nat)
    requires sum < UINT32
    ensures (UINT32 - 1 - sum) % 0x1_0000 == 0xFFFF - sum % 0x1_0000
  {
    var q, r := sum / 0x1_0000, sum % 0x1_0000;
    assert UINT32 - 1 - sum == 0x1_0000 * (0xFFFF - q) + (0xFFFF - r);
  }

  lemma NoWords(body: seq<byte>)
    requires body == []
    ensures Sum(BodyWords(body)) == 0
  {
  }

  lemma BodyWordsStep(body: seq<byte>)
    requires body != []
    ensures |body| == 1 ==> Sum(BodyWords(body)) == Word(body[0], 0)
    ensures |body| > 1 ==> Sum(BodyWords(body)) == Word(body[0], 0) + body[1] + Sum(BodyWords(body[2..]))
  {
    if |body| == 1 {
      assert BodyWords(body)[1..] == [];
    } else {
      assert BodyWords(body)[1..] == BodyWords(body[2..]);
    }
  }

  /** The 32-bit accumulation loop of `compute_checksum`. */
  method Accumulate(start: nat, body: seq<byte>) returns (sum: nat)
    requires start < UINT32
    ensures sum == (start + Sum(BodyWords(body))) % UINT32
  {
    hide Sum, BodyWords, Wrap;
    assert body[0..] == body;
    WrapIs(start);
    sum := start;
    var i := 0;
    ghost var exact: nat := start;
    while i != |body|
      invariant 0 <= i <= |body|
      invariant sum == Wrap(exact)
      invariant exact + Sum(BodyWords(body[i..])) == start + Sum(BodyWords(body))
      decreases |body| - i
    {
      ghost var rest := body[i..];
      BodyWordsStep(rest);
      WrapLate(exact, Word(body[i], 0));
      sum := Wrap(sum + Word(body[i], 0));
      exact := exact + Word(body[i], 0);
      i := i + 1;
      if i != |body| {
        WrapLate(exact, body[i]);
        sum := Wrap(sum + body[i]);
        exact := exact + body[i];
        i := i + 1;
        assert body[i..] == rest[2..];
      } else {
        NoWords(body[i..]);
      }
    }
    NoWords(body[i..]);
    WrapIs(exact);
  }

  /** The two folds and the complement that end `compute_checksum`. */
  method FoldAndComplement(total: nat) returns (stored: word)
    requires total < UINT32
    ensures stored == 0xFFFF - Reduced(total)
  {
    hide Reduced;
    var sum := total / 0x1_0000 + total % 0x1_0000;
    sum := sum + sum / 0x1_0000;
    stored := (UINT32 - 1 - sum) % 0x1_0000;
    TwoFoldsSuffice(total);
    ComplementLow(sum);
  }

  /** `compute_checksum`: only the two checksum bytes change, and the packet then verifies if and
      only if the sum of its other words wrapped a multiple of 65535 times (see NeverWraps). */
  method ComputeChecksum(header: IcmpHeader, body: seq<byte>)
    requires header.Valid()
    modifies header.rep
    ensures forall k :: 0 <= k < 8 && k != 2 && k != 3 ==> header.rep[k] == old(header.rep[k])
    ensures header.Checksum() == Stored(Sum(SummedWords(old(header.rep[..]), body)))
    ensures Verifies(header.rep[..], body)
       <==> Sum(SummedWords(old(header.rep[..]), body)) / UINT32 % 0xFFFF == 0
    ensures |body| <= MAX_BODY ==> Verifies(header.rep[..], body)
  {
    hide Sum, SummedWords, BodyWords, Reduced, Verifies;
    ghost var before := header.rep[..];
    var sum := Word(header.Type(), header.Code()) + header.Identifier() + header.SequenceNumber();
    SummedWordsSum(before, body);
    sum := Accumulate(sum, body);
    var stored := FoldAndComplement(sum);
    header.SetChecksum(stored);
    StoredChecksumVerifies(before, header.rep[..], body);
  }
}
