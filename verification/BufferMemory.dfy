/** Buffers as asio uses them: address ranges in one flat memory.

    A buffer owns nothing, it is a pointer and a size (buffer.hpp), so a memory is a sequence of
    bytes and a pointer an index into it. */
module BufferMemory {
  import opened Bytes

  datatype Buffer = Buffer(data: nat, size: nat) {
    predicate In(length: nat) {
      data + size <= length
    }

    predicate Holds(address: int) {
      data <= address < data + size
    }

    /** `operator+`: the buffer without its first `n` bytes, or the empty rest of it. */
    function Plus(n: nat): (b: Buffer)
      ensures forall address :: b.Holds(address) <==> Holds(address) && data + n <= address
      ensures b.size == size - Min(n, size) && b.data + b.size == data + size
    {
      var offset := if n < size then n else size;
      Buffer(data + offset, size - offset)
    }

    /** `buffer(b, max_size_in_bytes)`. */
    function UpTo(max: nat): (b: Buffer)
      ensures forall address :: b.Holds(address) <==> Holds(address) && address < data + max
      ensures b.data == data && b.size == Min(size, max)
    {
      Buffer(data, if size < max then size else max)
    }

    /** The bytes the buffer stands for; an address outside the memory reads as zero. */
    function Bytes(memory: seq<byte>): (bytes: seq<byte>)
      ensures |bytes| == size
      ensures In(|memory|) ==> bytes == memory[data..data + size]
    {
      if data + size <= |memory| then memory[data..data + size] else seq(size, _ => 0)
    }
  }

  /** A buffer sequence within a memory of the given length. */
  predicate AllIn(buffers: seq<Buffer>, length: nat) {
    forall k :: 0 <= k < |buffers| ==> buffers[k].In(length)
  }

  predicate Apart(a: Buffer, b: Buffer) {
    a.size == 0 || b.size == 0 || a.data + a.size <= b.data || b.data + b.size <= a.data
  }

  predicate AllApartFrom(buffers: seq<Buffer>, b: Buffer) {
    forall k :: 0 <= k < |buffers| ==> Apart(buffers[k], b)
  }

  predicate PairwiseApart(buffers: seq<Buffer>) {
    forall i, j :: 0 <= i < j < |buffers| ==> Apart(buffers[i], buffers[j])
  }

  predicate AllApart(a: seq<Buffer>, b: seq<Buffer>) {
    forall i, j :: 0 <= i < |a| && 0 <= j < |b| ==> Apart(a[i], b[j])
  }

  /** `buffer_size` of a buffer sequence. */
  function Total(buffers: seq<Buffer>): nat {
    if buffers == [] then 0 else buffers[0].size + Total(buffers[1..])
  }

  /** The bytes a buffer sequence stands for. */
  function Flatten(memory: seq<byte>, buffers: seq<Buffer>): (bytes: seq<byte>)
    ensures |bytes| == Total(buffers)
  {
    if buffers == [] then [] else buffers[0].Bytes(memory) + Flatten(memory, buffers[1..])
  }

  /** Where chunk `k` starts in the flat view: the sizes of the chunks before it. */
  function Offset(buffers: seq<Buffer>, k: nat): nat
    requires k <= |buffers|
  {
    if k == 0 then 0 else buffers[0].size + Offset(buffers[1..], k - 1)
  }

  /** The definitions for a non-empty buffer sequence, unfolded once. */
  lemma Unfolded(memory: seq<byte>, buffers: seq<Buffer>, k: nat)
    requires k < |buffers|
    ensures Flatten(memory, buffers) == buffers[0].Bytes(memory) + Flatten(memory, buffers[1..])
    ensures Total(buffers) == buffers[0].size + Total(buffers[1..])
    ensures Offset(buffers, k) == if k == 0 then 0 else buffers[0].size + Offset(buffers[1..], k - 1)
    ensures 0 < k ==> buffers[1..][k - 1] == buffers[k]
    ensures AllIn(buffers, |memory|) ==>
      && AllIn(buffers[1..], |memory|) && buffers[0].In(|memory|)
      && buffers[k].data + buffers[k].size <= |memory|
  {
  }

  lemma {:induction false} OffsetNext(buffers: seq<Buffer>, k: nat)
    requires k < |buffers|
    ensures Offset(buffers, k + 1) == Offset(buffers, k) + buffers[k].size
  {
    if k == 0 {
    } else {
      OffsetNext(buffers[1..], k - 1);
    }
  }

  lemma {:induction false} OffsetEnd(buffers: seq<Buffer>)
    ensures Offset(buffers, |buffers|) == Total(buffers)
  {
    if buffers == [] {
    } else {
      OffsetEnd(buffers[1..]);
    }
  }

  lemma {:induction false} OffsetMonotone(buffers: seq<Buffer>, j: nat, k: nat)
    requires j <= k <= |buffers|
    ensures Offset(buffers, j) <= Offset(buffers, k) <= Total(buffers)
    decreases |buffers| - j
  {
    if j == k {
      if k == |buffers| {
        OffsetEnd(buffers);
      } else {
        OffsetNext(buffers, k);
        OffsetMonotone(buffers, k + 1, |buffers|);
      }
    } else {
      OffsetNext(buffers, j);
      OffsetMonotone(buffers, j + 1, k);
    }
  }

  /** Chunk `k` stands at its offset in the flat view. */
  lemma {:induction false} ChunkInFlat(memory: seq<byte>, buffers: seq<Buffer>, k: nat, position: nat)
    requires k < |buffers| && position == Offset(buffers, k)
    ensures position + buffers[k].size <= Total(buffers)
    ensures Flatten(memory, buffers)[position..position + buffers[k].size] == buffers[k].Bytes(memory)
  {
    hide *;
    Unfolded(memory, buffers, k);
    var first, rest := buffers[0], buffers[1..];
    if k == 0 {
      FirstSlice(first.Bytes(memory), Flatten(memory, rest));
    } else {
      ChunkInFlat(memory, rest, k - 1, position - first.size);
      SliceBehind(first.Bytes(memory), Flatten(memory, rest), position - first.size, buffers[k].size, position);
    }
  }

  lemma FirstSlice<T>(a: seq<T>, b: seq<T>)
    ensures (a + b)[0..|a|] == a
  {
  }

  lemma SliceBehind<T>(a: seq<T>, b: seq<T>, at: nat, n: nat, position: nat)
    requires at + n <= |b| && position == |a| + at
    ensures (a + b)[position..position + n] == b[at..at + n]
  {
  }

  lemma SubSlice<T>(s: seq<T>, lo: nat, size: nat, at: nat, n: nat, from: nat)
    requires lo + size <= |s| && at + n <= size && from == lo + at
    ensures s[lo..lo + size][at..at + n] == s[from..from + n]
  {
    var inner, outer := s[lo..lo + size][at..at + n], s[from..from + n];
    forall k | 0 <= k < n
      ensures inner[k] == outer[k]
    {
      assert s[lo..lo + size][at + k] == s[lo + (at + k)];
    }
  }

  /** The bytes at an address in a chunk are the bytes at its position in the flat view. */
  lemma BytesAt(
      m: seq<byte>, buffers: seq<Buffer>, k: nat, at: nat, n: nat, address: nat, position: nat)
    requires AllIn(buffers, |m|) && k < |buffers| && at + n <= buffers[k].size
    requires address == buffers[k].data + at && position == Offset(buffers, k) + at
    ensures position + n <= Total(buffers) && address + n <= |m|
    ensures m[address..address + n] == Flatten(m, buffers)[position..position + n]
  {
    hide *;
    var b := buffers[k];
    Unfolded(m, buffers, k);
    ChunkIn(m, buffers, k);
    ChunkInFlat(m, buffers, k, position - at);
    SubSlice(m, b.data, b.size, at, n, address);
    SubSlice(Flatten(m, buffers), position - at, b.size, at, n, position);
  }

  lemma ChunkIn(m: seq<byte>, buffers: seq<Buffer>, k: nat)
    requires AllIn(buffers, |m|) && k < |buffers|
    ensures buffers[k].data + buffers[k].size <= |m|
    ensures buffers[k].Bytes(m) == m[buffers[k].data..buffers[k].data + buffers[k].size]
  {
  }

  // ---------------------------------------------------------------------------
  // Writing into one chunk
  // ---------------------------------------------------------------------------

  /** A sequence with the items from `at` on replaced by `data`. */
  function Overwrite<T>(s: seq<T>, at: nat, data: seq<T>): (after: seq<T>)
    requires at + |data| <= |s|
    ensures |after| == |s|
  {
    s[..at] + data + s[at + |data|..]
  }

  lemma OverwriteFront<T>(a: seq<T>, b: seq<T>, at: nat, data: seq<T>)
    requires at + |data| <= |a|
    ensures Overwrite(a + b, at, data) == Overwrite(a, at, data) + b
  {
  }

  lemma OverwriteBehind<T>(a: seq<T>, b: seq<T>, at: nat, data: seq<T>, position: nat)
    requires at + |data| <= |b| && position == |a| + at
    ensures Overwrite(a + b, position, data) == a + Overwrite(b, at, data)
  {
    assert (a + b)[..position] == a + b[..at];
    assert (a + b)[position + |data|..] == b[at + |data|..];
  }

  /** A write touches no buffer apart from the bytes written. */
  lemma BytesUntouched(memory: seq<byte>, address: nat, data: seq<byte>, b: Buffer)
    requires address + |data| <= |memory| && b.In(|memory|)
    requires Apart(b, Buffer(address, |data|))
    ensures b.Bytes(Overwrite(memory, address, data)) == b.Bytes(memory)
  {
  }

  lemma BytesOverwritten(memory: seq<byte>, b: Buffer, at: nat, data: seq<byte>, address: nat)
    requires b.In(|memory|) && at + |data| <= b.size && address == b.data + at
    ensures b.Bytes(Overwrite(memory, address, data)) == Overwrite(b.Bytes(memory), at, data)
  {
  }

  lemma {:induction false} FlattenUntouched(memory: seq<byte>, address: nat, data: seq<byte>, buffers: seq<Buffer>)
    requires address + |data| <= |memory| && AllIn(buffers, |memory|)
    requires AllApartFrom(buffers, Buffer(address, |data|))
    ensures Flatten(Overwrite(memory, address, data), buffers) == Flatten(memory, buffers)
  {
    if buffers == [] {
    } else {
      hide Overwrite, Buffer.Bytes;
      FlattenUntouched(memory, address, data, buffers[1..]);
      BytesUntouched(memory, address, data, buffers[0]);
    }
  }

  /** Bytes of chunk `k` are apart from the first chunk, or from all the others. */
  lemma PairwiseApartRest(buffers: seq<Buffer>, k: nat, written: Buffer)
    requires PairwiseApart(buffers) && k < |buffers|
    requires buffers[k].data <= written.data && written.data + written.size <= buffers[k].data + buffers[k].size
    ensures PairwiseApart(buffers[1..])
    ensures 0 < k ==> Apart(buffers[0], written)
    ensures k == 0 ==> AllApartFrom(buffers[1..], written)
  {
    if k == 0 {
      forall j | 0 <= j < |buffers[1..]|
        ensures Apart(buffers[1..][j], written)
      {
        assert Apart(buffers[0], buffers[j + 1]);
      }
    } else {
      assert Apart(buffers[0], buffers[k]);
    }
  }

  lemma FlattenWriteFirst(memory: seq<byte>, buffers: seq<Buffer>, at: nat, data: seq<byte>, address: nat)
    requires AllIn(buffers, |memory|) && PairwiseApart(buffers)
    requires buffers != [] && at + |data| <= buffers[0].size && address == buffers[0].data + at
    ensures Flatten(Overwrite(memory, address, data), buffers) == Overwrite(Flatten(memory, buffers), at, data)
  {
    PairwiseApartRest(buffers, 0, Buffer(address, |data|));
    hide Overwrite, Buffer.Bytes, PairwiseApart, AllApartFrom;
    FlattenUntouched(memory, address, data, buffers[1..]);
    BytesOverwritten(memory, buffers[0], at, data, address);
    OverwriteFront(buffers[0].Bytes(memory), Flatten(memory, buffers[1..]), at, data);
  }

  /** A write at `address`, inside chunk `k`, replaces exactly those bytes of the flat view,
      provided that the chunks are pairwise disjoint. */
  lemma {:induction false} FlattenWrite(
      memory: seq<byte>, buffers: seq<Buffer>, k: nat, at: nat, data: seq<byte>, address: nat, position: nat)
    requires AllIn(buffers, |memory|) && PairwiseApart(buffers)
    requires k < |buffers| && at + |data| <= buffers[k].size
    requires address == buffers[k].data + at && position == Offset(buffers, k) + at
    ensures position + |data| <= Total(buffers)
    ensures Flatten(Overwrite(memory, address, data), buffers) == Overwrite(Flatten(memory, buffers), position, data)
  {
    hide *;
    Unfolded(memory, buffers, k);
    assert address + |data| <= |memory|;
    Unfolded(Overwrite(memory, address, data), buffers, k);
    if k == 0 {
      FlattenWriteFirst(memory, buffers, position, data, address);
    } else {
      var first, rest := buffers[0], buffers[1..];
      PairwiseApartRest(buffers, k, Buffer(address, |data|));
      BytesUntouched(memory, address, data, first);
      FlattenWrite(memory, rest, k - 1, at, data, address, position - first.size);
      OverwriteBehind(first.Bytes(memory), Flatten(memory, rest), position - first.size, data, position);
    }
  }
}
