/** `buffer_copy`: scatter/gather copies between buffer sequences, all overloads. */
module BufferCopy {
  import opened Bytes
  import opened BufferMemory

  // ---------------------------------------------------------------------------
  // The common specification
  // ---------------------------------------------------------------------------

  /** The arguments a copy may be given: memcpy forbids overlap between targets and sources, and
      a copy means something only if the targets do not overlap each other. */
  predicate Copyable(targets: seq<Buffer>, sources: seq<Buffer>, length: nat) {
    && AllIn(targets, length) && AllIn(sources, length)
    && PairwiseApart(targets) && AllApart(targets, sources)
  }

  /** Memory `m` is `m0` after copying the first `n` bytes of the sources: the targets hold that
      prefix of the sources followed by their old suffix, and nothing else has changed. */
  ghost predicate Copied(m0: seq<byte>, m: seq<byte>, targets: seq<Buffer>, sources: seq<Buffer>, n: nat) {
    && |m| == |m0| && n <= Total(targets) && n <= Total(sources)
    && Flatten(m, targets) == Flatten(m0, sources)[..n] + Flatten(m0, targets)[n..]
    && Flatten(m, sources) == Flatten(m0, sources)
    && forall a :: 0 <= a < |m| && Outside(targets, a) ==> m[a] == m0[a]
  }

  predicate Outside(buffers: seq<Buffer>, address: int) {
    forall k :: 0 <= k < |buffers| ==> !buffers[k].Holds(address)
  }

  // ---------------------------------------------------------------------------
  // One memcpy inside a larger copy
  // ---------------------------------------------------------------------------

  /** Extending a copied prefix by the next `n` items. */
  lemma ExtendPrefix<T>(s: seq<T>, t: seq<T>, done: nat, n: nat)
    requires done + n <= |s| && done + n <= |t|
    ensures Overwrite(s[..done] + t[done..], done, s[done..done + n]) == s[..done + n] + t[done + n..]
  {
    var u := s[..done] + t[done..];
    assert u[..done] == s[..done];
    assert u[done + n..] == t[done + n..];
    assert s[..done] + s[done..done + n] == s[..done + n];
  }

  /** Copying `n` bytes from chunk `si` of the sources to chunk `ti` of the targets, both at
      position `done` of their flat views, extends a copy of `done` bytes to `done + n`. */
  lemma CopyStep(
      m0: seq<byte>, m: seq<byte>, targets: seq<Buffer>, sources: seq<Buffer>, done: nat,
      ti: nat, to: nat, si: nat, from: nat, n: nat, m': seq<byte>)
    requires Copyable(targets, sources, |m|) && Copied(m0, m, targets, sources, done)
    requires ti < |targets| && si < |sources|
    requires InChunk(targets, ti, to, n, done) && InChunk(sources, si, from, n, done)
    requires Moved(m, m', to, from, n)
    ensures Copied(m0, m', targets, sources, done + n)
  {
    hide *;
    MovedParts(m, m', to, from, n);
    var data := m[from..from + n];
    CopyableParts(targets, sources, |m|, ti, Buffer(to, n));
    CopiedParts(m0, m, targets, sources, done);
    ChunkParts(targets, ti, to, n, done);
    ChunkParts(sources, si, from, n, done);
    BytesAt(m, sources, si, from - sources[si].data, n, from, done);
    FlattenWrite(m, targets, ti, to - targets[ti].data, data, to, done);
    ExtendPrefix(Flatten(m0, sources), Flatten(m0, targets), done, n);
    FlattenUntouched(m, to, data, sources);
    OutsideKept(m, targets, ti, to, data);
    CopiedFromParts(m0, m, m', targets, sources, done + n);
  }

  /** The effect of one `memcpy` of `n` bytes. */
  ghost predicate Moved(m: seq<byte>, m': seq<byte>, to: nat, from: nat, n: nat) {
    from + n <= |m| && to + n <= |m| && m' == Overwrite(m, to, m[from..from + n])
  }

  lemma MovedParts(m: seq<byte>, m': seq<byte>, to: nat, from: nat, n: nat)
    requires Moved(m, m', to, from, n)
    ensures from + n <= |m| && to + n <= |m| && m' == Overwrite(m, to, m[from..from + n])
  {
  }

  /** `n` bytes at `address` lie in chunk `k`, at `position` of the flat view. */
  predicate InChunk(buffers: seq<Buffer>, k: nat, address: nat, n: nat, position: nat)
    requires k < |buffers|
  {
    && buffers[k].data <= address && address + n <= buffers[k].data + buffers[k].size
    && position == Offset(buffers, k) + (address - buffers[k].data)
  }

  lemma ChunkParts(buffers: seq<Buffer>, k: nat, address: nat, n: nat, position: nat)
    requires k < |buffers| && InChunk(buffers, k, address, n, position)
    ensures buffers[k].data <= address && address + n <= buffers[k].data + buffers[k].size
    ensures position == Offset(buffers, k) + (address - buffers[k].data)
  {
  }

  lemma CopyableParts(targets: seq<Buffer>, sources: seq<Buffer>, length: nat, ti: nat, written: Buffer)
    requires Copyable(targets, sources, length) && ti < |targets|
    ensures AllIn(targets, length) && AllIn(sources, length) && PairwiseApart(targets)
    ensures targets[ti].data <= written.data && written.data + written.size <= targets[ti].data + targets[ti].size
      ==> AllApartFrom(sources, written)
  {
    forall j | 0 <= j < |sources|
      ensures Apart(targets[ti], sources[j])
    {
    }
  }

  lemma CopiedParts(m0: seq<byte>, m: seq<byte>, targets: seq<Buffer>, sources: seq<Buffer>, n: nat)
    requires Copied(m0, m, targets, sources, n)
    ensures |m| == |m0| && n <= Total(targets) && n <= Total(sources)
    ensures Flatten(m, targets) == Flatten(m0, sources)[..n] + Flatten(m0, targets)[n..]
    ensures Flatten(m, sources) == Flatten(m0, sources)
  {
  }

  lemma CopiedFromParts(
      m0: seq<byte>, m: seq<byte>, m': seq<byte>, targets: seq<Buffer>, sources: seq<Buffer>, n: nat)
    requires exists done :: Copied(m0, m, targets, sources, done)
    requires |m'| == |m| && n <= Total(targets) && n <= Total(sources)
    requires Flatten(m', targets) == Flatten(m0, sources)[..n] + Flatten(m0, targets)[n..]
    requires Flatten(m', sources) == Flatten(m, sources)
    requires forall a :: 0 <= a < |m| && Outside(targets, a) ==> m'[a] == m[a]
    ensures Copied(m0, m', targets, sources, n)
  {
  }

  lemma OutsideKept(m: seq<byte>, targets: seq<Buffer>, ti: nat, to: nat, data: seq<byte>)
    requires ti < |targets| && to + |data| <= |m|
    requires targets[ti].data <= to && to + |data| <= targets[ti].data + targets[ti].size
    ensures forall a :: 0 <= a < |m| && Outside(targets, a) ==> Overwrite(m, to, data)[a] == m[a]
  {
    forall a | 0 <= a < |m| && Outside(targets, a)
      ensures Overwrite(m, to, data)[a] == m[a]
    {
      assert !targets[ti].Holds(a);
    }
  }

  // ---------------------------------------------------------------------------
  // The overloads
  // ---------------------------------------------------------------------------

  lemma MovedBytewise(m: seq<byte>, m': seq<byte>, to: nat, from: nat, n: nat)
    requires |m'| == |m| && from + n <= |m| && to + n <= |m|
    requires forall a :: 0 <= a < to || to + n <= a < |m| ==> m'[a] == m[a]
    requires m'[to..to + n] == m[from..from + n]
    ensures Moved(m, m', to, from, n)
  {
    assert m'[..to] == m[..to];
    assert m'[to + n..] == m[to + n..];
    assert m' == m'[..to] + m'[to..to + n] + m'[to + n..];
  }

  /** `memcpy` between regions that do not overlap. */
  method Memcpy(mem: array<byte>, to: nat, from: nat, n: nat)
    requires to + n <= mem.Length && from + n <= mem.Length
    requires to + n <= from || from + n <= to
    modifies mem
    ensures Moved(old(mem[..]), mem[..], to, from, n)
  {
    hide *;
    forall i | 0 <= i < n {
      mem[to + i] := mem[from + i];
    }
    assert mem[to..to + n] == old(mem[from..from + n]);
    MovedBytewise(old(mem[..]), mem[..], to, from, n);
  }

  /** `buffer_copy_1`: one `memcpy` of the smaller of the two sizes. */
  method BufferCopy1(mem: array<byte>, target: Buffer, source: Buffer) returns (n: nat)
    requires target.In(mem.Length) && source.In(mem.Length) && Apart(target, source)
    modifies mem
    ensures n == Min(target.size, source.size)
    ensures Moved(old(mem[..]), mem[..], target.data, source.data, n)
  {
    n := if target.size < source.size then target.size else source.size;
    if n > 0 {
      Memcpy(mem, target.data, source.data, n);
    } else {
      MovedBytewise(mem[..], mem[..], target.data, source.data, n);
    }
  }

  /** The walk of both multi-to-multi overloads: chunk and offset in each sequence.  Offsets stay
      inside their chunk, and both are at the number of bytes copied. */
  ghost predicate At(buffers: seq<Buffer>, k: nat, offset: nat, done: nat) {
    && k <= |buffers| && done == Offset(buffers, k) + offset
    && (k < |buffers| ==> offset <= buffers[k].size)
    && (k == |buffers| ==> offset == 0)
  }

  /** Moving on by `n` bytes of the current chunk: to the next one when it is used up. */
  lemma AtNext(buffers: seq<Buffer>, k: nat, offset: nat, done: nat, n: nat, address: nat)
    requires At(buffers, k, offset, done) && k < |buffers| && offset + n <= buffers[k].size
    requires address == buffers[k].data + offset
    ensures if n == buffers[k].size - offset
      then At(buffers, k + 1, 0, done + n) else At(buffers, k, offset + n, done + n)
    ensures InChunk(buffers, k, address, n, done)
    ensures done + n <= Total(buffers)
  {
    OffsetNext(buffers, k);
    OffsetMonotone(buffers, k + 1, |buffers|);
  }

  lemma AtParts(buffers: seq<Buffer>, k: nat, offset: nat, done: nat, length: nat)
    requires At(buffers, k, offset, done) && AllIn(buffers, length)
    ensures k == |buffers| ==> done == Total(buffers)
    ensures k < |buffers| ==> offset <= buffers[k].size && buffers[k].data + buffers[k].size <= length
  {
    if k == |buffers| {
      OffsetEnd(buffers);
    }
  }

  lemma CopyStart(m: seq<byte>, targets: seq<Buffer>, sources: seq<Buffer>)
    requires Copyable(targets, sources, |m|)
    ensures AllIn(targets, |m|) && AllIn(sources, |m|)
    ensures At(targets, 0, 0, 0) && At(sources, 0, 0, 0)
    ensures Copied(m, m, targets, sources, 0)
  {
  }

  lemma PlusParts(b: Buffer, offset: nat, length: nat)
    requires offset <= b.size && b.data + b.size <= length
    ensures b.Plus(offset) == Buffer(b.data + offset, b.size - offset) && b.Plus(offset).In(length)
  {
  }

  lemma UpToParts(b: Buffer, max: nat, length: nat)
    requires b.In(length)
    ensures b.UpTo(max) == Buffer(b.data, Min(b.size, max)) && b.UpTo(max).In(length)
  {
  }

  /** Parts of a target chunk and of a source chunk do not overlap. */
  lemma ChunksApart(targets: seq<Buffer>, sources: seq<Buffer>, length: nat, ti: nat, si: nat, a: Buffer, b: Buffer)
    requires Copyable(targets, sources, length) && ti < |targets| && si < |sources|
    requires targets[ti].data <= a.data && a.data + a.size <= targets[ti].data + targets[ti].size
    requires sources[si].data <= b.data && b.data + b.size <= sources[si].data + sources[si].size
    ensures Apart(a, b)
  {
    assert Apart(targets[ti], sources[si]);
  }

  lemma MinParts(a: nat, b: nat)
    ensures Min(a, b) <= a && Min(a, b) <= b && (Min(a, b) == a || Min(a, b) == b)
  {
  }

  lemma CopyableIn(targets: seq<Buffer>, sources: seq<Buffer>, length: nat)
    requires Copyable(targets, sources, length)
    ensures AllIn(targets, length) && AllIn(sources, length)
  {
  }

  /** The loop body of the multi-to-multi overloads: copies what the current chunks have in
      common, up to `limit` bytes, and moves both walks on. */
  method CopyChunk(
      mem: array<byte>, targets: seq<Buffer>, sources: seq<Buffer>,
      ti: nat, to: nat, si: nat, so: nat, limit: nat, ghost m0: seq<byte>, ghost done: nat)
    returns (n: nat, ti': nat, to': nat, si': nat, so': nat)
    requires Copyable(targets, sources, mem.Length) && Copied(m0, mem[..], targets, sources, done)
    requires ti < |targets| && At(targets, ti, to, done)
    requires si < |sources| && At(sources, si, so, done)
    modifies mem
    ensures Copied(m0, mem[..], targets, sources, done + n)
    ensures ti <= ti' <= |targets| && At(targets, ti', to', done + n)
    ensures si <= si' <= |sources| && At(sources, si', so', done + n)
    ensures n <= limit && n <= sources[si].size && (n == limit || ti < ti' || si < si')
  {
    ghost var m := mem[..];
    CopyableIn(targets, sources, mem.Length);
    AtParts(targets, ti, to, done, mem.Length);
    AtParts(sources, si, so, done, mem.Length);
    hide *;
    PlusParts(targets[ti], to, mem.Length);
    PlusParts(sources[si], so, mem.Length);
    var target := targets[ti].Plus(to);
    var source := sources[si].Plus(so);
    UpToParts(source, limit, mem.Length);
    MinParts(source.size, limit);
    var part := source.UpTo(limit);
    ChunksApart(targets, sources, mem.Length, ti, si, target, part);
    n := BufferCopy1(mem, target, part);
    MinParts(target.size, part.size);
    AtNext(targets, ti, to, done, n, target.data);
    AtNext(sources, si, so, done, n, source.data);
    CopyStep(m0, m, targets, sources, done, ti, target.data, si, source.data, n, mem[..]);
    ti', to' := ti, to + n;
    if n == target.size {
      ti', to' := ti + 1, 0;
    }
    si', so' := si, so + n;
    if n == source.size {
      si', so' := si + 1, 0;
    }
  }

  /** `multiple_buffers` to `multiple_buffers`, all bytes: a limit above the size of the current
      source chunk is none. */
  method CopyMultiMulti(mem: array<byte>, targets: seq<Buffer>, sources: seq<Buffer>) returns (total: nat)
    requires Copyable(targets, sources, mem.Length)
    modifies mem
    ensures total == Min(Total(targets), Total(sources))
    ensures Copied(old(mem[..]), mem[..], targets, sources, total)
  {
    hide *;
    total := 0;
    var ti, to, si, so := 0, 0, 0, 0;
    CopyStart(mem[..], targets, sources);
    while ti != |targets| && si != |sources|
      invariant ti <= |targets| && At(targets, ti, to, total)
      invariant si <= |sources| && At(sources, si, so, total)
      invariant Copied(old(mem[..]), mem[..], targets, sources, total)
      decreases |targets| - ti + |sources| - si
    {
      var n;
      n, ti, to, si, so := CopyChunk(mem, targets, sources, ti, to, si, so, sources[si].size + 1, old(mem[..]), total);
      total := total + n;
    }
    CopyEnd(old(mem[..]), mem[..], targets, sources, ti, to, si, so, total);
  }

  /** `multiple_buffers` to `multiple_buffers`, at most `maxBytes` bytes. */
  method CopyMultiMultiUpTo(mem: array<byte>, targets: seq<Buffer>, sources: seq<Buffer>, maxBytes: nat)
    returns (total: nat)
    requires Copyable(targets, sources, mem.Length)
    modifies mem
    ensures total == Min(Min(Total(targets), Total(sources)), maxBytes)
    ensures Copied(old(mem[..]), mem[..], targets, sources, total)
  {
    hide *;
    total := 0;
    var ti, to, si, so := 0, 0, 0, 0;
    CopyStart(mem[..], targets, sources);
    while total != maxBytes && ti != |targets| && si != |sources|
      invariant ti <= |targets| && At(targets, ti, to, total)
      invariant si <= |sources| && At(sources, si, so, total)
      invariant total <= maxBytes && Copied(old(mem[..]), mem[..], targets, sources, total)
      decreases |targets| - ti + |sources| - si, maxBytes - total
    {
      var n;
      n, ti, to, si, so := CopyChunk(mem, targets, sources, ti, to, si, so, maxBytes - total, old(mem[..]), total);
      total := total + n;
    }
    CopyEnd(old(mem[..]), mem[..], targets, sources, ti, to, si, so, total);
    MinIs(Min(Total(targets), Total(sources)), maxBytes, total);
  }

  lemma MinIs(a: nat, b: nat, m: nat)
    requires m <= a && m <= b && (m == a || m == b)
    ensures m == Min(a, b)
  {
  }

  lemma CopyEnd(
      m0: seq<byte>, m: seq<byte>, targets: seq<Buffer>, sources: seq<Buffer>,
      ti: nat, to: nat, si: nat, so: nat, total: nat)
    requires Copied(m0, m, targets, sources, total)
    requires At(targets, ti, to, total) && At(sources, si, so, total)
    ensures total <= Min(Total(targets), Total(sources))
    ensures ti == |targets| || si == |sources| ==> total == Min(Total(targets), Total(sources))
  {
    if ti == |targets| {
      OffsetEnd(targets);
    }
    if si == |sources| {
      OffsetEnd(sources);
    }
  }

  /** A single buffer as a sequence: its part from `offset` on. */
  lemma Single(b: Buffer, offset: nat, n: nat, length: nat)
    requires AllIn([b], length) && offset + n <= b.size
    ensures Total([b]) == b.size && b.In(length)
    ensures InChunk([b], 0, b.data + offset, n, offset)
  {
    assert [b][0] == b && [b][1..] == [];
  }

  /** `one_buffer` to `one_buffer`: `buffer_copy_1` with `buffer(source, maxBytes)`; the overload
      without a maximum passes the source as it is, the same as any maximum from its size on. */
  method CopyOneOne(mem: array<byte>, target: Buffer, source: Buffer, maxBytes: nat) returns (total: nat)
    requires Copyable([target], [source], mem.Length)
    modifies mem
    ensures total == Min(Min(Total([target]), Total([source])), maxBytes)
    ensures Copied(old(mem[..]), mem[..], [target], [source], total)
  {
    hide *;
    CopyStart(mem[..], [target], [source]);
    Single(target, 0, 0, mem.Length);
    Single(source, 0, 0, mem.Length);
    UpToParts(source, maxBytes, mem.Length);
    MinParts(source.size, maxBytes);
    var part := source.UpTo(maxBytes);
    ChunksApart([target], [source], mem.Length, 0, 0, target, part);
    total := BufferCopy1(mem, target, part);
    MinParts(target.size, part.size);
    Single(target, 0, total, mem.Length);
    Single(source, 0, total, mem.Length);
    CopyStep(old(mem[..]), old(mem[..]), [target], [source], 0, 0, target.data, 0, source.data, total, mem[..]);
    MinParts(target.size, source.size);
    MinIs(Min(target.size, source.size), maxBytes, total);
  }

  /** Many sources into one target: `buffer(target, maxBytes)` is filled source by source. */
  method CopyOneMulti(mem: array<byte>, target: Buffer, sources: seq<Buffer>, maxBytes: nat) returns (total: nat)
    requires Copyable([target], sources, mem.Length)
    modifies mem
    ensures total == Min(Min(Total([target]), Total(sources)), maxBytes)
    ensures Copied(old(mem[..]), mem[..], [target], sources, total)
  {
    hide *;
    total := 0;
    CopyStart(mem[..], [target], sources);
    Single(target, 0, 0, mem.Length);
    UpToParts(target, maxBytes, mem.Length);
    MinParts(target.size, maxBytes);
    var rest := target.UpTo(maxBytes);
    var si := 0;
    while rest.size != 0 && si != |sources|
      invariant si <= |sources| && total + rest.size == Min(target.size, maxBytes)
      invariant rest.data == target.data + total
      invariant Copied(old(mem[..]), mem[..], [target], sources, total)
      invariant rest.size != 0 ==> At(sources, si, 0, total)
      decreases |sources| - si
    {
      ghost var m := mem[..];
      AtParts(sources, si, 0, total, mem.Length);
      ChunksApart([target], sources, mem.Length, 0, si, rest, sources[si]);
      InIf(rest, mem.Length);
      InIf(sources[si], mem.Length);
      var n := BufferCopy1(mem, rest, sources[si]);
      MinParts(rest.size, sources[si].size);
      Single(target, total, n, mem.Length);
      AtNext(sources, si, 0, total, n, sources[si].data);
      CopyStep(old(mem[..]), m, [target], sources, total, 0, rest.data, si, sources[si].data, n, mem[..]);
      total := total + n;
      PlusParts(rest, n, mem.Length);
      rest := rest.Plus(n);
      si := si + 1;
    }
    CopiedParts(old(mem[..]), mem[..], [target], sources, total);
    if rest.size != 0 {
      AtParts(sources, si, 0, total, mem.Length);
    }
    MinParts(target.size, Total(sources));
    MinIs(Min(target.size, Total(sources)), maxBytes, total);
  }

  /** One source into many targets: `buffer(source, maxBytes)` is dealt out target by target. */
  method CopyMultiOne(mem: array<byte>, targets: seq<Buffer>, source: Buffer, maxBytes: nat) returns (total: nat)
    requires Copyable(targets, [source], mem.Length)
    modifies mem
    ensures total == Min(Min(Total(targets), Total([source])), maxBytes)
    ensures Copied(old(mem[..]), mem[..], targets, [source], total)
  {
    hide *;
    total := 0;
    CopyStart(mem[..], targets, [source]);
    Single(source, 0, 0, mem.Length);
    UpToParts(source, maxBytes, mem.Length);
    MinParts(source.size, maxBytes);
    var rest := source.UpTo(maxBytes);
    var ti := 0;
    while rest.size != 0 && ti != |targets|
      invariant ti <= |targets| && total + rest.size == Min(source.size, maxBytes)
      invariant rest.data == source.data + total
      invariant Copied(old(mem[..]), mem[..], targets, [source], total)
      invariant rest.size != 0 ==> At(targets, ti, 0, total)
      decreases |targets| - ti
    {
      ghost var m := mem[..];
      AtParts(targets, ti, 0, total, mem.Length);
      ChunksApart(targets, [source], mem.Length, ti, 0, targets[ti], rest);
      InIf(rest, mem.Length);
      InIf(targets[ti], mem.Length);
      var n := BufferCopy1(mem, targets[ti], rest);
      MinParts(targets[ti].size, rest.size);
      Single(source, total, n, mem.Length);
      AtNext(targets, ti, 0, total, n, targets[ti].data);
      CopyStep(old(mem[..]), m, targets, [source], total, ti, targets[ti].data, 0, rest.data, n, mem[..]);
      total := total + n;
      PlusParts(rest, n, mem.Length);
      rest := rest.Plus(n);
      ti := ti + 1;
    }
    CopiedParts(old(mem[..]), mem[..], targets, [source], total);
    if rest.size != 0 {
      AtParts(targets, ti, 0, total, mem.Length);
    }
    MinParts(Total(targets), source.size);
    MinIs(Min(Total(targets), source.size), maxBytes, total);
  }

  lemma InIf(b: Buffer, length: nat)
    requires b.data + b.size <= length
    ensures b.In(length)
  {
  }
}
