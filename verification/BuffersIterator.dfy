/** `buffers_iterator`: a random-access iterator over the bytes of a list of buffers, some of
    which may be empty.  It must behave like an index into the flat view. */
module BuffersIterator {
  import opened Bytes
  import opened BufferMemory

  // ---------------------------------------------------------------------------
  // Chunk coordinates of a flat index
  // ---------------------------------------------------------------------------

  datatype Coordinates = Coordinates(chunk: nat, offset: nat)

  /** The non-empty chunk that holds flat index `p`, and the offset in it; one past the last
      chunk for the end position. */
  function Locate(buffers: seq<Buffer>, p: nat): Coordinates {
    if buffers == [] then Coordinates(0, 0)
    else if p < buffers[0].size then Coordinates(0, p)
    else
      var c := Locate(buffers[1..], p - buffers[0].size);
      Coordinates(c.chunk + 1, c.offset)
  }

  /** Chunk and offset at flat index `p`: inside a chunk, or at the end. */
  ghost predicate Spot(buffers: seq<Buffer>, k: nat, offset: nat, p: nat) {
    && k <= |buffers| && p == Offset(buffers, k) + offset
    && (k < |buffers| ==> offset < buffers[k].size)
    && (k == |buffers| ==> offset == 0)
  }

  /** The position alone determines the coordinates. */
  lemma {:induction false} SpotIsLocate(buffers: seq<Buffer>, k: nat, offset: nat, p: nat)
    requires Spot(buffers, k, offset, p)
    ensures Locate(buffers, p) == Coordinates(k, offset) && p <= Total(buffers)
    ensures p == Total(buffers) <==> k == |buffers|
  {
    if buffers == [] || k == 0 {
    } else {
      assert Spot(buffers[1..], k - 1, offset, p - buffers[0].size);
      SpotIsLocate(buffers[1..], k - 1, offset, p - buffers[0].size);
    }
  }

  /** And every position up to the end has coordinates. */
  lemma {:induction false} LocateIsSpot(buffers: seq<Buffer>, p: nat)
    requires p <= Total(buffers)
    ensures var c := Locate(buffers, p); Spot(buffers, c.chunk, c.offset, p)
  {
    if buffers == [] || p < buffers[0].size {
    } else {
      LocateIsSpot(buffers[1..], p - buffers[0].size);
    }
  }

  lemma SpotParts(buffers: seq<Buffer>, k: nat, offset: nat, p: nat)
    requires Spot(buffers, k, offset, p)
    ensures k <= |buffers| && p == Offset(buffers, k) + offset
    ensures k < |buffers| ==> offset < buffers[k].size
    ensures k == |buffers| ==> offset == 0
    ensures Locate(buffers, p) == Coordinates(k, offset) && p <= Total(buffers)
    ensures p == Total(buffers) <==> k == |buffers|
  {
    SpotIsLocate(buffers, k, offset, p);
  }

  lemma OffsetBounds(buffers: seq<Buffer>, k: nat)
    requires k <= |buffers|
    ensures Offset(buffers, k) <= Total(buffers)
    ensures k == |buffers| ==> Offset(buffers, k) == Total(buffers)
    ensures k == 0 ==> Offset(buffers, k) == 0
    ensures k < |buffers| ==> Offset(buffers, k + 1) == Offset(buffers, k) + buffers[k].size <= Total(buffers)
  {
    OffsetMonotone(buffers, k, |buffers|);
    OffsetEnd(buffers);
    if k < |buffers| {
      OffsetNext(buffers, k);
      OffsetMonotone(buffers, k + 1, |buffers|);
    }
  }

  // ---------------------------------------------------------------------------
  // The iterator
  // ---------------------------------------------------------------------------

  /** The pointers `begin_`, `current_` and `end_` into the buffer list are the indices 0,
      `current` and `|buffers|`. */
  class BuffersIterator {
    const buffers: seq<Buffer>
    var currentBuffer: Buffer
    var currentBufferPosition: nat
    var current: nat
    var position: nat

    ghost predicate Valid()
      reads this
    {
      && Spot(buffers, current, currentBufferPosition, position)
      && (current < |buffers| ==> currentBuffer == buffers[current])
    }

    /** What `Valid` says about the fields. */
    lemma ValidParts()
      requires Valid()
      ensures current <= |buffers| && position == Offset(buffers, current) + currentBufferPosition
      ensures current < |buffers| ==>
        currentBuffer == buffers[current] && currentBufferPosition < currentBuffer.size
      ensures current == |buffers| ==> currentBufferPosition == 0
      ensures Locate(buffers, position) == Coordinates(current, currentBufferPosition)
      ensures position <= Total(buffers) && (position == Total(buffers) <==> current == |buffers|)
    {
      SpotParts(buffers, current, currentBufferPosition, position);
    }

    /** Fields that are settled inside a chunk, or at the end. */
    lemma Settled()
      requires current <= |buffers| && position == Offset(buffers, current) + currentBufferPosition
      requires current < |buffers| ==>
        currentBuffer == buffers[current] && currentBufferPosition < currentBuffer.size
      requires current == |buffers| ==> currentBufferPosition == 0
      ensures Valid()
    {
    }

    /** `begin`: the first byte, past any empty buffers. */
    constructor Begin(buffers: seq<Buffer>)
      ensures this.buffers == buffers && Valid() && position == 0
    {
      hide *;
      this.buffers := buffers;
      currentBuffer, currentBufferPosition, current, position := Buffer(0, 0), 0, 0, 0;
      new;
      OffsetBounds(buffers, 0);
      while current != |buffers|
        invariant current <= |buffers| && Offset(buffers, current) == 0
        invariant position == 0 && currentBufferPosition == 0
        decreases |buffers| - current
      {
        currentBuffer := buffers[current];
        if currentBuffer.size > 0 {
          break;
        }
        OffsetBounds(buffers, current);
        current := current + 1;
      }
      Settled();
    }

    /** `end`: the position behind the last byte. */
    constructor End(buffers: seq<Buffer>)
      ensures this.buffers == buffers && Valid() && position == Total(buffers)
    {
      hide *;
      this.buffers := buffers;
      currentBuffer, currentBufferPosition, current, position := Buffer(0, 0), 0, 0, 0;
      new;
      OffsetBounds(buffers, 0);
      while current != |buffers|
        invariant current <= |buffers| && position == Offset(buffers, current)
        invariant currentBufferPosition == 0
        decreases |buffers| - current
      {
        OffsetBounds(buffers, current);
        position := position + buffers[current].size;
        current := current + 1;
      }
      OffsetBounds(buffers, current);
      Settled();
    }

    /** The address `operator*` refers to. */
    function Dereference(): nat
      reads this
    {
      currentBuffer.data + currentBufferPosition
    }

    /** `operator*` is indexing into the flat view. */
    lemma DereferenceIsFlat(memory: seq<byte>)
      requires Valid() && AllIn(buffers, |memory|) && position < Total(buffers)
      ensures Dereference() < |memory| && memory[Dereference()] == Flatten(memory, buffers)[position]
    {
      hide Spot, Valid, Offset, Total, Flatten, Buffer.Bytes;
      ValidParts();
      BytesAt(memory, buffers, current, currentBufferPosition, 1, Dereference(), position);
      assert memory[Dereference()..Dereference() + 1][0] == Flatten(memory, buffers)[position..position + 1][0];
    }

    /** `equal` compares positions only. */
    predicate Equal(other: BuffersIterator)
      reads this, other
    {
      position == other.position
    }

    /** Over the same buffers that is sound: equal iterators have equal coordinates, so they refer
        to the same byte, and unequal ones differ in their coordinates. */
    lemma EqualIsSound(other: BuffersIterator)
      requires Valid() && other.Valid() && buffers == other.buffers
      ensures Equal(other) <==>
        current == other.current && currentBufferPosition == other.currentBufferPosition
      ensures Equal(other) && current < |buffers| ==> Dereference() == other.Dereference()
    {
      ValidParts();
      other.ValidParts();
    }

    /** `distance_to`. */
    function DistanceTo(other: BuffersIterator): int
      reads this, other
    {
      other.position - position
    }

    /** `operator++`: one flat index on, wherever the next non-empty buffer is. */
    method Increment()
      requires Valid() && position < Total(buffers)
      modifies this
      ensures Valid() && position == old(position) + 1
    {
      hide *;
      ValidParts();
      OffsetBounds(buffers, current);
      assert current != |buffers|;
      position := position + 1;
      currentBufferPosition := currentBufferPosition + 1;
      if currentBufferPosition != currentBuffer.size {
        Settled();
        return;
      }
      current := current + 1;
      currentBufferPosition := 0;
      while current != |buffers|
        invariant current <= |buffers| && currentBufferPosition == 0
        invariant position == old(position) + 1 == Offset(buffers, current)
        decreases |buffers| - current
      {
        currentBuffer := buffers[current];
        if currentBuffer.size > 0 {
          Settled();
          return;
        }
        OffsetBounds(buffers, current);
        current := current + 1;
      }
      Settled();
    }

    /** `operator--`: one flat index back.  The search backwards always finds a buffer, so the
        loop never runs out of them. */
    method Decrement()
      requires Valid() && position > 0
      modifies this
      ensures Valid() && position == old(position) - 1
    {
      hide *;
      ValidParts();
      position := position - 1;
      if currentBufferPosition != 0 {
        currentBufferPosition := currentBufferPosition - 1;
        Settled();
        return;
      }
      var iter := current;
      OffsetBounds(buffers, iter);
      while iter != 0
        invariant 0 < iter <= current <= |buffers|
        invariant position + 1 == old(position) == Offset(buffers, iter)
        decreases iter
      {
        iter := iter - 1;
        OffsetBounds(buffers, iter);
        var buffer := buffers[iter];
        if buffer.size > 0 {
          current := iter;
          currentBuffer := buffer;
          currentBufferPosition := buffer.size - 1;
          Settled();
          return;
        }
      }
      assert false;
    }

    /** `advance`, and so `operator+=` and `operator-=`: a move by any distance that stays in
        bounds.  The coordinates reached are those of the target position, so moves compose. */
    method Advance(n0: int)
      requires Valid() && 0 <= position + n0 <= Total(buffers)
      modifies this
      ensures Valid() && position == old(position) + n0
      ensures Coordinates(current, currentBufferPosition) == Locate(buffers, old(position) + n0)
    {
      if n0 > 0 {
        AdvanceForward(n0);
      } else if n0 < 0 {
        AdvanceBackward(-n0);
      }
      ValidParts();
    }

    /** `distance_to` is the distance to advance by: it leads to the other iterator. */
    method AdvanceTo(other: BuffersIterator)
      requires Valid() && other.Valid() && buffers == other.buffers
      modifies this
      ensures Valid() && position == old(other.position)
      ensures current == old(other.current) && currentBufferPosition == old(other.currentBufferPosition)
      ensures current < |buffers| ==> Dereference() == old(other.Dereference())
    {
      ValidParts();
      other.ValidParts();
      Advance(DistanceTo(other));
      ValidParts();
    }

    method AdvanceForward(n0: nat)
      requires Valid() && 0 < n0 && position + n0 <= Total(buffers)
      modifies this
      ensures Valid() && position == old(position) + n0
    {
      hide *;
      ValidParts();
      OffsetBounds(buffers, current);
      assert current != |buffers|;
      var n: int := n0;
      while true
        invariant current < |buffers| && 0 <= n && currentBuffer == buffers[current]
        invariant currentBufferPosition <= currentBuffer.size
        invariant position == Offset(buffers, current) + currentBufferPosition
        invariant position + n == old(position) + n0
        decreases |buffers| - current
      {
        OffsetBounds(buffers, current);
        var balance := currentBuffer.size - currentBufferPosition;
        if balance > n {
          position := position + n;
          currentBufferPosition := currentBufferPosition + n;
          Settled();
          return;
        }
        n := n - balance;
        position := position + balance;
        current := current + 1;
        OffsetBounds(buffers, current);
        if current == |buffers| {
          assert n == 0;
          currentBuffer := Buffer(0, 0);
          currentBufferPosition := 0;
          Settled();
          return;
        }
        currentBuffer := buffers[current];
        currentBufferPosition := 0;
      }
    }

    method AdvanceBackward(n0: nat)
      requires Valid() && 0 < n0 <= position
      modifies this
      ensures Valid() && position == old(position) - n0
    {
      hide *;
      ValidParts();
      var n: int := n0;
      while true
        invariant current <= |buffers| && 0 < n <= position
        invariant current < |buffers| ==> currentBuffer == buffers[current] && currentBufferPosition <= currentBuffer.size
        invariant current == |buffers| ==> currentBufferPosition == 0
        invariant position == Offset(buffers, current) + currentBufferPosition
        invariant position - n == old(position) - n0
        decreases current
      {
        if currentBufferPosition >= n {
          position := position - n;
          currentBufferPosition := currentBufferPosition - n;
          Settled();
          return;
        }
        n := n - currentBufferPosition;
        position := position - currentBufferPosition;
        OffsetBounds(buffers, current);
        if current == 0 {
          assert false;
        }
        FindNonEmptyBefore();
      }
    }

    /** The inner search of the backward move: the nearest non-empty buffer before the current one,
        entered at its end.  There is one whenever the current buffer starts behind flat index 0. */
    method FindNonEmptyBefore()
      requires current <= |buffers| && 0 < Offset(buffers, current)
      modifies this`current, this`currentBuffer, this`currentBufferPosition
      ensures current < old(current) && currentBuffer == buffers[current]
      ensures 0 < currentBufferPosition == currentBuffer.size
      ensures Offset(buffers, current) + currentBufferPosition == Offset(buffers, old(current))
    {
      hide *;
      var iter := current;
      OffsetBounds(buffers, iter);
      while iter != 0
        invariant 0 < iter <= current == old(current) <= |buffers|
        invariant Offset(buffers, iter) == Offset(buffers, old(current)) > 0
        decreases iter
      {
        iter := iter - 1;
        OffsetBounds(buffers, iter);
        var buffer := buffers[iter];
        if buffer.size > 0 {
          current := iter;
          currentBuffer := buffer;
          currentBufferPosition := buffer.size;
          return;
        }
      }
      assert false;
    }
  }

  // ---------------------------------------------------------------------------
  // Runs of moves
  // ---------------------------------------------------------------------------

  datatype Move = Inc | Dec | Plus(n: int) | Minus(n: int) {
    function Distance(): int {
      match this
      case Inc => 1
      case Dec => -1
      case Plus(n) => n
      case Minus(n) => -n
    }
  }

  /** The net distance of a run. */
  function Net(moves: seq<Move>): int {
    if moves == [] then 0 else moves[0].Distance() + Net(moves[1..])
  }

  /** Every position passed on the way is in bounds. */
  predicate InBounds(p: int, moves: seq<Move>, total: nat)
    decreases |moves|
  {
    0 <= p <= total && (moves != [] ==> InBounds(p + moves[0].Distance(), moves[1..], total))
  }

  /** Any in-bounds run, from anywhere, lands where one `advance` by its net distance lands: the
      position is the flat index, and chunk and offset are the coordinates of that index. */
  method Run(it: BuffersIterator, moves: seq<Move>)
    requires it.Valid() && InBounds(it.position, moves, Total(it.buffers))
    modifies it
    ensures it.Valid() && it.position == old(it.position) + Net(moves)
    ensures Coordinates(it.current, it.currentBufferPosition) == Locate(it.buffers, old(it.position) + Net(moves))
  {
    ghost var start := it.position;
    var rest := moves;
    while rest != []
      invariant it.Valid() && it.position + Net(rest) == start + Net(moves)
      invariant InBounds(it.position, rest, Total(it.buffers))
      decreases |rest|
    {
      match rest[0] {
        case Inc => it.Increment();
        case Dec => it.Decrement();
        case Plus(n) => it.Advance(n);
        case Minus(n) => it.Advance(-n);
      }
      rest := rest[1..];
    }
    it.ValidParts();
  }
}
