/** `basic_streambuf`: a byte queue in one buffer, with a get area that follows the put area. */
module StreamBuf {
  import opened Bytes
  import opened ByteQueue

  const BUFFER_DELTA: nat := 128

  /** The stream pointers are indices into `buffer`; `eback` is always its start. */
  class StreamBuf {
    const maxSize: nat
    var buffer: array<byte>
    var gptr: nat
    var egptr: nat
    var pptr: nat
    var epptr: nat

    ghost predicate Valid()
      reads this
    {
      && gptr <= egptr <= pptr <= epptr <= maxSize
      && buffer.Length == Max(epptr, 1)
    }

    /** The input sequence: what `data()` exposes. */
    function Contents(): (q: seq<byte>)
      requires Valid()
      reads this, buffer
      ensures |q| == pptr - gptr
    {
      buffer[gptr..pptr]
    }

    /** The output sequence: the put area, as far as it is not committed. */
    function Prepared(): (q: seq<byte>)
      requires Valid()
      reads this, buffer
      ensures |q| == epptr - pptr
    {
      buffer[pptr..epptr]
    }

    function Abstract(): (q: Queue)
      requires Valid()
      reads this, buffer
      ensures |q.contents| + |q.prepared| <= maxSize
    {
      Queue(Contents(), Prepared())
    }

    /** The size of the put area after a successful `prepare(n)`: what there is, if that is enough;
        else what there is once the contents stand in front, or `n` if even that is too little. */
    function Room(n: nat): nat
      requires Valid()
      reads this
    {
      if n <= epptr - pptr then epptr - pptr else Max(n, epptr - Size())
    }

    constructor (maximumSize: nat)
      ensures maxSize == maximumSize && Valid() && fresh(buffer) && Contents() == []
      ensures |Prepared()| == Min(maximumSize, 128)
      ensures forall n :: Room(n) == Max(n, Min(maximumSize, 128))
    {
      var pend := Min(maximumSize, BUFFER_DELTA);
      maxSize := maximumSize;
      buffer := new byte[Max(pend, 1)](_ => 0);
      gptr, egptr, pptr, epptr := 0, 0, 0, pend;
    }

    /** `size()`. */
    function Size(): nat
      requires Valid()
      reads this
    {
      pptr - gptr
    }

    /** `reserve(n)`: it throws, and `ok` is false, exactly when `size() + n > max_size()`.  On
        success the contents are unchanged and there is room for `n` bytes.  On failure the
        pointers are unchanged, but the contents have been moved to the front. */
    method Reserve(n: nat) returns (ok: bool)
      requires Valid()
      modifies this, buffer
      ensures Valid() && (buffer == old(buffer) || fresh(buffer))
      ensures ok <==> old(Size()) + n <= maxSize
      ensures ok ==> Contents() == old(Contents()) && n <= |Prepared()| == old(Room(n))
      ensures n <= |old(Prepared())| ==> Abstract() == old(Abstract())
      ensures !ok ==> buffer == old(buffer) && gptr == old(gptr) && egptr == old(egptr) && pptr == old(pptr) && epptr == old(epptr)
      ensures !ok ==> buffer[..] == old(Contents()) + old(buffer[Size()..])
    {
      var gnext, pnext, pend := gptr, pptr, epptr;
      if n <= pend - pnext {
        return true;
      }
      if gnext > 0 {
        pnext := pnext - gnext;
        MoveToFront(gnext, pnext);
      }
      assert buffer[..pnext] == old(Contents());
      assert buffer[pnext..] == old(buffer[Size()..]);
      ghost var moved := buffer[..];
      if n > pend - pnext {
        if n <= maxSize && pnext <= maxSize - n {
          pend := pnext + n;
          Resize(Max(pend, 1));
          FrontKept(moved, buffer[..], pnext);
        } else {
          assert buffer[..] == buffer[..pnext] + buffer[pnext..];
          return false;
        }
      }
      assert buffer[0..pnext] == moved[..pnext];
      gptr, egptr := 0, pnext;
      pptr, epptr := pnext, pend;
      ok := true;
    }

    /** The `memmove` of the contents. */
    method MoveToFront(from: nat, n: nat)
      requires from + n <= buffer.Length
      modifies buffer
      ensures buffer[..n] == old(buffer[from..from + n]) && buffer[n..] == old(buffer[n..])
    {
      forall i | 0 <= i < n {
        buffer[i] := buffer[from + i];
      }
    }

    /** `vector::resize` to a larger size: a new block with the old bytes and zeros behind them. */
    method Resize(size: nat)
      requires buffer.Length <= size
      modifies this`buffer
      ensures fresh(buffer) && buffer.Length == size && buffer[..old(buffer.Length)] == old(buffer[..])
    {
      var bigger := new byte[size](_ => 0);
      forall i | 0 <= i < buffer.Length {
        bigger[i] := buffer[i];
      }
      buffer := bigger;
    }

    /** `prepare(n)`: throws exactly when `size() + n > max_size()`, else hands out the region of
        `n` bytes at `at`. */
    method Prepare(n: nat) returns (ok: bool, at: nat)
      requires Valid()
      modifies this, buffer
      ensures Valid() && (buffer == old(buffer) || fresh(buffer))
      ensures ok <==> old(Size()) + n <= maxSize
      ensures ok ==> Contents() == old(Contents()) && at == pptr && n <= |Prepared()| == old(Room(n))
    {
      ok := Reserve(n);
      at := pptr;
    }

    /** A caller filling part of the prepared region. */
    method Fill(at: nat, data: seq<byte>)
      requires Valid() && at + |data| <= |Prepared()|
      modifies buffer
      ensures Valid() && Contents() == old(Contents())
      ensures Prepared() == old(Prepared())[..at] + data + old(Prepared())[at + |data|..]
    {
      ghost var before := buffer[..];
      Store(pptr + at, data);
      Filled(before, buffer[..], pptr + at, data, gptr, pptr, epptr);
    }

    method Store(from: nat, data: seq<byte>)
      requires from + |data| <= buffer.Length
      modifies buffer
      ensures buffer[..] == old(buffer[..from]) + data + old(buffer[from + |data|..])
    {
      forall i | 0 <= i < |data| {
        buffer[from + i] := data[i];
      }
    }

    /** `commit(n)`: the front of the put area joins the contents, all of it if `n` is too large. */
    method Commit(n: nat)
      requires Valid()
      modifies this`egptr, this`pptr
      ensures Valid()
      ensures Contents() == old(Contents()) + old(Prepared())[..Min(n, |old(Prepared())|)]
      ensures Prepared() == old(Prepared())[Min(n, |old(Prepared())|)..]
    {
      var m := Min(n, epptr - pptr);
      assert buffer[gptr..pptr + m] == buffer[gptr..pptr] + buffer[pptr..pptr + m];
      pptr := pptr + m;
      egptr := pptr;
    }

    /** `consume(n)`: the first `n` bytes leave, all of them if there are fewer; a get area that
        lags behind the put area is brought up to date first. */
    method Consume(n0: nat)
      requires Valid()
      modifies this`gptr, this`egptr
      ensures Valid() && Contents() == old(Contents())[Min(n0, old(Size()))..]
      ensures Prepared() == old(Prepared())
    {
      var n := n0;
      if egptr < pptr {
        egptr := pptr;
      }
      if gptr + n > pptr {
        n := pptr - gptr;
      }
      gptr := gptr + n;
    }

    /** `underflow`: the front byte, or eof exactly when there is none, however stale `egptr` is. */
    method Underflow() returns (c: Option<byte>)
      requires Valid()
      modifies this`egptr
      ensures Valid() && Abstract() == old(Abstract())
      ensures c == if Contents() == [] then None else Some(Contents()[0])
      ensures Contents() != [] ==> egptr == pptr
    {
      if gptr < pptr {
        egptr := pptr;
        c := Some(buffer[gptr]);
      } else {
        c := None;
      }
    }

    /** Stores a character at `pptr` and bumps it. */
    method PutByte(c: byte)
      requires Valid() && pptr < epptr
      modifies this`pptr, buffer
      ensures Valid() && Contents() == old(Contents()) + [c]
      ensures Prepared() == old(Prepared())[1..]
    {
      ghost var before := Contents();
      buffer[pptr] := c;
      pptr := pptr + 1;
      assert buffer[gptr..pptr] == before + [c];
    }

    /** `overflow(c)`, eof being `None`: a character throws exactly when the queue is full. */
    method Overflow(c: Option<byte>) returns (ok: bool)
      requires Valid()
      modifies this, buffer
      ensures Valid() && (buffer == old(buffer) || fresh(buffer))
      ensures ok <==> c.None? || old(Size()) < maxSize
      ensures ok ==> Contents() == old(Contents()) + if c.Some? then [c.value] else []
      ensures ok && old(Prepared()) != [] ==> Prepared() == old(Prepared())[if c.Some? then 1 else 0..]
    {
      hide Contents, Prepared, Room;
      if c.Some? {
        if pptr == epptr {
          var bufferSize := pptr - gptr;
          if bufferSize < maxSize && maxSize - bufferSize < BUFFER_DELTA {
            ok := Reserve(maxSize - bufferSize);
          } else {
            ok := Reserve(BUFFER_DELTA);
          }
          if !ok {
            return;
          }
        }
        PutByte(c.value);
      }
      ok := true;
    }
  }

  lemma FrontKept(before: seq<byte>, after: seq<byte>, n: nat)
    requires n <= |before| <= |after| && after[..|before|] == before
    ensures after[..n] == before[..n]
  {
    assert after[..n] == after[..|before|][..n];
  }

  /** Bytes written between `pptr` and `epptr`, seen from the two sequences. */
  lemma Filled(before: seq<byte>, after: seq<byte>, from: nat, data: seq<byte>, gptr: nat, pptr: nat, epptr: nat)
    requires gptr <= pptr <= from && from + |data| <= epptr <= |before| == |after|
    requires after == before[..from] + data + before[from + |data|..]
    ensures after[gptr..pptr] == before[gptr..pptr]
    ensures var at, was := from - pptr, before[pptr..epptr];
      after[pptr..epptr] == was[..at] + data + was[at + |data|..]
  {
    var to := from + |data|;
    assert after[..from] == before[..from] && after[from..to] == data && after[to..] == before[to..];
    Sliced(before, after, 0, from, gptr, pptr);
    Sliced(before, after, 0, from, pptr, from);
    Sliced(before, after, to, |before|, to, epptr);
    assert after[pptr..epptr] == after[pptr..from] + after[from..to] + after[to..epptr];
    assert before[pptr..epptr][..from - pptr] == before[pptr..from];
    assert before[pptr..epptr][to - pptr..] == before[to..epptr];
  }

  /** Where two sequences agree, so do their slices. */
  lemma Sliced(a: seq<byte>, b: seq<byte>, lo: nat, hi: nat, from: nat, to: nat)
    requires lo <= from <= to <= hi <= |a| == |b| && a[lo..hi] == b[lo..hi]
    ensures a[from..to] == b[from..to]
  {
    forall k | 0 <= k < to - from
      ensures a[from..to][k] == b[from..to][k]
    {
      assert a[lo..hi][from - lo + k] == b[lo..hi][from - lo + k];
    }
  }
}
