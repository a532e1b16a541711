/** The put side of `basic_socket_streambuf`: an output buffer flushed by a non-blocking `send` in
    a loop, or no buffer at all.  The clock, the socket and `poll` are an oracle: a finite script
    of what each round of the loop meets. */
module SocketStreambuf {
  import opened Bytes

  const BUFFER_SIZE: nat := 512

  /** One round of the flush loop: the expiry time has passed; `send` took some bytes (at least
      one, at most what it was given); it would have blocked, and `poll_write` then reported the
      socket ready or not; or it failed. */
  datatype Event = Expired | Sent(bytes: nat) | Blocked(ready: bool) | Failed

  /** What `send` reports for a request of `size` bytes. */
  function Taken(bytes: nat, size: nat): (n: nat)
    requires 0 < size
    ensures 0 < n <= size
  {
    if bytes == 0 then 1 else Min(bytes, size)
  }

  /** How many of `size` bytes a flush gets through before it ends, and what the network does
      after that; a flush ends when everything is sent or a round fails. */
  function Rounds(net: seq<Event>, size: nat): (r: (nat, seq<Event>))
    ensures r.0 <= size
    decreases |net|
  {
    if size == 0 then (0, net)
    else if net == [] then (0, [])
    else
      match net[0]
      case Expired => (0, net[1..])
      case Failed => (0, net[1..])
      case Blocked(ready) => if ready then Rounds(net[1..], size) else (0, net[1..])
      case Sent(bytes) =>
        var k := Taken(bytes, size);
        var rest := Rounds(net[1..], size - k);
        (k + rest.0, rest.1)
  }

  lemma NoRounds(net: seq<Event>)
    ensures Rounds(net, 0) == (0, net)
  {
  }

  /** A round after which a flush goes on. */
  predicate Proceeds(event: Event) {
    event.Sent? || event == Blocked(true)
  }

  /** How many bytes the network would take in one flush: what all rounds up to the first that does
      not proceed can send. */
  function Reach(net: seq<Event>): nat {
    if net == [] || !Proceeds(net[0]) then 0
    else (if net[0].Sent? then Max(1, net[0].bytes) else 0) + Reach(net[1..])
  }

  /** A flush gets through as many bytes as the network would take, so it succeeds if and only if
      that is at least what it has to send. */
  lemma {:induction false} ReachIs(net: seq<Event>, size: nat)
    ensures Rounds(net, size).0 == Min(size, Reach(net))
    decreases |net|
  {
    if size == 0 || net == [] || !Proceeds(net[0]) {
    } else if net[0].Sent? {
      ReachIs(net[1..], size - Taken(net[0].bytes, size));
    } else {
      ReachIs(net[1..], size);
    }
  }

  /** A flush of `size` bytes uses the first `u` rounds: as few as will do, and none behind one
      that does not proceed. */
  predicate Ends(net: seq<Event>, size: nat, u: nat) {
    && u <= |net|
    && (forall k :: 0 <= k < u ==> Reach(net[..k]) < size)
    && (forall k :: 0 <= k < u - 1 ==> Proceeds(net[k]))
    && (size <= Reach(net[..u]) || u == |net| || (u > 0 && !Proceeds(net[u - 1])))
  }

  /** The rest of the script after a flush. */
  lemma {:induction false} RoundsEnd(net: seq<Event>, size: nat) returns (u: nat)
    ensures Ends(net, size, u) && Rounds(net, size).1 == net[u..]
    decreases |net|
  {
    if size == 0 || net == [] {
      u := 0;
    } else if !Proceeds(net[0]) {
      u := 1;
    } else {
      var first := if net[0].Sent? then Max(1, net[0].bytes) else 0;
      var left := if net[0].Sent? then size - Taken(net[0].bytes, size) else size;
      var v := RoundsEnd(net[1..], left);
      u := v + 1;
      forall k | 1 <= k <= |net|
        ensures Reach(net[..k]) == first + Reach(net[1..][..k - 1])
      {
        assert net[..k][1..] == net[1..][..k - 1];
      }
      forall k | 0 <= k < u
        ensures Reach(net[..k]) < size
      {
        if k > 0 {
          assert Reach(net[1..][..k - 1]) < left;
        }
      }
      assert forall k :: 0 < k < u - 1 ==> net[k] == net[1..][k - 1];
    }
  }

  /** Nothing gets through before a flush meets its first round that is not just a wait: it is none
      in which `send` takes bytes. */
  predicate NothingSent(net: seq<Event>) {
    net == [] || if net[0] == Blocked(true) then NothingSent(net[1..]) else !net[0].Sent?
  }

  lemma {:induction false} NothingSentIff(net: seq<Event>, size: nat)
    ensures Rounds(net, size).0 == 0 <==> size == 0 || NothingSent(net)
    decreases |net|
  {
    if size == 0 || net == [] || net[0] != Blocked(true) {
    } else {
      NothingSentIff(net[1..], size);
    }
  }

  class SocketStreambuf {
    var putBuffer: array<byte>
    var pbase: nat
    var pptr: nat
    var epptr: nat
    /** What the network will do, and the bytes it has been given. */
    var net: seq<Event>
    var sent: seq<byte>

    ghost predicate Valid()
      reads this
    {
      && pbase == 0 && pptr <= epptr == putBuffer.Length
      && (putBuffer.Length == 0 || putBuffer.Length == BUFFER_SIZE)
    }

    /** The bytes written but not yet sent. */
    ghost function Pending(): (p: seq<byte>)
      requires Valid()
      reads this, putBuffer
      ensures |p| == pptr
    {
      putBuffer[pbase..pptr]
    }

    ghost function Outline(): Shape
      requires Valid()
      reads this
    {
      Shape(Buffered(), pptr, net)
    }

    predicate Buffered()
      reads this
    {
      putBuffer.Length > 0
    }

    /** The number of bytes `overflow(c)` flushes. */
    function FlushSize(c: Option<byte>): nat
      requires Valid()
      reads this
    {
      if Buffered() then pptr - pbase else if c.Some? then 1 else 0
    }

    /** `init_buffers` of a new stream buffer. */
    constructor (net: seq<Event>)
      ensures Valid() && Buffered() && Pending() == [] && sent == [] && putBuffer.Length == 512
      ensures this.net == net && fresh(putBuffer)
    {
      putBuffer := new byte[BUFFER_SIZE](_ => 0);
      pbase, pptr, epptr := 0, 0, BUFFER_SIZE;
      this.net, sent := net, [];
    }

    /** The flush loop: on success exactly the output has been sent, in order; on failure a proper
        prefix of it. */
    method Flush(output: seq<byte>) returns (ok: bool, n: nat)
      modifies this`net, this`sent
      ensures n <= |output| && sent == old(sent) + output[..n]
      ensures n == Min(|output|, Reach(old(net))) && (ok <==> |output| <= Reach(old(net)))
      ensures Rounds(old(net), |output|) == (n, net)
    {
      ReachIs(net, |output|);
      n := 0;
      assert sent + output[..n] == sent;
      while n < |output|
        invariant n <= |output| && sent == old(sent) + output[..n]
        invariant Rounds(old(net), |output|) == (n + Rounds(net, |output| - n).0, Rounds(net, |output| - n).1)
        decreases |net|
      {
        if net == [] {
          return false, n;
        }
        var event := net[0];
        net := net[1..];
        match event {
          case Expired => return false, n;
          case Sent(bytes) =>
            var k := Taken(bytes, |output| - n);
            assert output[..n + k] == output[..n] + output[n..n + k];
            sent := sent + output[n..n + k];
            n := n + k;
          case Blocked(ready) =>
            if !ready {
              return false, n;
            }
          case Failed => return false, n;
        }
      }
      ok := true;
    }

    /** `overflow(c)`, eof being `None`.  On success, sent and pending bytes together have grown by
        exactly the character.  On failure nothing pending is dropped, and the first `repeated`
        pending bytes have been sent all the same: bytes are conserved if and only if the flush
        failed before anything was sent. */
    method Overflow(c: Option<byte>) returns (ok: bool, repeated: nat)
      requires Valid()
      modifies this, putBuffer
      ensures Valid() && putBuffer == old(putBuffer)
      ensures ok ==> repeated == 0
      ensures ok ==> sent + Pending() == old(sent + Pending()) + if c.Some? then [c.value] else []
      ensures ok ==> Pending() == if c.Some? && Buffered() then [c.value] else []
      ensures !ok ==> Pending() == old(Pending()) && repeated <= |Pending()|
      ensures !ok ==> sent == old(sent) + Pending()[..repeated]
      ensures var r := Rounds(old(net), old(FlushSize(c)));
        net == r.1 && (ok <==> old(FlushSize(c)) <= Reach(old(net))) && (!ok ==> repeated == Reach(old(net)))
      ensures !ok ==>
        (sent + Pending() == old(sent + Pending()) <==> NothingSent(old(net)))
    {
      hide Rounds, Reach, NothingSent;
      NothingSentIff(net, FlushSize(c));
      ReachIs(net, FlushSize(c));
      NoRounds(net);
      var output: seq<byte>;
      if putBuffer.Length == 0 {
        if c.None? {
          return true, 0;
        }
        output := [c.value];
      } else {
        output := putBuffer[pbase..pptr];
      }
      var n;
      ok, n := Flush(output);
      if !ok {
        if n > 0 {
          assert |sent + Pending()| > |old(sent + Pending())|;
        }
        return false, n;
      }
      assert output[..n] == output;
      if putBuffer.Length > 0 {
        pbase, pptr, epptr := 0, 0, putBuffer.Length;
        if c.None? {
          return true, 0;
        }
        putBuffer[pptr] := c.value;
        pptr := pptr + 1;
        assert Pending() == [c.value];
      }
      repeated := 0;
    }

    /** `sputc`, inherited from `std::streambuf`: into the put area if there is room. */
    method Sputc(c: byte) returns (ok: bool, repeated: nat)
      requires Valid()
      modifies this, putBuffer
      ensures Valid() && putBuffer == old(putBuffer)
      ensures ok ==> repeated == 0 && sent + Pending() == old(sent + Pending()) + [c]
      ensures ok ==> Pending() == if !Buffered() then [] else if old(pptr < epptr) then old(Pending()) + [c] else [c]
      ensures !ok ==> Pending() == old(Pending()) && repeated <= |Pending()|
      ensures !ok ==> sent == old(sent) + Pending()[..repeated]
      ensures var size := if old(pptr < epptr) then 0 else old(FlushSize(Some(c)));
        var r := Rounds(old(net), size);
        net == r.1 && (ok <==> size <= Reach(old(net))) && (!ok ==> repeated == Reach(old(net)))
      ensures !ok ==>
        (sent + Pending() == old(sent + Pending()) <==> NothingSent(old(net)))
    {
      if pptr < epptr {
        ghost var pending := Pending();
        putBuffer[pptr] := c;
        pptr := pptr + 1;
        assert Pending() == pending + [c];
        ok, repeated := true, 0;
      } else {
        ok, repeated := Overflow(Some(c));
      }
    }

    method Sync() returns (ok: bool, repeated: nat)
      requires Valid()
      modifies this, putBuffer
      ensures Valid() && putBuffer == old(putBuffer)
      ensures ok ==> repeated == 0 && Pending() == [] && sent == old(sent + Pending())
      ensures !ok ==> Pending() == old(Pending()) && repeated <= |Pending()|
      ensures !ok ==> sent == old(sent) + Pending()[..repeated]
      ensures var r := Rounds(old(net), old(FlushSize(None)));
        net == r.1 && (ok <==> old(FlushSize(None)) <= Reach(old(net))) && (!ok ==> repeated == Reach(old(net)))
      ensures !ok ==>
        (sent + Pending() == old(sent + Pending()) <==> NothingSent(old(net)))
    {
      ok, repeated := Overflow(None);
      assert sent + [] == sent;
    }

    /** `setbuf(s, n)`: only `setbuf(0, 0)` with nothing pending is honoured; it makes the stream
        unbuffered. */
    method SetBuf(isNull: bool, n: int) returns (accepted: bool)
      requires Valid()
      modifies this, putBuffer
      ensures Valid() && (putBuffer == old(putBuffer) || fresh(putBuffer))
      ensures accepted <==> old(Pending()) == [] && isNull && n == 0
      ensures accepted ==> !Buffered()
      ensures !accepted ==> putBuffer == old(putBuffer)
      ensures sent == old(sent) && net == old(net) && Pending() == old(Pending())
    {
      if pptr == pbase && isNull && n == 0 {
        putBuffer := new byte[0];
        pbase, pptr, epptr := 0, 0, 0;
        var _, _ := Sync();
        return true;
      }
      accepted := false;
    }
  }

  // ---------------------------------------------------------------------------
  // Runs
  // ---------------------------------------------------------------------------

  datatype Call = Write(c: byte) | Sync | SetBuf(isNull: bool, n: int)

  /** The bytes written by a list of calls. */
  function Written(calls: seq<Call>): seq<byte> {
    if calls == [] then []
    else
      var last := calls[|calls| - 1];
      Written(calls[..|calls| - 1]) + if last.Write? then [last.c] else []
  }

  /** What decides which calls fail: whether there is a buffer, how many bytes are pending in it,
      and what the network will do. */
  datatype Shape = Shape(buffered: bool, pending: nat, net: seq<Event>) {
    /** The number of bytes a call has to flush. */
    function Flushes(call: Call): nat {
      match call
      case Write(_) => if !buffered then 1 else if pending < BUFFER_SIZE then 0 else pending
      case Sync => pending
      case SetBuf(_, _) => 0
    }

    /** The number of these bytes that get through. */
    function Through(call: Call): nat {
      Min(Flushes(call), Reach(net))
    }

    /** The network does not take what the call has to flush. */
    predicate Fails(call: Call) {
      Reach(net) < Flushes(call)
    }

    /** The shape after a call that does not fail. */
    function After(call: Call): Shape {
      var rest := Rounds(net, Flushes(call)).1;
      match call
      case Write(_) =>
        Shape(buffered, if !buffered then 0 else if pending < BUFFER_SIZE then pending + 1 else 1, rest)
      case Sync => Shape(buffered, 0, rest)
      case SetBuf(isNull, n) => Shape(buffered && !(pending == 0 && isNull && n == 0), pending, rest)
    }
  }

  /** The shape before call number `n`, the calls before it having succeeded. */
  function ShapeBefore(s: Shape, calls: seq<Call>, n: nat): Shape
    requires n <= |calls|
  {
    if n == 0 then s else ShapeBefore(s, calls, n - 1).After(calls[n - 1])
  }

  /** Call number `n` is the first to fail, or there is none and `n` is the number of calls. */
  predicate FirstFailure(s: Shape, calls: seq<Call>, n: nat) {
    && n <= |calls|
    && (forall i :: 0 <= i < n ==> !ShapeBefore(s, calls, i).Fails(calls[i]))
    && (n < |calls| ==> ShapeBefore(s, calls, n).Fails(calls[n]))
  }

  /** There is one such number, so the network script determines how far a run gets. */
  lemma FirstFailureUnique(s: Shape, calls: seq<Call>, m: nat, n: nat)
    requires FirstFailure(s, calls, m) && FirstFailure(s, calls, n)
    ensures m == n
  {
  }

  /** One call. */
  method MakeCall(sb: SocketStreambuf, call: Call) returns (ok: bool, repeated: nat)
    requires sb.Valid()
    modifies sb, sb.putBuffer
    ensures sb.Valid() && (sb.putBuffer == old(sb.putBuffer) || fresh(sb.putBuffer))
    ensures ok <==> !old(sb.Outline()).Fails(call)
    ensures ok ==> sb.Outline() == old(sb.Outline()).After(call) && repeated == 0
    ensures ok ==> sb.sent + sb.Pending() == old(sb.sent + sb.Pending()) + if call.Write? then [call.c] else []
    ensures !ok ==> repeated == old(sb.Outline()).Through(call)
    ensures !ok ==> repeated <= |sb.Pending()| && sb.Pending() == old(sb.Pending())
    ensures !ok ==> sb.sent == old(sb.sent) + sb.Pending()[..repeated]
    ensures !ok ==> (sb.sent + sb.Pending() == old(sb.sent + sb.Pending()) <==> NothingSent(old(sb.net)))
  {
    ok, repeated := true, 0;
    match call {
      case Write(c) => ok, repeated := sb.Sputc(c);
      case Sync => ok, repeated := sb.Sync();
      case SetBuf(isNull, n) => var _ := sb.SetBuf(isNull, n);
    }
  }

  /** A run up to its first failed call, which the network script determines: `done` calls have
      succeeded.  What was sent before that call, followed by what is pending, is exactly what was
      written, whatever the sizes of the partial sends and the number of blocked rounds.  The failed
      flush has sent the first `repeated` pending bytes in addition, as many as the script lets
      through, so bytes are conserved after it
      if and only if the script lets nothing through before it fails. */
  method Run(sb: SocketStreambuf, calls: seq<Call>) returns (done: nat, repeated: nat)
    requires sb.Valid()
    modifies sb, sb.putBuffer
    ensures sb.Valid() && FirstFailure(old(sb.Outline()), calls, done)
    ensures done == |calls| ==>
      && sb.Outline() == ShapeBefore(old(sb.Outline()), calls, done)
      && sb.sent + sb.Pending() == old(sb.sent + sb.Pending()) + Written(calls)
    ensures done < |calls| ==> repeated == ShapeBefore(old(sb.Outline()), calls, done).Through(calls[done])
    ensures done < |calls| ==>
      && repeated <= |sb.sent| && repeated <= |sb.Pending()|
      && sb.sent[..|sb.sent| - repeated] + sb.Pending() == old(sb.sent + sb.Pending()) + Written(calls[..done])
      && sb.sent[|sb.sent| - repeated..] == sb.Pending()[..repeated]
    ensures done < |calls| ==>
      (sb.sent + sb.Pending() == old(sb.sent + sb.Pending()) + Written(calls[..done])
       <==> NothingSent(ShapeBefore(old(sb.Outline()), calls, done).net))
  {
    hide Shape.Fails, Shape.Through, Shape.After, NothingSent, SocketStreambuf.Valid, Written;
    done, repeated := 0, 0;
    NothingWritten(calls);
    while done < |calls|
      invariant sb.Valid() && (sb.putBuffer == old(sb.putBuffer) || fresh(sb.putBuffer))
      invariant done <= |calls| && sb.Outline() == ShapeBefore(old(sb.Outline()), calls, done)
      invariant forall i :: 0 <= i < done ==> !ShapeBefore(old(sb.Outline()), calls, i).Fails(calls[i])
      invariant sb.sent + sb.Pending() == old(sb.sent + sb.Pending()) + Written(calls[..done])
    {
      var ok;
      ghost var before := sb.sent;
      WrittenNext(calls, done);
      ok, repeated := MakeCall(sb, calls[done]);
      if !ok {
        Repeated(before, sb.Pending()[..repeated], sb.sent);
        return;
      }
      done := done + 1;
    }
    assert calls[..done] == calls;
  }

  lemma NothingWritten(calls: seq<Call>)
    ensures Written(calls[..0]) == []
  {
  }

  lemma WrittenNext(calls: seq<Call>, n: nat)
    requires n < |calls|
    ensures Written(calls[..n + 1]) == Written(calls[..n]) + if calls[n].Write? then [calls[n].c] else []
  {
    assert calls[..n + 1][..n] == calls[..n];
  }

  lemma Repeated(before: seq<byte>, more: seq<byte>, sent: seq<byte>)
    requires sent == before + more
    ensures sent[..|sent| - |more|] == before && sent[|sent| - |more|..] == more
  {
  }

  /** A failed flush and its retry: if the second attempt succeeds, what the first one sent is sent
      twice, and each byte exactly once if and only if the first attempt sent nothing. */
  method Retry(sb: SocketStreambuf) returns (first: bool, second: bool, repeated: nat)
    requires sb.Valid()
    modifies sb, sb.putBuffer
    ensures sb.Valid()
    ensures first <==> |old(sb.Pending())| <= Reach(old(sb.net))
    ensures !first ==> repeated == Reach(old(sb.net))
    ensures !first ==>
      (second <==> |old(sb.Pending())| <= Reach(Rounds(old(sb.net), |old(sb.Pending())|).1))
    ensures !first && second ==>
      sb.sent == old(sb.sent) + old(sb.Pending())[..repeated] + old(sb.Pending()) && sb.Pending() == []
    ensures !first && second ==>
      (sb.sent == old(sb.sent) + old(sb.Pending()) <==> NothingSent(old(sb.net)))
  {
    hide Rounds, NothingSent, Reach;
    ReachIs(sb.net, |sb.Pending()|);
    NothingSentIff(sb.net, |sb.Pending()|);
    first, repeated := sb.Sync();
    second := first;
    if !first {
      ghost var pending := sb.Pending();
      var again;
      second, again := sb.Sync();
      if second && repeated > 0 {
        assert |sb.sent| == |old(sb.sent)| + repeated + |pending|;
      } else if second {
        assert pending[..0] == [] && old(sb.sent) + [] == old(sb.sent);
      }
    }
  }

  /** A script on which a retried flush sends the first of two pending bytes twice. */
  lemma RetryRepeats(script: seq<Event>)
    requires script == [Sent(1), Failed, Sent(2)]
    ensures Rounds(script, 2) == (1, [Sent(2)]) && Rounds([Sent(2)], 2) == (2, [])
    ensures !NothingSent(script)
  {
    var rest, last := script[1..], [Sent(2)];
    assert rest == [Failed, Sent(2)] && rest[1..] == last && last[1..] == [];
    assert Rounds(last[1..], 0) == (0, []);
    assert Rounds(rest, 1) == (0, [Sent(2)]);
    assert Rounds(script, 2) == (1, [Sent(2)]);
  }
}
