/** Whole runs of the growable buffers: each refines the byte queue, so they agree. */
module BufferRuns {
  import opened Bytes
  import opened ByteQueue
  import Stream = StreamBuf
  import Dynamic = DynamicBuffer

  /** One call on a `basic_streambuf`, or on its prepared bytes. */
  method StreamStep(sb: Stream.StreamBuf, op: Op) returns (ok: bool)
    requires sb.Valid()
    modifies sb, sb.buffer
    ensures sb.Valid() && (sb.buffer == old(sb.buffer) || fresh(sb.buffer))
    ensures ok <==> Enabled(sb.maxSize, old(sb.Abstract()), op)
    ensures ok ==> Step(false, sb.maxSize, old(sb.Abstract()), op, sb.Abstract())
  {
    hide Stream.StreamBuf.Valid, Stream.StreamBuf.Contents, Stream.StreamBuf.Prepared, Stream.StreamBuf.Room;
    ok := true;
    match op {
      case Prepare(n) =>
        var at;
        ok, at := sb.Prepare(n);
      case Fill(at, data) =>
        ok := at + |data| <= |sb.Prepared()|;
        if ok {
          sb.Fill(at, data);
        }
      case Commit(n) => sb.Commit(n);
      case Consume(n) => sb.Consume(n);
      case Put(c) => ok := sb.Overflow(Some(c));
      case Peek => var _ := sb.Underflow();
    }
  }

  /** Every run of a `basic_streambuf`, its calls in any order, refines the queue: each call does
      what the queue does and is refused exactly when the queue refuses it, across all shifts and
      growth. */
  method StreamRun(sb: Stream.StreamBuf, ops: seq<Op>) returns (states: seq<Queue>)
    requires sb.Valid()
    modifies sb, sb.buffer
    ensures sb.Valid() && Behaves(false, sb.maxSize, old(sb.Abstract()), ops, states)
    ensures |states| == |ops| ==> sb.Abstract() == Before(old(sb.Abstract()), states, |ops|)
  {
    hide Enabled, Step, Stream.StreamBuf.Valid, Stream.StreamBuf.Abstract, IsRun;
    states := [];
    RunStarts(false, sb.maxSize, sb.Abstract(), ops);
    while |states| < |ops|
      invariant |states| <= |ops|
      invariant sb.Valid() && (sb.buffer == old(sb.buffer) || fresh(sb.buffer))
      invariant IsRun(false, sb.maxSize, old(sb.Abstract()), ops, states)
      invariant sb.Abstract() == Before(old(sb.Abstract()), states, |states|)
      decreases |ops| - |states|
    {
      var ok := StreamStep(sb, ops[|states|]);
      if !ok {
        return;
      }
      RunGrows(false, sb.maxSize, old(sb.Abstract()), ops, states, sb.Abstract());
      states := states + [sb.Abstract()];
    }
  }

  lemma RunStarts(discards: bool, max: nat, q: Queue, ops: seq<Op>)
    ensures IsRun(discards, max, q, ops, [])
  {
  }

  /** A run is one step longer. */
  lemma RunGrows(discards: bool, max: nat, q: Queue, ops: seq<Op>, states: seq<Queue>, next: Queue)
    requires IsRun(discards, max, q, ops, states) && |states| < |ops|
    requires IsStep(discards, max, Before(q, states, |states|), ops[|states|], next)
    ensures IsRun(discards, max, q, ops, states + [next])
  {
    hide IsStep;
    var longer := states + [next];
    forall i | 0 <= i < |longer|
      ensures IsStep(discards, max, Before(q, longer, i), ops[i], longer[i])
    {
      if i < |states| {
        assert IsStep(discards, max, Before(q, states, i), ops[i], states[i]);
      }
    }
  }

  /** The calls a dynamic buffer has. */
  predicate Dynamically(op: Op) {
    !op.Put? && !op.Peek?
  }

  method DynamicStep(db: Dynamic.DynamicBuffer, op: Op) returns (ok: bool)
    requires db.Valid() && Dynamically(op)
    modifies db
    ensures db.Valid()
    ensures ok <==> Enabled(db.maxSize, old(db.Abstract()), op)
    ensures ok ==> Step(true, db.maxSize, old(db.Abstract()), op, db.Abstract())
  {
    ok := true;
    match op {
      case Prepare(n) => ok := db.Prepare(n);
      case Fill(at, data) =>
        ok := at + |data| <= |db.Prepared()|;
        if ok {
          db.Fill(at, data);
        }
      case Commit(n) => db.Commit(n);
      case Consume(n) => db.Consume(n);
    }
  }

  /** Every run of a dynamic buffer refines the queue, with the uncommitted bytes discarded. */
  method DynamicRun(db: Dynamic.DynamicBuffer, ops: seq<Op>) returns (states: seq<Queue>)
    requires db.Valid() && forall k :: 0 <= k < |ops| ==> Dynamically(ops[k])
    modifies db
    ensures db.Valid() && Behaves(true, db.maxSize, old(db.Abstract()), ops, states)
    ensures |states| == |ops| ==> db.Abstract() == Before(old(db.Abstract()), states, |ops|)
  {
    hide Enabled, Step, Dynamic.DynamicBuffer.Valid, Dynamic.DynamicBuffer.Abstract, IsRun;
    states := [];
    RunStarts(true, db.maxSize, db.Abstract(), ops);
    while |states| < |ops|
      invariant |states| <= |ops|
      invariant db.Valid() && IsRun(true, db.maxSize, old(db.Abstract()), ops, states)
      invariant db.Abstract() == Before(old(db.Abstract()), states, |states|)
      decreases |ops| - |states|
    {
      var ok := DynamicStep(db, ops[|states|]);
      if !ok {
        return;
      }
      RunGrows(true, db.maxSize, old(db.Abstract()), ops, states, db.Abstract());
      states := states + [db.Abstract()];
    }
  }

  lemma {:induction false} DisciplinedDynamically(ops: seq<Op>, room: nat, known: nat)
    requires Disciplined(ops, room, known)
    ensures forall k :: 0 <= k < |ops| ==> Dynamically(ops[k])
    decreases |ops|
  {
    if ops == [] {
    } else {
      DisciplinedDynamically(ops[1..], RoomAfter(ops[0], room), KnownAfter(ops[0], known));
      assert forall k :: 1 <= k < |ops| ==> ops[k] == ops[1..][k - 1];
    }
  }

  /** A `basic_streambuf` and a dynamic buffer with the same contents and maximum, driven by the same
      script in which every `commit` has its own `prepare` and its bytes filled: the same contents
      after every step, and refusal at the same step. */
  method SameRuns(sb: Stream.StreamBuf, db: Dynamic.DynamicBuffer, ops: seq<Op>)
    returns (stream: seq<Queue>, dynamic: seq<Queue>)
    requires sb.Valid() && db.Valid() && sb.maxSize == db.maxSize && sb.Contents() == db.Contents()
    requires Disciplined(ops, 0, 0)
    modifies sb, sb.buffer, db
    ensures sb.Valid() && Behaves(false, sb.maxSize, old(sb.Abstract()), ops, stream)
    ensures db.Valid() && Behaves(true, db.maxSize, old(db.Abstract()), ops, dynamic)
    ensures |stream| == |dynamic|
    ensures forall i :: 0 <= i < |stream| ==> stream[i].contents == dynamic[i].contents
    ensures |stream| == |ops| ==> sb.Contents() == db.Contents()
  {
    hide Behaves;
    DisciplinedDynamically(ops, 0, 0);
    stream := StreamRun(sb, ops);
    dynamic := DynamicRun(db, ops);
    RunsAgree(sb.maxSize, old(sb.Abstract()), old(db.Abstract()), ops, stream, dynamic, 0, 0);
  }

  /** Why a `commit` needs its own `prepare`: a second one takes what is left of the put area of a
      `basic_streambuf`, and nothing from a dynamic buffer.  From any equal contents, the two agree
      after `prepare(x)`, filling in `data`, and two commits, if and only if the second commit is
      of no bytes or `data` fills the put area completely. */
  method SecondCommit(sb: Stream.StreamBuf, db: Dynamic.DynamicBuffer, x: nat, data: seq<byte>, m: nat)
    requires sb.Valid() && db.Valid() && sb.maxSize == db.maxSize && sb.Contents() == db.Contents()
    requires |data| <= x && sb.Size() + x <= sb.maxSize
    modifies sb, sb.buffer, db
    ensures sb.Valid() && db.Valid() && old(sb.Room(x)) >= |data|
    ensures db.Contents() == old(db.Contents()) + data
    ensures db.Contents() <= sb.Contents()
    ensures |sb.Contents()| == |db.Contents()| + Min(m, old(sb.Room(x)) - |data|)
    ensures sb.Contents() == db.Contents() <==> m == 0 || |data| == old(sb.Room(x))
  {
    hide Stream.StreamBuf.Valid, Stream.StreamBuf.Contents, Stream.StreamBuf.Prepared, Stream.StreamBuf.Room;
    hide Dynamic.DynamicBuffer.Valid, Dynamic.DynamicBuffer.Contents, Dynamic.DynamicBuffer.Prepared;
    StreamCommitTwice(sb, x, data, m);
    DynamicCommitTwice(db, x, data, m);
  }

  method StreamCommitTwice(sb: Stream.StreamBuf, x: nat, data: seq<byte>, m: nat)
    requires sb.Valid() && |data| <= x && sb.Size() + x <= sb.maxSize
    modifies sb, sb.buffer
    ensures sb.Valid() && old(sb.Room(x)) >= |data|
    ensures old(sb.Contents()) + data <= sb.Contents()
    ensures |sb.Contents()| == |old(sb.Contents())| + |data| + Min(m, old(sb.Room(x)) - |data|)
  {
    hide Stream.StreamBuf.Valid, Stream.StreamBuf.Contents, Stream.StreamBuf.Prepared, Stream.StreamBuf.Room;
    var ok, _ := sb.Prepare(x);
    sb.Fill(0, data);
    sb.Commit(|data|);
    assert sb.Contents() == old(sb.Contents()) + data;
    sb.Commit(m);
  }

  method DynamicCommitTwice(db: Dynamic.DynamicBuffer, x: nat, data: seq<byte>, m: nat)
    requires db.Valid() && |data| <= x && |db.Contents()| + x <= db.maxSize
    modifies db
    ensures db.Valid() && db.Contents() == old(db.Contents()) + data
  {
    hide Dynamic.DynamicBuffer.Prepared;
    var ok := db.Prepare(x);
    db.Fill(0, data);
    db.Commit(|data|);
    assert db.Contents() == old(db.Contents()) + data;
    db.Commit(m);
  }

  /** On fresh buffers the put area has the larger of `x` and the initial 128 bytes. */
  method FreshSecondCommit(max: nat, x: nat, data: seq<byte>, m: nat)
    returns (sb: Stream.StreamBuf, db: Dynamic.DynamicBuffer)
    requires |data| <= x <= max
    ensures sb.Valid() && db.Valid() && sb.maxSize == db.maxSize == max
    ensures db.Contents() == data
    ensures sb.Contents() == db.Contents() <==> m == 0 || |data| == Max(x, Min(max, 128))
  {
    sb := new Stream.StreamBuf(max);
    db := new Dynamic.DynamicBuffer([], max);
    SecondCommit(sb, db, x, data, m);
  }
}
