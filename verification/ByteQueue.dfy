/** The abstract meaning of asio's growable buffers: a bounded FIFO queue of bytes, with the bytes
    that are prepared for it but not yet part of it. */
module ByteQueue {
  import opened Bytes

  datatype Queue = Queue(contents: seq<byte>, prepared: seq<byte>)

  /** The calls on a buffer.  `Fill` is its caller, writing into the prepared bytes; `Put` is a
      character that overflows into the queue; `Peek` reads the front without removing it. */
  datatype Op =
    | Prepare(n: nat) | Fill(at: nat, data: seq<byte>) | Commit(n: nat) | Consume(n: nat) | Put(c: byte) | Peek

  /** Whether a step is possible on a queue bounded by `max`: a `prepare` or a character that does
      not fit is refused, and a caller must not write outside the prepared bytes. */
  predicate Enabled(max: nat, q: Queue, op: Op) {
    match op
    case Prepare(n) => |q.contents| + n <= max
    case Fill(at, data) => at + |data| <= |q.prepared|
    case Put(_) => |q.contents| < max
    case _ => true
  }

  /** What a step may do.  New prepared bytes are arbitrary.  A `commit` takes the front of the
      prepared bytes; the others are discarded or still prepared, which is where the
      implementations differ. */
  ghost predicate Step(discards: bool, max: nat, q: Queue, op: Op, next: Queue)
    requires Enabled(max, q, op)
  {
    match op
    case Prepare(n) =>
      && next.contents == q.contents && |next.contents| + |next.prepared| <= max
      && n <= |next.prepared| && (discards ==> n == |next.prepared|)
    case Fill(at, data) => next == q.(prepared := q.prepared[..at] + data + q.prepared[at + |data|..])
    case Commit(n) =>
      var m := Min(n, |q.prepared|);
      next == Queue(q.contents + q.prepared[..m], if discards then [] else q.prepared[m..])
    case Consume(n) => next == q.(contents := q.contents[Min(n, |q.contents|)..])
    case Put(c) =>
      && next.contents == q.contents + [c]
      && if q.prepared != [] then next.prepared == q.prepared[1..] else |next.contents| + |next.prepared| <= max
    case Peek => next == q
  }

  // ---------------------------------------------------------------------------
  // Runs
  // ---------------------------------------------------------------------------

  /** The queue before step `i` of a run that passes through `states`. */
  function Before(q: Queue, states: seq<Queue>, i: nat): Queue
    requires i <= |states|
  {
    if i == 0 then q else states[i - 1]
  }

  ghost predicate IsStep(discards: bool, max: nat, q: Queue, op: Op, next: Queue) {
    Enabled(max, q, op) && Step(discards, max, q, op, next)
  }

  /** The queues after each step of a script, as far as the run has come. */
  ghost predicate IsRun(discards: bool, max: nat, q: Queue, ops: seq<Op>, states: seq<Queue>) {
    && |states| <= |ops|
    && forall i :: 0 <= i < |states| ==> IsStep(discards, max, Before(q, states, i), ops[i], states[i])
  }

  /** A run that goes on to the end of the script or to the first step that is not possible. */
  ghost predicate Behaves(discards: bool, max: nat, q: Queue, ops: seq<Op>, states: seq<Queue>) {
    && IsRun(discards, max, q, ops, states)
    && (|states| < |ops| ==> !Enabled(max, Before(q, states, |states|), ops[|states|]))
  }

  // ---------------------------------------------------------------------------
  // Conservation
  // ---------------------------------------------------------------------------

  /** The bytes a step puts in, and the bytes it takes out. */
  function In(q: Queue, op: Op): seq<byte> {
    match op
    case Commit(n) => q.prepared[..Min(n, |q.prepared|)]
    case Put(c) => [c]
    case _ => []
  }

  function Out(q: Queue, op: Op): seq<byte> {
    if op.Consume? then q.contents[..Min(op.n, |q.contents|)] else []
  }

  /** The bytes the first `n` steps of a run put in. */
  function Entered(q: Queue, ops: seq<Op>, states: seq<Queue>, n: nat): seq<byte>
    requires n <= |states| <= |ops|
  {
    if n == 0 then [] else Entered(q, ops, states, n - 1) + In(Before(q, states, n - 1), ops[n - 1])
  }

  /** The bytes the first `n` steps of a run take out. */
  function Left(q: Queue, ops: seq<Op>, states: seq<Queue>, n: nat): seq<byte>
    requires n <= |states| <= |ops|
  {
    if n == 0 then [] else Left(q, ops, states, n - 1) + Out(Before(q, states, n - 1), ops[n - 1])
  }

  /** First in, first out, nothing lost and nothing repeated: at any time, what has left followed
      by what is there is what was there followed by what has entered. */
  lemma {:induction false} Conservation(discards: bool, max: nat, q: Queue, ops: seq<Op>, states: seq<Queue>, n: nat)
    requires IsRun(discards, max, q, ops, states) && n <= |states|
    ensures Left(q, ops, states, n) + Before(q, states, n).contents == q.contents + Entered(q, ops, states, n)
  {
    hide IsStep, In, Out;
    if n == 0 {
    } else {
      var last, op, next := Before(q, states, n - 1), ops[n - 1], states[n - 1];
      Conservation(discards, max, q, ops, states, n - 1);
      StepConserves(discards, max, last, op, next);
      Chain(q.contents, last.contents, next.contents, Left(q, ops, states, n - 1), Entered(q, ops, states, n - 1),
            In(last, op), Out(last, op));
    }
  }

  lemma StepConserves(discards: bool, max: nat, q: Queue, op: Op, next: Queue)
    requires IsStep(discards, max, q, op, next)
    ensures q.contents + In(q, op) == Out(q, op) + next.contents
  {
  }

  lemma Chain(first: seq<byte>, now: seq<byte>, next: seq<byte>, left: seq<byte>, entered: seq<byte>,
              more: seq<byte>, out: seq<byte>)
    requires left + now == first + entered && now + more == out + next
    ensures (left + out) + next == first + (entered + more)
  {
    assert (left + out) + next == left + (out + next) == left + (now + more) == (left + now) + more;
    assert (first + entered) + more == first + (entered + more);
  }

  /** The bound holds throughout, for what is prepared too. */
  lemma {:induction false} WithinMax(discards: bool, max: nat, q: Queue, ops: seq<Op>, states: seq<Queue>, n: nat)
    requires IsRun(discards, max, q, ops, states) && n <= |states|
    requires |q.contents| + |q.prepared| <= max
    ensures var now := Before(q, states, n); |now.contents| + |now.prepared| <= max
  {
    hide IsStep;
    if n == 0 {
    } else {
      WithinMax(discards, max, q, ops, states, n - 1);
      StepWithinMax(discards, max, Before(q, states, n - 1), ops[n - 1], states[n - 1]);
    }
  }

  lemma StepWithinMax(discards: bool, max: nat, q: Queue, op: Op, next: Queue)
    requires IsStep(discards, max, q, op, next) && |q.contents| + |q.prepared| <= max
    ensures |next.contents| + |next.prepared| <= max
  {
  }

  // ---------------------------------------------------------------------------
  // Committing in instalments
  // ---------------------------------------------------------------------------

  /** Steps that leave the prepared bytes to be committed. */
  predicate Committing(op: Op) {
    op.Commit? || op.Consume? || op.Peek?
  }

  /** The number of bytes a script asks to commit. */
  function Committed(ops: seq<Op>, n: nat): nat
    requires n <= |ops|
  {
    if n == 0 then 0 else Committed(ops, n - 1) + if ops[n - 1].Commit? then ops[n - 1].n else 0
  }

  /** An implementation that keeps uncommitted bytes takes them in, in any number of instalments
      with any bytes consumed in between, exactly once and in order. */
  lemma {:induction false} Instalments(max: nat, q: Queue, ops: seq<Op>, states: seq<Queue>, n: nat)
    requires IsRun(false, max, q, ops, states) && n <= |states|
    requires forall i :: 0 <= i < n ==> Committing(ops[i])
    ensures var m := Min(Committed(ops, n), |q.prepared|);
      && Entered(q, ops, states, n) == q.prepared[..m]
      && Before(q, states, n).prepared == q.prepared[m..]
  {
    hide IsStep, In, Committing;
    if n == 0 {
    } else {
      var last, op, asked := Before(q, states, n - 1), ops[n - 1], Committed(ops, n - 1);
      Instalments(max, q, ops, states, n - 1);
      NextInstalment(max, q.prepared, Min(asked, |q.prepared|), last, op, states[n - 1]);
    }
  }

  lemma NextInstalment(max: nat, prepared: seq<byte>, done: nat, q: Queue, op: Op, next: Queue)
    requires IsStep(false, max, q, op, next) && Committing(op)
    requires done <= |prepared| && q.prepared == prepared[done..]
    ensures var m := Min(done + if op.Commit? then op.n else 0, |prepared|);
      && prepared[..done] + In(q, op) == prepared[..m]
      && next.prepared == prepared[m..]
  {
  }

  // ---------------------------------------------------------------------------
  // Scripts on which the implementations agree
  // ---------------------------------------------------------------------------

  /** A script that commits at most once after each `prepare`, and only bytes it has filled: `room`
      bytes are prepared, and the first `known` of them filled.  In between it may fill in any
      order and in several pieces, and consume. */
  predicate Disciplined(ops: seq<Op>, room: nat, known: nat)
    decreases |ops|
  {
    ops == [] ||
    match ops[0]
    case Prepare(n) => Disciplined(ops[1..], n, 0)
    case Fill(at, data) =>
      at <= known && at + |data| <= room && Disciplined(ops[1..], room, Max(known, at + |data|))
    case Commit(n) => n <= known && Disciplined(ops[1..], 0, 0)
    case Consume(_) => Disciplined(ops[1..], room, known)
    case _ => false
  }

  /** Two queues that such a script cannot tell apart. */
  predicate Alike(a: Queue, b: Queue, room: nat, known: nat) {
    && a.contents == b.contents
    && known <= room <= |a.prepared| && room <= |b.prepared|
    && a.prepared[..known] == b.prepared[..known]
  }

  /** What is left of `room` and `known` after a step. */
  function RoomAfter(op: Op, room: nat): nat {
    match op
    case Prepare(n) => n
    case Commit(_) => 0
    case _ => room
  }

  function KnownAfter(op: Op, known: nat): nat {
    match op
    case Prepare(_) => 0
    case Fill(at, data) => Max(known, at + |data|)
    case Commit(_) => 0
    case _ => known
  }

  lemma StepsAlike(max: nat, a: Queue, b: Queue, op: Op, a': Queue, b': Queue, room: nat, known: nat)
    requires IsStep(false, max, a, op, a') && IsStep(true, max, b, op, b')
    requires Alike(a, b, room, known) && Disciplined([op], room, known)
    ensures Alike(a', b', RoomAfter(op, room), KnownAfter(op, known))
  {
    match op {
      case Fill(at, data) =>
        FilledAlike(a.prepared, b.prepared, at, data, known);
      case Commit(n) =>
        assert a.prepared[..n] == a.prepared[..known][..n] && b.prepared[..n] == b.prepared[..known][..n];
      case _ =>
    }
  }

  lemma FilledAlike(a: seq<byte>, b: seq<byte>, at: nat, data: seq<byte>, known: nat)
    requires at <= known <= |a| && known <= |b| && at + |data| <= |a| && at + |data| <= |b| && a[..known] == b[..known]
    ensures var k, to := Max(known, at + |data|), at + |data|;
      k <= |a| && k <= |b| && (a[..at] + data + a[to..])[..k] == (b[..at] + data + b[to..])[..k]
  {
    var k, to := Max(known, at + |data|), at + |data|;
    var a', b' := a[..at] + data + a[to..], b[..at] + data + b[to..];
    forall i | 0 <= i < k
      ensures a'[i] == b'[i]
    {
      if i < known {
        assert a[..known][i] == b[..known][i];
      }
    }
  }

  lemma StepEnabled(discards: bool, max: nat, q: Queue, op: Op, next: Queue)
    requires IsStep(discards, max, q, op, next)
    ensures Enabled(max, q, op)
  {
  }

  /** The first step of a run, and what remains behind it. */
  lemma BehavesHead(discards: bool, max: nat, q: Queue, ops: seq<Op>, states: seq<Queue>)
    requires Behaves(discards, max, q, ops, states)
    ensures |states| <= |ops| && (states != [] <==> ops != [] && Enabled(max, q, ops[0]))
    ensures states != [] ==>
      && IsStep(discards, max, q, ops[0], states[0])
      && Behaves(discards, max, states[0], ops[1..], states[1..])
  {
    hide IsStep, Enabled;
    if states != [] {
      assert IsStep(discards, max, Before(q, states, 0), ops[0], states[0]);
      StepEnabled(discards, max, q, ops[0], states[0]);
      forall i | 0 <= i < |states| - 1
        ensures IsStep(discards, max, Before(states[0], states[1..], i), ops[1..][i], states[1..][i])
      {
        assert IsStep(discards, max, Before(q, states, i + 1), ops[i + 1], states[i + 1]);
      }
    }
  }

  /** Both kinds of implementation, driven by such a script from the same contents, show the same
      contents after every step and refuse at the same step. */
  lemma {:induction false} RunsAgree(
      max: nat, a: Queue, b: Queue, ops: seq<Op>, kept: seq<Queue>, discarded: seq<Queue>, room: nat, known: nat)
    requires Behaves(false, max, a, ops, kept) && Behaves(true, max, b, ops, discarded)
    requires Alike(a, b, room, known) && Disciplined(ops, room, known)
    ensures |kept| == |discarded|
    ensures forall i :: 0 <= i < |kept| ==> kept[i].contents == discarded[i].contents
    decreases |ops|
  {
    hide Enabled, IsStep, Behaves, Alike, Disciplined, RoomAfter, KnownAfter;
    BehavesHead(false, max, a, ops, kept);
    BehavesHead(true, max, b, ops, discarded);
    if ops == [] {
    } else {
      var op, rest := ops[0], ops[1..];
      DisciplinedHead(ops, room, known);
      EnabledAlike(max, a, b, op, room, known);
      if kept != [] {
        StepsAlike(max, a, b, op, kept[0], discarded[0], room, known);
        SameContents(kept[0], discarded[0], RoomAfter(op, room), KnownAfter(op, known));
        RunsAgree(max, kept[0], discarded[0], rest, kept[1..], discarded[1..], RoomAfter(op, room), KnownAfter(op, known));
      }
    }
  }

  lemma DisciplinedHead(ops: seq<Op>, room: nat, known: nat)
    requires Disciplined(ops, room, known) && ops != []
    ensures Disciplined([ops[0]], room, known)
    ensures Disciplined(ops[1..], RoomAfter(ops[0], room), KnownAfter(ops[0], known))
  {
    assert [ops[0]][1..] == [];
  }

  lemma EnabledAlike(max: nat, a: Queue, b: Queue, op: Op, room: nat, known: nat)
    requires Alike(a, b, room, known) && Disciplined([op], room, known)
    ensures Enabled(max, a, op) <==> Enabled(max, b, op)
  {
  }

  lemma SameContents(a: Queue, b: Queue, room: nat, known: nat)
    requires Alike(a, b, room, known)
    ensures a.contents == b.contents
  {
  }
}
