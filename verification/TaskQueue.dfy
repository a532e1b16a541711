/** The worker pool of qyutil.h as a state machine: any number of workers in `run`, any number of
    callers of `put_task`, one mutex, one condition variable.  A step is what one thread does
    without another being able to interfere; an interleaving is a list of steps. */
module TaskQueue {
  import opened Bytes

  /** A task is a pair of functions, each of which may be empty. */
  datatype Task = Task(hasFirst: bool, hasSecond: bool)

  /** Where a worker is in `run`.  Tickets number the tasks in the order they are popped. */
  datatype Pc =
    | Start                  // wants the mutex
    | Test                   // holds it, tests whether the queue is empty
    | Predicate              // holds it, tests the predicate of `wait`
    | Sleepy                 // holds it, is about to release it and sleep in one step
    | Asleep                 // sleeps on the condition variable
    | Woken                  // woken up, wants the mutex back
    | Pop                    // holds it, takes the front of the queue
    | Unlock(ticket: nat)    // holds it and a task, releases it
    | First(ticket: nat)     // runs the first function
    | Second(ticket: nat)    // runs the second function

  /** Who holds the mutex; a caller of `put_task` has entered, pushed or notified. */
  datatype Owner = Free | Worker(i: nat) | Entered(task: Task) | Pushed | Notified

  datatype Event = RanFirst(worker: nat, ticket: nat) | RanSecond(worker: nat, ticket: nat)

  /** `submitted`, `popped`, `takers` and `log` are the history: tasks pushed, tasks popped, who
      popped each, and the functions run. */
  datatype State = State(
    queue: seq<Task>, owner: Owner, workers: seq<Pc>,
    submitted: seq<Task>, popped: seq<Task>, takers: seq<nat>, log: seq<Event>)

  datatype Label =
    | SubmitLock(task: Task) | SubmitPush | SubmitNotify | SubmitUnlock
    | Lock(i: nat) | TestEmpty(i: nat) | TestPredicate(i: nat) | Sleep(i: nat)
    | WakeSpuriously(i: nat) | Relock(i: nat)
    | PopTask(i: nat) | Release(i: nat) | RunFirst(i: nat) | RunSecond(i: nat)

  function Init(workers: nat): State {
    State([], Free, seq(workers, _ => Start), [], [], [], [])
  }

  /** `notify_all`. */
  function WakeAll(workers: seq<Pc>): (woken: seq<Pc>)
    ensures |woken| == |workers|
    ensures forall i :: 0 <= i < |workers| ==> woken[i] == if workers[i].Asleep? then Woken else workers[i]
  {
    seq(|workers|, i requires 0 <= i < |workers| => if workers[i].Asleep? then Woken else workers[i])
  }

  predicate Is(s: State, i: nat, pc: Pc) {
    i < |s.workers| && s.workers[i] == pc
  }

  function Go(s: State, i: nat, pc: Pc): State
    requires i < |s.workers|
  {
    s.(workers := s.workers[i := pc])
  }

  /** The state after a step, or `None` if the step cannot be taken. */
  function Next(s: State, l: Label): Option<State> {
    match l
    case SubmitLock(task) => if s.owner.Free? then Some(s.(owner := Entered(task))) else None
    case SubmitPush =>
      if s.owner.Entered? then
        Some(s.(queue := s.queue + [s.owner.task], submitted := s.submitted + [s.owner.task], owner := Pushed))
      else None
    case SubmitNotify =>
      if s.owner.Pushed? then Some(s.(workers := WakeAll(s.workers), owner := Notified)) else None
    case SubmitUnlock => if s.owner.Notified? then Some(s.(owner := Free)) else None
    case Lock(i) =>
      if Is(s, i, Start) && s.owner.Free? then Some(Go(s, i, Test).(owner := Worker(i))) else None
    case TestEmpty(i) =>
      if Is(s, i, Test) then Some(Go(s, i, if s.queue == [] then Predicate else Pop)) else None
    case TestPredicate(i) =>
      if Is(s, i, Predicate) then Some(Go(s, i, if s.queue == [] then Sleepy else Pop)) else None
    case Sleep(i) =>
      if Is(s, i, Sleepy) then Some(Go(s, i, Asleep).(owner := Free)) else None
    case WakeSpuriously(i) =>
      if Is(s, i, Asleep) then Some(Go(s, i, Woken)) else None
    case Relock(i) =>
      if Is(s, i, Woken) && s.owner.Free? then Some(Go(s, i, Predicate).(owner := Worker(i))) else None
    case PopTask(i) =>
      if Is(s, i, Pop) && s.queue != [] then
        Some(Go(s, i, Unlock(|s.popped|)).(
          queue := s.queue[1..], popped := s.popped + [s.queue[0]], takers := s.takers + [i]))
      else None
    case Release(i) =>
      if i < |s.workers| && s.workers[i].Unlock? then
        Some(Go(s, i, First(s.workers[i].ticket)).(owner := Free))
      else None
    case RunFirst(i) =>
      if i < |s.workers| && s.workers[i].First? && s.workers[i].ticket < |s.popped| then
        var k := s.workers[i].ticket;
        if s.popped[k].hasFirst then Some(Go(s, i, Second(k)).(log := s.log + [RanFirst(i, k)]))
        else Some(Go(s, i, Start))
      else None
    case RunSecond(i) =>
      if i < |s.workers| && s.workers[i].Second? && s.workers[i].ticket < |s.popped| then
        var k := s.workers[i].ticket;
        if s.popped[k].hasSecond then Some(Go(s, i, Start).(log := s.log + [RanSecond(i, k)]))
        else Some(Go(s, i, Start))
      else None
  }

  /** The state after an interleaving. */
  function Exec(s: State, labels: seq<Label>): Option<State>
    decreases |labels|
  {
    if labels == [] then Some(s)
    else
      match Next(s, labels[0])
      case None => None
      case Some(next) => Exec(next, labels[1..])
  }

  // ---------------------------------------------------------------------------
  // The invariant
  // ---------------------------------------------------------------------------

  predicate HoldsMutex(pc: Pc) {
    pc.Test? || pc.Predicate? || pc.Sleepy? || pc.Pop? || pc.Unlock?
  }

  /** The workers that act as mutex holders are the one that owns it. */
  ghost predicate Exclusive(s: State) {
    && (forall i :: 0 <= i < |s.workers| ==> (HoldsMutex(s.workers[i]) <==> s.owner == Worker(i)))
    && (s.owner.Worker? ==> s.owner.i < |s.workers|)
  }

  /** Tasks leave the queue in the order they entered it, each once. */
  ghost predicate InOrder(s: State) {
    s.popped + s.queue == s.submitted && |s.takers| == |s.popped|
  }

  /** No lost wakeup: with a task in the queue nobody is asleep, except between a push and its
      notification; a worker about to sleep has seen an empty queue, one about to pop a task. */
  ghost predicate NoLostWakeup(s: State) {
    && (forall i :: 0 <= i < |s.workers| && s.workers[i].Asleep? && s.queue != [] ==> s.owner.Pushed?)
    && (forall i :: 0 <= i < |s.workers| && s.workers[i].Sleepy? ==> s.queue == [])
    && (forall i :: 0 <= i < |s.workers| && s.workers[i].Pop? ==> s.queue != [])
  }

  lemma ExclusiveKept(s: State, l: Label)
    requires Exclusive(s) && Next(s, l).Some?
    ensures Exclusive(Next(s, l).value)
  {
  }

  lemma InOrderKept(s: State, l: Label)
    requires InOrder(s) && Next(s, l).Some?
    ensures InOrder(Next(s, l).value)
  {
    var next := Next(s, l).value;
    match l {
      case SubmitPush => assert s.popped + (s.queue + [s.owner.task]) == (s.popped + s.queue) + [s.owner.task];
      case PopTask(i) => assert s.queue == [s.queue[0]] + s.queue[1..];
      case _ =>
    }
  }

  predicate Submits(l: Label) {
    l.SubmitLock? || l.SubmitPush? || l.SubmitNotify? || l.SubmitUnlock?
  }

  function Moves(l: Label): nat
    requires !Submits(l)
  {
    l.i
  }

  lemma SubmitLosesNoWakeup(s: State, l: Label)
    requires Exclusive(s) && NoLostWakeup(s) && Submits(l) && Next(s, l).Some?
    ensures NoLostWakeup(Next(s, l).value)
  {
  }

  /** What a step of worker `i` means to the others: the owner of the mutex alone moves to sleep
      or to a pop, having seen the queue, and the queue shrinks only under its hands. */
  lemma WorkerMoves(s: State, l: Label)
    requires Exclusive(s) && !Submits(l) && Next(s, l).Some?
    ensures var i, next := Moves(l), Next(s, l).value;
      && i < |s.workers| == |next.workers|
      && (forall j :: 0 <= j < |s.workers| && j != i ==> next.workers[j] == s.workers[j])
      && (s.owner.Pushed? ==> next.owner.Pushed? && next.queue == s.queue)
      && (next.workers[i].Asleep? ==> s.workers[i].Sleepy? && next.queue == s.queue)
      && (next.workers[i].Sleepy? ==> next.queue == [])
      && (next.workers[i].Pop? ==> next.queue != [])
      && (next.queue != s.queue ==>
            s.queue != [] && forall j :: 0 <= j < |s.workers| && j != i ==> !s.workers[j].Pop?)
  {
  }

  lemma WorkerLosesNoWakeup(s: State, l: Label)
    requires Exclusive(s) && NoLostWakeup(s) && !Submits(l) && Next(s, l).Some?
    ensures NoLostWakeup(Next(s, l).value)
  {
    WorkerMoves(s, l);
    hide Next, Exclusive, Submits;
  }

  lemma NoLostWakeupKept(s: State, l: Label)
    requires Exclusive(s) && NoLostWakeup(s) && Next(s, l).Some?
    ensures NoLostWakeup(Next(s, l).value)
  {
    hide *;
    if Submits(l) {
      SubmitLosesNoWakeup(s, l);
    } else {
      WorkerLosesNoWakeup(s, l);
    }
  }

  // ---------------------------------------------------------------------------
  // What each task's functions did
  // ---------------------------------------------------------------------------

  /** The events of one ticket, in the order they happened. */
  function EventsOf(log: seq<Event>, k: nat): seq<Event> {
    if log == [] then []
    else
      var last := log[|log| - 1];
      EventsOf(log[..|log| - 1], k) + if last.ticket == k then [last] else []
  }

  lemma EventsOfAppend(log: seq<Event>, e: Event, k: nat)
    ensures EventsOf(log + [e], k) == EventsOf(log, k) + if e.ticket == k then [e] else []
  {
    assert (log + [e])[..|log|] == log;
  }

  /** The complete execution of a task by one worker: the second function only after the first,
      and only if there is a first. */
  function FullRun(worker: nat, k: nat, task: Task): seq<Event> {
    if !task.hasFirst then []
    else if !task.hasSecond then [RanFirst(worker, k)]
    else [RanFirst(worker, k), RanSecond(worker, k)]
  }

  /** What has been run of a popped task, by where its taker is. */
  function RunSoFar(s: State, k: nat): seq<Event>
    requires k < |s.popped| == |s.takers| && s.takers[k] < |s.workers|
  {
    var pc := s.workers[s.takers[k]];
    if pc == Unlock(k) || pc == First(k) then []
    else if pc == Second(k) then [RanFirst(s.takers[k], k)]
    else FullRun(s.takers[k], k, s.popped[k])
  }

  /** Takers are workers; a worker that holds a ticket is its taker; a worker past the first
      function had one to run. */
  ghost predicate Tickets(s: State) {
    && |s.takers| == |s.popped|
    && (forall k :: 0 <= k < |s.takers| ==> s.takers[k] < |s.workers|)
    && (forall i :: 0 <= i < |s.workers| && (s.workers[i].Unlock? || s.workers[i].First? || s.workers[i].Second?) ==>
          s.workers[i].ticket < |s.takers| && s.takers[s.workers[i].ticket] == i)
    && (forall i :: 0 <= i < |s.workers| && s.workers[i].Second? ==> s.popped[s.workers[i].ticket].hasFirst)
  }

  /** The log holds exactly what the program counters say has been run. */
  ghost predicate Logged(s: State)
    requires Tickets(s)
  {
    && (forall k :: 0 <= k < |s.popped| ==> EventsOf(s.log, k) == RunSoFar(s, k))
    && (forall k: nat :: k >= |s.popped| ==> EventsOf(s.log, k) == [])
  }

  predicate Ticketed(pc: Pc) {
    pc.Unlock? || pc.First? || pc.Second?
  }

  /** The steps that handle no task leave tickets, history and log alone. */
  predicate Handles(l: Label) {
    l.PopTask? || l.Release? || l.RunFirst? || l.RunSecond?
  }

  lemma OthersKeepTickets(s: State, l: Label)
    requires Next(s, l).Some? && !Handles(l)
    ensures var next := Next(s, l).value;
      && next.log == s.log && next.popped == s.popped && next.takers == s.takers
      && |next.workers| == |s.workers|
      && forall i :: 0 <= i < |s.workers| ==>
           next.workers[i] == s.workers[i] || (!Ticketed(next.workers[i]) && !Ticketed(s.workers[i]))
  {
  }

  lemma OthersKeepLogged(s: State, next: State)
    requires Tickets(s) && Logged(s)
    requires next.log == s.log && next.popped == s.popped && next.takers == s.takers
    requires |next.workers| == |s.workers|
    requires forall i :: 0 <= i < |s.workers| ==>
      next.workers[i] == s.workers[i] || (!Ticketed(next.workers[i]) && !Ticketed(s.workers[i]))
    ensures Tickets(next) && Logged(next)
  {
    forall k | 0 <= k < |next.popped|
      ensures EventsOf(next.log, k) == RunSoFar(next, k)
    {
    }
  }

  lemma PopKeepsLogged(s: State, i: nat)
    requires Tickets(s) && Logged(s) && Next(s, PopTask(i)).Some?
    ensures Tickets(Next(s, PopTask(i)).value) && Logged(Next(s, PopTask(i)).value)
  {
    var next := Next(s, PopTask(i)).value;
    forall k | 0 <= k < |next.popped|
      ensures EventsOf(next.log, k) == RunSoFar(next, k)
    {
      if k < |s.popped| {
        assert RunSoFar(next, k) == RunSoFar(s, k);
      }
    }
  }

  lemma ReleaseKeepsLogged(s: State, i: nat)
    requires Tickets(s) && Logged(s) && Next(s, Release(i)).Some?
    ensures Tickets(Next(s, Release(i)).value) && Logged(Next(s, Release(i)).value)
  {
    var next := Next(s, Release(i)).value;
    forall k | 0 <= k < |next.popped|
      ensures EventsOf(next.log, k) == RunSoFar(next, k)
    {
      assert RunSoFar(next, k) == RunSoFar(s, k);
    }
  }

  /** One more event of ticket `t` in the log. */
  lemma LogGrows(s: State, next: State, e: Event, t: nat)
    requires next.log == s.log + [e] && e.ticket == t
    ensures forall k: nat :: EventsOf(next.log, k) == EventsOf(s.log, k) + if k == t then [e] else []
  {
    forall k: nat
      ensures EventsOf(next.log, k) == EventsOf(s.log, k) + if k == t then [e] else []
    {
      EventsOfAppend(s.log, e, k);
    }
  }

  /** The ticket a worker holds was taken by that worker, and by no other ticket's taker. */
  lemma TicketOf(s: State, i: nat)
    requires Tickets(s) && i < |s.workers| && Ticketed(s.workers[i])
    ensures s.workers[i].ticket < |s.popped| == |s.takers| && s.takers[s.workers[i].ticket] == i
    ensures forall k :: 0 <= k < |s.takers| ==> s.takers[k] < |s.workers|
    ensures s.workers[i].Second? ==> s.popped[s.workers[i].ticket].hasFirst
  {
  }

  /** Running a function moves a ticket on: what is run of it grows by the function's event. */
  lemma RunFirstKeepsTickets(s: State, i: nat)
    requires Tickets(s) && Next(s, RunFirst(i)).Some?
    ensures Tickets(Next(s, RunFirst(i)).value)
  {
  }

  lemma RunFirstTicket(s: State, i: nat)
    requires Tickets(s) && Next(s, RunFirst(i)).Some?
    ensures var next, t := Next(s, RunFirst(i)).value, s.workers[i].ticket;
      && Tickets(next) && t < |s.popped| == |next.popped|
      && next.log == s.log + (if s.popped[t].hasFirst then [RanFirst(i, t)] else [])
      && RunSoFar(next, t) == RunSoFar(s, t) + (if s.popped[t].hasFirst then [RanFirst(i, t)] else [])
      && forall k :: 0 <= k < |s.popped| && k != t ==> RunSoFar(next, k) == RunSoFar(s, k)
  {
    RunFirstKeepsTickets(s, i);
    hide Tickets;
    TicketOf(s, i);
  }

  lemma RunSecondKeepsTickets(s: State, i: nat)
    requires Tickets(s) && Next(s, RunSecond(i)).Some?
    ensures Tickets(Next(s, RunSecond(i)).value)
  {
  }

  lemma RunSecondTicket(s: State, i: nat)
    requires Tickets(s) && Next(s, RunSecond(i)).Some?
    ensures var next, t := Next(s, RunSecond(i)).value, s.workers[i].ticket;
      && Tickets(next) && t < |s.popped| == |next.popped|
      && next.log == s.log + (if s.popped[t].hasSecond then [RanSecond(i, t)] else [])
      && RunSoFar(next, t) == RunSoFar(s, t) + (if s.popped[t].hasSecond then [RanSecond(i, t)] else [])
      && forall k :: 0 <= k < |s.popped| && k != t ==> RunSoFar(next, k) == RunSoFar(s, k)
  {
    RunSecondKeepsTickets(s, i);
    hide Tickets;
    TicketOf(s, i);
  }

  /** The log grows by an event of ticket `t` exactly as what is run of the ticket does. */
  lemma EventKeepsLogged(s: State, next: State, t: nat, event: seq<Event>)
    requires Tickets(s) && Logged(s) && Tickets(next) && t < |s.popped| == |next.popped|
    requires next.log == s.log + event && |event| <= 1 && (event != [] ==> event[0].ticket == t)
    requires RunSoFar(next, t) == RunSoFar(s, t) + event
    requires forall k :: 0 <= k < |s.popped| && k != t ==> RunSoFar(next, k) == RunSoFar(s, k)
    ensures Logged(next)
  {
    hide EventsOf, RunSoFar, Tickets;
    if event == [] {
      assert next.log == s.log;
    } else {
      assert event == [event[0]];
      LogGrows(s, next, event[0], t);
    }
  }

  lemma RunFirstKeepsLogged(s: State, i: nat)
    requires Tickets(s) && Logged(s) && Next(s, RunFirst(i)).Some?
    ensures Tickets(Next(s, RunFirst(i)).value) && Logged(Next(s, RunFirst(i)).value)
  {
    hide EventsOf, RunSoFar, Tickets, Logged;
    RunFirstTicket(s, i);
    var t := s.workers[i].ticket;
    EventKeepsLogged(s, Next(s, RunFirst(i)).value, t, if s.popped[t].hasFirst then [RanFirst(i, t)] else []);
  }

  lemma RunSecondKeepsLogged(s: State, i: nat)
    requires Tickets(s) && Logged(s) && Next(s, RunSecond(i)).Some?
    ensures Tickets(Next(s, RunSecond(i)).value) && Logged(Next(s, RunSecond(i)).value)
  {
    hide EventsOf, RunSoFar, Tickets, Logged;
    RunSecondTicket(s, i);
    var t := s.workers[i].ticket;
    EventKeepsLogged(s, Next(s, RunSecond(i)).value, t, if s.popped[t].hasSecond then [RanSecond(i, t)] else []);
  }

  lemma LoggedKept(s: State, l: Label)
    requires Tickets(s) && Logged(s) && Next(s, l).Some?
    ensures Tickets(Next(s, l).value) && Logged(Next(s, l).value)
  {
    hide *;
    match l {
      case PopTask(i) => PopKeepsLogged(s, i);
      case Release(i) => ReleaseKeepsLogged(s, i);
      case RunFirst(i) => RunFirstKeepsLogged(s, i);
      case RunSecond(i) => RunSecondKeepsLogged(s, i);
      case _ =>
        HandlesNot(l);
        OthersKeepTickets(s, l);
        OthersKeepLogged(s, Next(s, l).value);
    }
  }

  lemma HandlesNot(l: Label)
    ensures !Handles(l) <==> !l.PopTask? && !l.Release? && !l.RunFirst? && !l.RunSecond?
  {
  }

  ghost predicate Inv(s: State) {
    Exclusive(s) && InOrder(s) && NoLostWakeup(s) && Tickets(s) && Logged(s)
  }

  lemma InvKept(s: State, l: Label)
    requires Inv(s) && Next(s, l).Some?
    ensures Inv(Next(s, l).value)
  {
    hide *;
    InvParts(s);
    ExclusiveKept(s, l);
    InOrderKept(s, l);
    NoLostWakeupKept(s, l);
    LoggedKept(s, l);
    InvFromParts(Next(s, l).value);
  }

  lemma InvParts(s: State)
    requires Inv(s)
    ensures Exclusive(s) && InOrder(s) && NoLostWakeup(s) && Tickets(s) && Logged(s)
  {
  }

  lemma InvFromParts(s: State)
    requires Exclusive(s) && InOrder(s) && NoLostWakeup(s) && Tickets(s) && Logged(s)
    ensures Inv(s)
  {
  }

  /** Every state of every interleaving, spurious wakeups included, satisfies the invariant. */
  lemma {:induction false} InvAlways(s: State, labels: seq<Label>)
    requires Inv(s) && Exec(s, labels).Some?
    ensures Inv(Exec(s, labels).value)
    decreases |labels|
  {
    if labels == [] {
    } else {
      InvKept(s, labels[0]);
      InvAlways(Next(s, labels[0]).value, labels[1..]);
    }
  }

  lemma InitInv(n: nat)
    ensures Inv(Init(n))
  {
  }

  // ---------------------------------------------------------------------------
  // Safety over whole runs
  // ---------------------------------------------------------------------------

  /** A run of a pool of `n` workers. */
  ghost predicate Reached(n: nat, labels: seq<Label>, s: State) {
    Exec(Init(n), labels) == Some(s)
  }

  lemma ReachedInv(n: nat, labels: seq<Label>, s: State)
    requires Reached(n, labels, s)
    ensures Inv(s)
  {
    InitInv(n);
    InvAlways(Init(n), labels);
  }

  lemma {:induction false} WorkersKept(s: State, labels: seq<Label>)
    requires Exec(s, labels).Some?
    ensures |Exec(s, labels).value.workers| == |s.workers|
    decreases |labels|
  {
    if labels == [] {
    } else {
      assert |Next(s, labels[0]).value.workers| == |s.workers|;
      WorkersKept(Next(s, labels[0]).value, labels[1..]);
    }
  }

  /** The tasks handed to `put_task` in a run, in the order the calls got the mutex. */
  function Asked(labels: seq<Label>): seq<Task> {
    if labels == [] then []
    else (if labels[0].SubmitLock? then [labels[0].task] else []) + Asked(labels[1..])
  }

  /** The task of a call that has the mutex and has not pushed yet. */
  function Entering(s: State): seq<Task> {
    if s.owner.Entered? then [s.owner.task] else []
  }

  lemma StepAsks(s: State, l: Label)
    requires Exclusive(s) && Next(s, l).Some?
    ensures var next := Next(s, l).value;
      next.submitted + Entering(next) == s.submitted + Entering(s) + if l.SubmitLock? then [l.task] else []
  {
  }

  /** What callers put is what the pool has taken in: no call is forgotten, none counts twice. */
  lemma {:induction false} AskedIsSubmitted(s: State, labels: seq<Label>)
    requires Inv(s) && Exec(s, labels).Some?
    ensures var t := Exec(s, labels).value;
      t.submitted + Entering(t) == s.submitted + Entering(s) + Asked(labels)
    decreases |labels|
  {
    hide Inv, Next, Entering;
    if labels == [] {
    } else {
      var l, rest := labels[0], labels[1..];
      var next := Next(s, l).value;
      InvParts(s);
      StepAsks(s, l);
      InvKept(s, l);
      AskedIsSubmitted(next, rest);
      var one := if l.SubmitLock? then [l.task] else [];
      assert (s.submitted + Entering(s) + one) + Asked(rest) == s.submitted + Entering(s) + (one + Asked(rest));
    }
  }

  lemma ReachedAsks(n: nat, labels: seq<Label>, s: State)
    requires Reached(n, labels, s)
    ensures s.submitted + Entering(s) == Asked(labels)
    ensures !s.owner.Entered? ==> s.submitted == Asked(labels)
  {
    InitInv(n);
    hide Exec, Inv;
    AskedIsSubmitted(Init(n), labels);
  }

  /** In every reachable state: the mutex excludes, tasks are popped in submission order, no
      wakeup is lost, the front of the queue exists whenever a worker takes it, and each task's
      functions have run at most once, second after first, on the worker that popped the task.
      Popped tasks, the queue and a call about to push make up all tasks put, in order. */
  lemma Safety(n: nat, labels: seq<Label>, s: State)
    requires Reached(n, labels, s)
    ensures forall i, j | 0 <= i < |s.workers| && 0 <= j < |s.workers| ::
      HoldsMutex(s.workers[i]) && HoldsMutex(s.workers[j]) ==> i == j
    ensures s.popped + s.queue == s.submitted && s.submitted + Entering(s) == Asked(labels)
    ensures s.queue != [] && !s.owner.Pushed? ==>
      forall i :: 0 <= i < |s.workers| ==> !s.workers[i].Asleep?
    ensures forall i :: 0 <= i < |s.workers| && s.workers[i].Pop? ==> s.queue != []
    ensures |s.takers| == |s.popped|
    ensures forall k :: 0 <= k < |s.popped| ==> EventsOf(s.log, k) <= FullRun(s.takers[k], k, s.popped[k])
    ensures forall k: nat :: k >= |s.popped| ==> EventsOf(s.log, k) == []
  {
    ReachedInv(n, labels, s);
    ReachedAsks(n, labels, s);
    hide Exec, EventsOf, Asked, Entering;
    forall k | 0 <= k < |s.popped|
      ensures EventsOf(s.log, k) <= FullRun(s.takers[k], k, s.popped[k])
    {
      assert EventsOf(s.log, k) == RunSoFar(s, k);
    }
  }

  // ---------------------------------------------------------------------------
  // Progress
  // ---------------------------------------------------------------------------

  /** The steps of threads that are already at work: everything but a new call of `put_task` and
      a spurious wakeup. */
  predicate Internal(l: Label) {
    !l.SubmitLock? && !l.WakeSpuriously?
  }

  /** A state in which no thread at work can take a step. */
  ghost predicate Quiet(s: State) {
    forall l :: Internal(l) ==> Next(s, l).None?
  }

  /** A worker that is neither asleep nor waiting for a taken mutex can step. */
  lemma WorkerCanStep(s: State, i: nat)
    requires Inv(s) && i < |s.workers| && !s.workers[i].Asleep?
    requires s.workers[i].Start? || s.workers[i].Woken? ==> s.owner.Free?
    ensures exists l :: Internal(l) && Next(s, l).Some?
  {
    var l := match s.workers[i]
      case Start => Lock(i)
      case Test => TestEmpty(i)
      case Predicate => TestPredicate(i)
      case Sleepy => Sleep(i)
      case Woken => Relock(i)
      case Pop => PopTask(i)
      case Unlock(_) => Release(i)
      case First(_) => RunFirst(i)
      case Second(_) => RunSecond(i)
      case Asleep => Lock(i);
    hide EventsOf;
    assert Internal(l) && Next(s, l).Some?;
  }

  lemma MutexHolderCanStep(s: State)
    requires Inv(s) && !s.owner.Free?
    ensures exists l :: Internal(l) && Next(s, l).Some?
  {
    match s.owner {
      case Worker(i) => WorkerCanStep(s, i);
      case Entered(_) => assert Internal(SubmitPush) && Next(s, SubmitPush).Some?;
      case Pushed => assert Internal(SubmitNotify) && Next(s, SubmitNotify).Some?;
      case Notified => assert Internal(SubmitUnlock) && Next(s, SubmitUnlock).Some?;
    }
  }

  /** A quiet pool has nothing left to do. */
  lemma NothingLeft(s: State)
    requires Inv(s) && Quiet(s) && 0 < |s.workers|
    ensures s.owner.Free? && s.queue == [] && s.popped == s.submitted
    ensures forall i :: 0 <= i < |s.workers| ==> s.workers[i].Asleep?
    ensures forall k :: 0 <= k < |s.submitted| ==>
      EventsOf(s.log, k) == FullRun(s.takers[k], k, s.submitted[k])
  {
    if !s.owner.Free? {
      MutexHolderCanStep(s);
    }
    forall i | 0 <= i < |s.workers|
      ensures s.workers[i].Asleep?
    {
      if !s.workers[i].Asleep? {
        WorkerCanStep(s, i);
      }
    }
    assert s.workers[0].Asleep?;
    hide EventsOf;
    forall k | 0 <= k < |s.submitted|
      ensures EventsOf(s.log, k) == FullRun(s.takers[k], k, s.submitted[k])
    {
      assert s.workers[s.takers[k]].Asleep?;
      assert EventsOf(s.log, k) == RunSoFar(s, k);
    }
  }

  /** When no thread at work can step, the mutex is free, all workers sleep, the queue is empty,
      and every task put has been run to its end. */
  lemma QuietIsDone(n: nat, labels: seq<Label>, s: State)
    requires Reached(n, labels, s) && 0 < n && Quiet(s)
    ensures s.owner.Free? && s.queue == [] && s.popped == Asked(labels) && |s.takers| == |Asked(labels)|
    ensures forall i :: 0 <= i < |s.workers| ==> s.workers[i].Asleep?
    ensures forall k :: 0 <= k < |Asked(labels)| ==>
      EventsOf(s.log, k) == FullRun(s.takers[k], k, Asked(labels)[k])
  {
    ReachedInv(n, labels, s);
    ReachedAsks(n, labels, s);
    WorkersKept(Init(n), labels);
    hide Inv, Exec, Quiet, EventsOf, Asked;
    NothingLeft(s);
    InvParts(s);
  }

  /** In a quiet pool every task put has been popped, in order; its second function has run if and
      only if the task has both functions, its first one if and only if there is one, each on the
      worker that popped the task. */
  lemma FinishedIff(n: nat, labels: seq<Label>, s: State, k: nat)
    requires Reached(n, labels, s) && 0 < n && Quiet(s) && k < |Asked(labels)|
    ensures s.popped == Asked(labels) && |s.takers| == |Asked(labels)|
    ensures forall i: nat :: RanFirst(i, k) in s.log <==> i == s.takers[k] && Asked(labels)[k].hasFirst
    ensures forall i: nat :: RanSecond(i, k) in s.log <==>
      i == s.takers[k] && Asked(labels)[k].hasFirst && Asked(labels)[k].hasSecond
  {
    hide EventsOf, Quiet, Reached, Asked;
    QuietIsDone(n, labels, s);
    var task := Asked(labels)[k];
    forall i: nat
      ensures RanFirst(i, k) in s.log <==> RanFirst(i, k) in FullRun(s.takers[k], k, task)
      ensures RanSecond(i, k) in s.log <==> RanSecond(i, k) in FullRun(s.takers[k], k, task)
    {
      EventsOfHas(s.log, RanFirst(i, k), k);
      EventsOfHas(s.log, RanSecond(i, k), k);
    }
  }

  lemma {:induction false} EventsOfHas(log: seq<Event>, e: Event, k: nat)
    requires e.ticket == k
    ensures e in log <==> e in EventsOf(log, k)
  {
    if log == [] {
    } else {
      var front, last := log[..|log| - 1], log[|log| - 1];
      EventsOfHas(front, e, k);
      assert log == front + [last];
    }
  }

  /** A submitted task is never stranded: while the queue is not empty, some thread at work can
      take a step. */
  lemma NeverStranded(n: nat, labels: seq<Label>, s: State)
    requires Reached(n, labels, s) && 0 < n && s.queue != []
    ensures exists l :: Internal(l) && Next(s, l).Some?
  {
    ReachedInv(n, labels, s);
    WorkersKept(Init(n), labels);
    if Quiet(s) {
      NothingLeft(s);
    }
  }

  // ---------------------------------------------------------------------------
  // Termination of the work at hand
  // ---------------------------------------------------------------------------

  /** How far a worker is from going back to sleep. */
  function Rank(pc: Pc): nat {
    match pc
    case Asleep => 0
    case Pop => 1
    case Sleepy => 2
    case Predicate => 3
    case Test => 4
    case Woken => 4
    case Start => 5
    case Second(_) => 6
    case First(_) => 7
    case Unlock(_) => 8
  }

  function Ranks(workers: seq<Pc>): nat {
    if workers == [] then 0 else Rank(workers[0]) + Ranks(workers[1..])
  }

  function OwnerRank(owner: Owner, n: nat): nat {
    match owner
    case Entered(_) => 4 * n + 11
    case Pushed => 4 * n + 2
    case Notified => 1
    case _ => 0
  }

  /** The work at hand: it shrinks with every step but a new submission or a spurious wakeup. */
  function Work(s: State): nat {
    8 * |s.queue| + Ranks(s.workers) + OwnerRank(s.owner, |s.workers|)
  }

  lemma {:induction false} RanksUpdate(workers: seq<Pc>, i: nat, pc: Pc)
    requires i < |workers|
    ensures Ranks(workers[i := pc]) + Rank(workers[i]) == Ranks(workers) + Rank(pc)
  {
    if i == 0 {
      assert workers[0 := pc][1..] == workers[1..];
    } else {
      assert workers[i := pc][1..] == workers[1..][i - 1 := pc];
      RanksUpdate(workers[1..], i - 1, pc);
    }
  }

  lemma {:induction false} RanksWake(workers: seq<Pc>)
    ensures Ranks(WakeAll(workers)) <= Ranks(workers) + 4 * |workers|
  {
    if workers == [] {
    } else {
      assert WakeAll(workers)[1..] == WakeAll(workers[1..]);
      RanksWake(workers[1..]);
    }
  }

  lemma WorkShrinks(s: State, l: Label)
    requires Next(s, l).Some? && Internal(l)
    ensures Work(Next(s, l).value) < Work(s)
  {
    hide Ranks;
    var next := Next(s, l).value;
    if l.SubmitNotify? {
      RanksWake(s.workers);
    } else if !Submits(l) {
      RanksUpdate(s.workers, l.i, next.workers[l.i]);
    }
  }

  /** The work a step brings in: a spurious wakeup sends one worker round again, a new task brings
      its own work and may wake all workers. */
  function ExtraOf(l: Label, n: nat): nat {
    match l
    case WakeSpuriously(_) => 5
    case SubmitLock(_) => 4 * n + 12
    case _ => 0
  }

  function Extra(labels: seq<Label>, n: nat): nat {
    if labels == [] then 0 else ExtraOf(labels[0], n) + Extra(labels[1..], n)
  }

  lemma WorkStep(s: State, l: Label)
    requires Next(s, l).Some?
    ensures 1 + Work(Next(s, l).value) <= Work(s) + ExtraOf(l, |s.workers|)
    ensures |Next(s, l).value.workers| == |s.workers|
  {
    hide Ranks;
    if Internal(l) {
      WorkShrinks(s, l);
    } else if l.WakeSpuriously? {
      RanksUpdate(s.workers, l.i, Woken);
    }
  }

  /** The length of any run is bounded by the work at hand and the work that comes in. */
  lemma {:induction false} WorkBoundsRun(s: State, labels: seq<Label>)
    requires Exec(s, labels).Some?
    ensures |labels| + Work(Exec(s, labels).value) <= Work(s) + Extra(labels, |s.workers|)
    decreases |labels|
  {
    hide Work, Next, ExtraOf;
    if labels == [] {
    } else {
      WorkStep(s, labels[0]);
      WorkBoundsRun(Next(s, labels[0]).value, labels[1..]);
    }
  }

  lemma {:induction false} NoExtra(labels: seq<Label>, n: nat)
    requires forall k :: 0 <= k < |labels| ==> Internal(labels[k])
    ensures Extra(labels, n) == 0
  {
    if labels == [] {
    } else {
      assert forall k :: 0 <= k < |labels| - 1 ==> labels[1..][k] == labels[k + 1];
      NoExtra(labels[1..], n);
    }
  }

  /** From any reachable state, any run that goes on until no thread at work can step ends within
      the work at hand and the work that comes in on the way, with every task put before or on the
      way run to its end; without submissions and spurious wakeups that is `Work(s)`. */
  lemma Drains(n: nat, labels: seq<Label>, s: State, more: seq<Label>, t: State)
    requires Reached(n, labels, s) && 0 < n
    requires Exec(s, more) == Some(t) && Quiet(t)
    ensures |more| <= Work(s) + Extra(more, n)
    ensures (forall k :: 0 <= k < |more| ==> Internal(more[k])) ==> |more| <= Work(s)
    ensures var put := Asked(labels) + Asked(more);
      && t.queue == [] && t.popped == put && |t.takers| == |put|
      && forall k :: 0 <= k < |put| ==> EventsOf(t.log, k) == FullRun(t.takers[k], k, put[k])
  {
    ReachedInv(n, labels, s);
    ReachedAsks(n, labels, s);
    WorkersKept(Init(n), labels);
    hide Exec, Inv, Quiet, Work, EventsOf, Extra, Internal, Asked;
    AskedIsSubmitted(s, more);
    WorkersKept(s, more);
    InvAlways(s, more);
    WorkBoundsRun(s, more);
    if forall k :: 0 <= k < |more| ==> Internal(more[k]) {
      NoExtra(more, n);
    }
    NothingLeft(t);
    InvParts(t);
  }

  // ---------------------------------------------------------------------------
  // One worker: execution in submission order
  // ---------------------------------------------------------------------------

  /** The log of a single worker that has run the tasks one after the other. */
  function Sequential(tasks: seq<Task>): seq<Event> {
    if tasks == [] then []
    else
      var k := |tasks| - 1;
      Sequential(tasks[..k]) + FullRun(0, k, tasks[k])
  }

  /** With one worker the log is the sequential one for all tasks popped, but for the part of the
      last task that is still to be run. */
  ghost predicate Ordered(s: State) {
    && |s.workers| == 1
    && match s.workers[0] {
         case Unlock(k) => k + 1 == |s.popped| && s.log == Sequential(s.popped[..k])
         case First(k) => k + 1 == |s.popped| && s.log == Sequential(s.popped[..k])
         case Second(k) =>
           k + 1 == |s.popped| && s.popped[k].hasFirst && s.log == Sequential(s.popped[..k]) + [RanFirst(0, k)]
         case _ => s.log == Sequential(s.popped)
       }
  }

  lemma OrderedKept(s: State, l: Label)
    requires Ordered(s) && Next(s, l).Some?
    ensures Ordered(Next(s, l).value)
  {
    hide Sequential, FullRun;
    match l {
      case PopTask(i) => assert (s.popped + [s.queue[0]])[..|s.popped|] == s.popped;
      case RunFirst(_) => SequentialLast(s.popped);
      case RunSecond(_) => SequentialLast(s.popped);
      case _ =>
    }
  }

  lemma SequentialLast(tasks: seq<Task>)
    ensures tasks != [] ==>
      var k := |tasks| - 1;
      Sequential(tasks) == Sequential(tasks[..k])
                         + (if tasks[k].hasFirst then [RanFirst(0, k)] else [])
                         + (if tasks[k].hasFirst && tasks[k].hasSecond then [RanSecond(0, k)] else [])
  {
  }

  lemma {:induction false} OrderedAlways(s: State, labels: seq<Label>)
    requires Ordered(s) && Exec(s, labels).Some?
    ensures Ordered(Exec(s, labels).value)
    decreases |labels|
  {
    hide Ordered;
    if labels == [] {
    } else {
      OrderedKept(s, labels[0]);
      OrderedAlways(Next(s, labels[0]).value, labels[1..]);
    }
  }

  /** One worker runs the tasks put strictly in the order the calls got the mutex: its log is a
      prefix of the sequential execution of all of them. */
  lemma OneWorkerInOrder(labels: seq<Label>, s: State)
    requires Reached(1, labels, s)
    ensures s.log <= Sequential(Asked(labels))
  {
    InitOrdered();
    hide Ordered, Sequential, Exec, Inv, Entering, Asked, InOrder;
    OrderedAlways(Init(1), labels);
    ReachedAsks(1, labels, s);
    PoppedFirst(1, labels, s);
    OrderedIsPrefix(s);
    SequentialPrefix(Asked(labels), |s.popped|);
    assert Asked(labels)[..|s.popped|] == s.popped;
  }

  lemma InitOrdered()
    ensures Ordered(Init(1))
  {
  }

  lemma PoppedFirst(n: nat, labels: seq<Label>, s: State)
    requires Reached(n, labels, s)
    ensures s.popped <= s.submitted
  {
    ReachedInv(n, labels, s);
    hide Exec, Exclusive, NoLostWakeup, Tickets, Logged;
  }

  lemma OrderedIsPrefix(s: State)
    requires Ordered(s)
    ensures s.log <= Sequential(s.popped)
  {
    hide Sequential, FullRun;
    SequentialLast(s.popped);
  }

  lemma {:induction false} SequentialPrefix(tasks: seq<Task>, m: nat)
    requires m <= |tasks|
    ensures Sequential(tasks[..m]) <= Sequential(tasks)
    decreases |tasks|
  {
    if m < |tasks| {
      SequentialPrefix(tasks[..|tasks| - 1], m);
      assert tasks[..|tasks| - 1][..m] == tasks[..m];
    } else {
      assert tasks[..m] == tasks;
    }
  }
}
