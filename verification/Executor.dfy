/**
 The database executor as a transition system: callers of `Submit`/`AsyncSubmit`, one worker, and
 the destructor's `Stop`, sharing a mutex, a condition variable, a bounded queue and a stop flag.
 A step is what one thread does between two points where another may run. History that the program
 does not keep (acceptance order, times) is carried along to state what callers can rely on.
 */
module Executor {
  import opened Wrappers
  import opened Tables
  import opened ServiceSpec

  // ---- Operations ----

  /** How a queued closure ends. */
  datatype Ending = Returned(reply: Reply) | Threw(what: string) | ThrewUnknown

  /** A submitted operation: what it does to the store, and how it ends. */
  type Closure = Store -> (Store, Ending)

  /** The result the promise receives. */
  function Settle(ending: Ending): Reply {
    match ending
    case Returned(reply) => reply
    case Threw(what) => Err(Error(Storage, what))
    case ThrewUnknown => Err(Error(Storage, "Unknown database worker error"))
  }

  const STOPPING: Reply := Err(Error(Storage, "Database executor is stopping"))
  const FULL: Reply := Err(Error(Overloaded, "Database executor queue is full"))

  // ---- States ----

  datatype Thread = Caller(call: nat) | WorkerThread | StopperThread

  /** Where a caller is inside `Submit`. */
  datatype Phase =
    | Calling       // waiting for the mutex
    | Deciding      // holds it, nothing decided
    | Admitted      // holds it, operation queued, notify_one to come
    | Leaving       // holds it, about to return
    | Returned_     // out of Submit; the reply may still be pending

  datatype Call = Call(op: Closure, invokedAt: nat, phase: Phase, position: Option<nat>)

  datatype Task = Task(call: nat, op: Closure, at: nat)

  datatype Worker =
    | Arriving                      // about to lock, at the loop head or after waking
    | Testing                       // holds the mutex, evaluates the wait condition
    | Asleep                        // released the mutex and blocked, in one atomic step
    | Running(task: Task)           // took a task, mutex released
    | Settling(task: Task, reply: Reply)  // the closure has run, its promise is not set yet
    | Exited

  datatype Stopper =
    | Idle
    | AtLock      // Stop called, waiting for the mutex
    | Holding     // holds it
    | Flagged     // holds it, stop flag set
    | Unlocked    // released it, notify_one to come
    | Done

  datatype Answer = Answer(reply: Reply, at: nat)

  datatype State = State(
    capacity: nat, mutex: Option<Thread>, queue: seq<Task>, stopping: bool,
    worker: Worker, stopper: Stopper, store: Store, calls: seq<Call>, answers: map<nat, Answer>,
    accepted: seq<Task>, clock: nat)

  function Initial(capacity: nat, store: Store): State {
    State(capacity, None, [], false, Arriving, Idle, store, [], map[], [], 0)
  }

  // ---- Steps ----

  datatype Step =
    | Invoke(op: Closure)
    | Lock(thread: Thread)
    | Decide(call: nat)
    | Notify(call: nat)
    | Return(call: nat)
    | Test
    | Execute
    | Deliver
    | SpuriousWake
    | BeginStop
    | RaiseFlag
    | Unlock
    | NotifyStop

  predicate InPhase(s: State, n: nat, phase: Phase) { n < |s.calls| && s.calls[n].phase == phase }

  predicate Enabled(s: State, step: Step) {
    match step
    case Invoke(_) => true
    case Lock(Caller(n)) => s.mutex.None? && InPhase(s, n, Calling)
    case Lock(WorkerThread) => s.mutex.None? && s.worker.Arriving?
    case Lock(StopperThread) => s.mutex.None? && s.stopper.AtLock?
    case Decide(n) => InPhase(s, n, Deciding)
    case Notify(n) => InPhase(s, n, Admitted)
    case Return(n) => InPhase(s, n, Leaving)
    case Test => s.worker.Testing?
    case Execute => s.worker.Running?
    case Deliver => s.worker.Settling?
    case SpuriousWake => s.worker.Asleep?
    case BeginStop => s.stopper.Idle?
    case RaiseFlag => s.stopper.Holding?
    case Unlock => s.stopper.Flagged?
    case NotifyStop => s.stopper.Unlocked?
  }

  /** notify_one: there is one possible sleeper. */
  function Woken(worker: Worker): Worker { if worker.Asleep? then Arriving else worker }

  function Move(s: State, n: nat, phase: Phase): State
    requires n < |s.calls|
  {
    s.(calls := s.calls[n := s.calls[n].(phase := phase)])
  }

  function Reject(s: State, n: nat, reply: Reply): State
    requires n < |s.calls|
  {
    Move(s, n, Leaving).(answers := s.answers[n := Answer(reply, s.clock)])
  }

  function Admit(s: State, n: nat): State
    requires n < |s.calls|
  {
    var task := Task(n, s.calls[n].op, s.clock);
    s.(calls := s.calls[n := s.calls[n].(phase := Admitted, position := Some(|s.accepted|))],
       queue := s.queue + [task], accepted := s.accepted + [task])
  }

  function Act(s: State, step: Step): State
    requires Enabled(s, step)
  {
    match step
    case Invoke(op) => s.(calls := s.calls + [Call(op, s.clock, Calling, None)])
    case Lock(Caller(n)) => Move(s, n, Deciding).(mutex := Some(Caller(n)))
    case Lock(WorkerThread) => s.(worker := Testing, mutex := Some(WorkerThread))
    case Lock(StopperThread) => s.(stopper := Holding, mutex := Some(StopperThread))
    case Decide(n) =>
      if s.stopping then Reject(s, n, STOPPING)
      else if |s.queue| >= s.capacity then Reject(s, n, FULL)
      else Admit(s, n)
    case Notify(n) => Move(s, n, Leaving).(worker := Woken(s.worker))
    case Return(n) => Move(s, n, Returned_).(mutex := None)
    case Test =>
      if !s.stopping && s.queue == [] then s.(worker := Asleep, mutex := None)
      else if s.queue == [] then s.(worker := Exited, mutex := None)
      else s.(worker := Running(s.queue[0]), queue := s.queue[1..], mutex := None)
    case Execute =>
      var (after, ending) := s.worker.task.op(s.store);
      s.(store := after, worker := Settling(s.worker.task, Settle(ending)))
    case Deliver =>
      s.(answers := s.answers[s.worker.task.call := Answer(s.worker.reply, s.clock)], worker := Arriving)
    case SpuriousWake => s.(worker := Arriving)
    case BeginStop => s.(stopper := AtLock)
    case RaiseFlag => s.(stopper := Flagged, stopping := true)
    case Unlock => s.(stopper := Unlocked, mutex := None)
    case NotifyStop => s.(stopper := Done, worker := Woken(s.worker))
  }

  function Next(s: State, step: Step): State
    requires Enabled(s, step)
  {
    Act(s, step).(clock := s.clock + 1)
  }

  /** The state after a sequence of steps, if each was enabled. */
  function After(s: State, steps: seq<Step>): Option<State> {
    if steps == [] then Some(s)
    else match After(s, steps[..|steps| - 1])
         case None => None
         case Some(t) => if Enabled(t, steps[|steps| - 1]) then Some(Next(t, steps[|steps| - 1])) else None
  }

  // ---- The sequential meaning of a list of operations ----

  function StoreAfter(init: Store, tasks: seq<Task>): Store {
    if tasks == [] then init
    else tasks[|tasks| - 1].op(StoreAfter(init, tasks[..|tasks| - 1])).0
  }

  /** What operation `i` answers when the operations run one after another. */
  function ReplyAt(init: Store, tasks: seq<Task>, i: nat): Reply
    requires i < |tasks|
  {
    Settle(tasks[i].op(StoreAfter(init, tasks[..i])).1)
  }

  function Started(s: State): int { |s.accepted| - |s.queue| }

  /** Operations whose effect is in the store. */
  function Applied(s: State): int { if s.worker.Running? then Started(s) - 1 else Started(s) }

  /** Operations whose reply is out. */
  function Answered(s: State): int {
    if s.worker.Running? || s.worker.Settling? then Started(s) - 1 else Started(s)
  }

  // ---- Invariants ----

  predicate HoldsMutex(phase: Phase) { phase.Deciding? || phase.Admitted? || phase.Leaving? }

  ghost predicate LockInv(s: State) {
    && (forall n | 0 <= n < |s.calls| :: s.mutex == Some(Caller(n)) <==> HoldsMutex(s.calls[n].phase))
    && (s.mutex.Some? && s.mutex.value.Caller? ==> s.mutex.value.call < |s.calls|)
    && (s.mutex == Some(WorkerThread) <==> s.worker.Testing?)
    && (s.mutex == Some(StopperThread) <==> s.stopper.Holding? || s.stopper.Flagged?)
    && (s.stopping <==> s.stopper.Flagged? || s.stopper.Unlocked? || s.stopper.Done?)
  }

  /** The queue is the tail of everything accepted; at most one task is out of it and unfinished. */
  ghost predicate QueueInv(s: State) {
    && |s.queue| <= s.capacity && |s.queue| <= |s.accepted|
    && s.accepted[Started(s)..] == s.queue
    && (s.worker.Running? || s.worker.Settling? ==>
          Started(s) > 0 && s.accepted[Started(s) - 1] == s.worker.task)
    && (s.worker.Exited? ==> s.stopping && s.queue == [])
  }

  predicate NotifyPending(s: State) {
    s.mutex.Some? && s.mutex.value.Caller? && InPhase(s, s.mutex.value.call, Admitted)
  }

  /** No lost wakeup: work or a stop request that a sleeping worker has not seen is about to be
      announced by the thread that produced it. */
  ghost predicate WakeInv(s: State) {
    s.worker.Asleep? ==>
      && (s.queue != [] ==> NotifyPending(s))
      && (s.stopping ==> s.stopper.Flagged? || s.stopper.Unlocked?)
  }

  /** The store is the fold of the applied operations; a finished closure holds the fold's reply. */
  ghost predicate StoreInv(s: State, init: Store) {
    && 0 <= Applied(s) <= |s.accepted|
    && s.store == StoreAfter(init, s.accepted[..Applied(s)])
    && (s.worker.Settling? ==> Started(s) > 0 && s.worker.reply == ReplyAt(init, s.accepted, Started(s) - 1))
  }

  /** Acceptance order, recorded both ways, with times strictly increasing. */
  ghost predicate OrderInv(s: State) {
    && (forall i | 0 <= i < |s.accepted| ::
          && s.accepted[i].call < |s.calls|
          && s.calls[s.accepted[i].call].position == Some(i)
          && s.calls[s.accepted[i].call].op == s.accepted[i].op
          && s.calls[s.accepted[i].call].invokedAt < s.accepted[i].at < s.clock)
    && (forall i, j | 0 <= i < j < |s.accepted| :: s.accepted[i].at < s.accepted[j].at)
    && (forall n | 0 <= n < |s.calls| ::
          && s.calls[n].invokedAt < s.clock
          && (s.calls[n].position.Some? ==>
                && s.calls[n].position.value < |s.accepted|
                && s.accepted[s.calls[n].position.value].call == n))
  }

  predicate Rejection(reply: Reply) { reply == STOPPING || reply == FULL }

  /** A call that was not accepted has a reply exactly from its rejection on. */
  ghost predicate CallInv(s: State) {
    && (forall n | n in s.answers :: n < |s.calls| && s.calls[n].invokedAt < s.answers[n].at < s.clock)
    && (forall n | 0 <= n < |s.calls| && s.calls[n].position.None? ::
          && (n in s.answers <==> s.calls[n].phase.Leaving? || s.calls[n].phase.Returned_?)
          && (n in s.answers ==> Rejection(s.answers[n].reply))
          && !s.calls[n].phase.Admitted?)
    && (forall n | 0 <= n < |s.calls| && s.calls[n].position.Some? ::
          s.calls[n].phase.Admitted? || s.calls[n].phase.Leaving? || s.calls[n].phase.Returned_?)
  }

  /** An accepted call has a reply exactly once its turn is over, and it is the fold's reply. */
  ghost predicate AnswerInv(s: State, init: Store) {
    forall i | 0 <= i < |s.accepted| ::
      && (s.accepted[i].call in s.answers <==> i < Answered(s))
      && (s.accepted[i].call in s.answers ==>
            && s.accepted[i].at < s.answers[s.accepted[i].call].at
            && s.answers[s.accepted[i].call].reply == ReplyAt(init, s.accepted, i))
  }

  ghost predicate Inv(s: State, init: Store) {
    && s.capacity > 0
    && LockInv(s) && QueueInv(s) && WakeInv(s) && StoreInv(s, init) && OrderInv(s) && CallInv(s) && AnswerInv(s, init)
  }

  lemma InitialInv(capacity: nat, init: Store)
    requires capacity > 0
    ensures Inv(Initial(capacity, init), init)
  {
  }

  predicate CallerHolds(s: State) { s.mutex.Some? && s.mutex.value.Caller? }

  /** A caller enters its critical section, moves inside it, or leaves it. */
  lemma LockKeptByCaller(s: State, t: State, n: nat)
    requires LockInv(s) && n < |s.calls| == |t.calls| && (s.mutex.None? || s.mutex == Some(Caller(n)))
    requires forall k | 0 <= k < |s.calls| && k != n :: t.calls[k] == s.calls[k]
    requires t.mutex == if HoldsMutex(t.calls[n].phase) then Some(Caller(n)) else None
    requires t.worker.Testing? == s.worker.Testing? && t.stopper == s.stopper && t.stopping == s.stopping
    ensures LockInv(t)
  {
  }

  /** The worker or the stopper moves, or a call arrives. */
  lemma LockKeptByOthers(s: State, t: State)
    requires LockInv(s) && |s.calls| <= |t.calls|
    requires forall k | 0 <= k < |s.calls| :: t.calls[k] == s.calls[k]
    requires forall k | |s.calls| <= k < |t.calls| :: t.calls[k].phase.Calling?
    requires t.mutex == s.mutex || !(CallerHolds(s) || CallerHolds(t))
    requires t.mutex == Some(WorkerThread) <==> t.worker.Testing?
    requires t.mutex == Some(StopperThread) <==> t.stopper.Holding? || t.stopper.Flagged?
    requires t.stopping <==> t.stopper.Flagged? || t.stopper.Unlocked? || t.stopper.Done?
    ensures LockInv(t)
  {
  }

  lemma WhoHoldsMutex(s: State)
    requires LockInv(s)
    ensures s.mutex == Some(WorkerThread) <==> s.worker.Testing?
    ensures s.mutex == Some(StopperThread) <==> s.stopper.Holding? || s.stopper.Flagged?
    ensures s.stopping <==> s.stopper.Flagged? || s.stopper.Unlocked? || s.stopper.Done?
    ensures forall n | 0 <= n < |s.calls| && HoldsMutex(s.calls[n].phase) :: s.mutex == Some(Caller(n))
  {
  }

  predicate InSubmit(step: Step) {
    step.Decide? || step.Notify? || step.Return? || (step.Lock? && step.thread.Caller?)
  }

  lemma LockKeptInSubmit(s: State, step: Step)
    requires LockInv(s) && Enabled(s, step) && InSubmit(step)
    ensures LockInv(Next(s, step))
  {
    WhoHoldsMutex(s);
    hide LockInv;
    LockKeptByCaller(s, Next(s, step), if step.Lock? then step.thread.call else step.call);
  }

  lemma LockKept(s: State, step: Step)
    requires LockInv(s) && Enabled(s, step)
    ensures LockInv(Next(s, step))
  {
    WhoHoldsMutex(s);
    hide LockInv;
    if InSubmit(step) {
      LockKeptInSubmit(s, step);
    } else {
      LockKeptByOthers(s, Next(s, step));
    }
  }

  lemma QueueKeptByAdmit(s: State, n: nat)
    requires QueueInv(s) && n < |s.calls| && |s.queue| < s.capacity && !s.stopping
    ensures QueueInv(Admit(s, n).(clock := s.clock + 1))
  {
    var t := Admit(s, n);
    assert t.accepted[Started(s)..] == s.accepted[Started(s)..] + [t.accepted[|s.accepted|]];
  }

  lemma QueueKeptByTest(s: State)
    requires QueueInv(s) && s.worker.Testing?
    ensures QueueInv(Next(s, Test))
  {
    if s.queue != [] {
      assert s.accepted[Started(s)] == s.accepted[Started(s)..][0];
      assert s.accepted[Started(s) + 1..] == s.accepted[Started(s)..][1..];
    }
  }

  lemma QueueKeptOtherwise(s: State, t: State)
    requires QueueInv(s) && t.accepted == s.accepted && t.queue == s.queue && t.capacity == s.capacity
    requires t.worker.Running? || t.worker.Settling? ==> (s.worker.Running? || s.worker.Settling?) && t.worker.task == s.worker.task
    requires t.worker.Exited? ==> s.worker.Exited? && t.stopping == s.stopping
    ensures QueueInv(t)
  {
  }

  lemma QueueKept(s: State, step: Step)
    requires LockInv(s) && QueueInv(s) && Enabled(s, step)
    ensures QueueInv(Next(s, step))
  {
    WhoHoldsMutex(s);
    hide LockInv;
    if s.worker.Exited? { ExitedMeansStopping(s); }
    hide QueueInv;
    if step.Decide? && !s.stopping && |s.queue| < s.capacity {
      QueueKeptByAdmit(s, step.call);
    } else if step.Test? {
      QueueKeptByTest(s);
    } else {
      QueueKeptOtherwise(s, Next(s, step));
    }
  }

  lemma ExitedMeansStopping(s: State)
    requires QueueInv(s) && s.worker.Exited?
    ensures s.stopping
  {
  }

  lemma WakeKept(s: State, step: Step)
    requires LockInv(s) && WakeInv(s) && Enabled(s, step)
    ensures WakeInv(Next(s, step))
  {
  }

  lemma StoreKeptByAdmit(s: State, n: nat, init: Store)
    requires QueueInv(s) && StoreInv(s, init) && n < |s.calls|
    ensures StoreInv(Admit(s, n).(clock := s.clock + 1), init)
  {
    hide StoreAfter;
    var t := Admit(s, n);
    assert t.accepted[..Applied(s)] == s.accepted[..Applied(s)];
    if s.worker.Settling? { ReplyPrefix(init, s.accepted, t.accepted, Started(s) - 1); }
  }

  lemma StoreKeptByExecute(s: State, init: Store)
    requires QueueInv(s) && StoreInv(s, init) && s.worker.Running?
    ensures StoreInv(Next(s, Execute), init)
  {
    hide StoreAfter;
    var k := Applied(s);
    assert s.accepted[..k + 1] == s.accepted[..k] + [s.worker.task];
    StoreAfterSnoc(init, s.accepted[..k], s.worker.task);
  }

  lemma StoreKeptOtherwise(s: State, t: State, init: Store)
    requires StoreInv(s, init) && s.accepted == t.accepted && s.store == t.store && Applied(s) == Applied(t)
    requires t.worker.Settling? ==> t.worker == s.worker && t.queue == s.queue
    ensures StoreInv(t, init)
  {
    hide StoreAfter;
  }

  lemma StoreKept(s: State, step: Step, init: Store)
    requires LockInv(s) && QueueInv(s) && StoreInv(s, init) && Enabled(s, step)
    ensures StoreInv(Next(s, step), init)
  {
    hide QueueInv, StoreInv;
    if step.Decide? && !s.stopping && |s.queue| < s.capacity {
      StoreKeptByAdmit(s, step.call, init);
    } else if step.Execute? {
      StoreKeptByExecute(s, init);
    } else {
      StoreKeptOtherwise(s, Next(s, step), init);
    }
  }

  lemma StoreAfterSnoc(init: Store, tasks: seq<Task>, task: Task)
    ensures StoreAfter(init, tasks + [task]) == task.op(StoreAfter(init, tasks)).0
  {
    assert (tasks + [task])[..|tasks|] == tasks;
  }

  /** What operation `i` answers does not depend on the operations accepted after it. */
  lemma ReplyPrefix(init: Store, tasks: seq<Task>, longer: seq<Task>, i: nat)
    requires i < |tasks| <= |longer| && longer[..|tasks|] == tasks
    ensures ReplyAt(init, longer, i) == ReplyAt(init, tasks, i)
  {
    assert longer[..i] == tasks[..i];
    assert longer[i] == longer[..|tasks|][i];
  }

  /** Steps that leave calls and acceptance alone, or only move a call between phases. */
  lemma OrderKeptByMove(s: State, t: State)
    requires OrderInv(s) && s.accepted == t.accepted && s.clock <= t.clock && |s.calls| == |t.calls|
    requires forall n | 0 <= n < |s.calls| :: t.calls[n] == s.calls[n].(phase := t.calls[n].phase)
    ensures OrderInv(t)
  {
  }

  lemma OrderKeptByAdmit(s: State, n: nat)
    requires OrderInv(s) && n < |s.calls| && s.calls[n].position.None?
    ensures OrderInv(Admit(s, n).(clock := s.clock + 1))
  {
    var t := Admit(s, n);
    forall i | 0 <= i < |s.accepted| ensures s.accepted[i].call != n {
    }
  }

  lemma OrderKeptByInvoke(s: State, op: Closure)
    requires OrderInv(s)
    ensures OrderInv(Act(s, Invoke(op)).(clock := s.clock + 1))
  {
  }

  lemma OrderKept(s: State, step: Step, init: Store)
    requires Inv(s, init) && Enabled(s, step)
    ensures OrderInv(Next(s, step))
  {
    hide LockInv, QueueInv, WakeInv, StoreInv, OrderInv;
    if step.Invoke? {
      OrderKeptByInvoke(s, step.op);
    } else if step.Decide? && !s.stopping && |s.queue| < s.capacity {
      UndecidedNotAccepted(s, step.call);
      OrderKeptByAdmit(s, step.call);
    } else {
      OrderKeptByMove(s, Next(s, step));
    }
  }

  lemma UndecidedNotAccepted(s: State, n: nat)
    requires CallInv(s) && InPhase(s, n, Deciding)
    ensures s.calls[n].position.None? && n !in s.answers
  {
  }

  /** How the calls of two states may differ when nothing is decided in between. */
  ghost predicate OnlyPhasesMove(s: State, t: State) {
    && |s.calls| == |t.calls|
    && (forall n | 0 <= n < |s.calls| ::
          && t.calls[n] == s.calls[n].(phase := t.calls[n].phase)
          && (t.calls[n].phase == s.calls[n].phase
              || (s.calls[n].phase.Calling? && t.calls[n].phase.Deciding?)
              || (s.calls[n].phase.Admitted? && t.calls[n].phase.Leaving?)
              || (s.calls[n].phase.Leaving? && t.calls[n].phase.Returned_?)))
  }

  lemma CallKeptByMove(s: State, t: State)
    requires CallInv(s) && OnlyPhasesMove(s, t) && s.clock <= t.clock && s.answers == t.answers
    ensures CallInv(t)
  {
  }

  lemma CallKeptByInvoke(s: State, op: Closure)
    requires CallInv(s)
    ensures CallInv(Act(s, Invoke(op)).(clock := s.clock + 1))
  {
    assert |s.calls| !in s.answers;
  }

  lemma CallKeptByReject(s: State, n: nat, reply: Reply)
    requires CallInv(s) && OrderInv(s) && InPhase(s, n, Deciding) && Rejection(reply)
    ensures CallInv(Reject(s, n, reply).(clock := s.clock + 1))
  {
    UndecidedNotAccepted(s, n);
  }

  lemma CallKeptByAdmit(s: State, n: nat)
    requires CallInv(s) && InPhase(s, n, Deciding)
    ensures CallInv(Admit(s, n).(clock := s.clock + 1))
  {
    UndecidedNotAccepted(s, n);
  }

  lemma CallKeptByDeliver(s: State)
    requires CallInv(s) && OrderInv(s) && QueueInv(s) && s.worker.Settling?
    ensures CallInv(Act(s, Deliver).(clock := s.clock + 1))
  {
    TaskIsAccepted(s);
    hide OrderInv, QueueInv;
  }

  lemma TaskIsAccepted(s: State)
    requires OrderInv(s) && QueueInv(s) && (s.worker.Running? || s.worker.Settling?)
    ensures var n := s.worker.task.call;
            n < |s.calls| && s.calls[n].position == Some(Started(s) - 1) && s.calls[n].invokedAt < s.clock
  {
    assert s.accepted[Started(s) - 1] == s.worker.task;
  }

  lemma PhasesMove(s: State, step: Step)
    requires Enabled(s, step) && !step.Invoke? && !step.Decide? && !step.Deliver?
    ensures OnlyPhasesMove(s, Next(s, step)) && Next(s, step).answers == s.answers
  {
  }

  lemma CallKept(s: State, step: Step, init: Store)
    requires Inv(s, init) && Enabled(s, step)
    ensures CallInv(Next(s, step))
  {
    hide LockInv, QueueInv, WakeInv, StoreInv, OrderInv, CallInv, AnswerInv;
    match step
    case Invoke(op) => CallKeptByInvoke(s, op);
    case Decide(n) =>
      if s.stopping { CallKeptByReject(s, n, STOPPING); }
      else if |s.queue| >= s.capacity { CallKeptByReject(s, n, FULL); }
      else { CallKeptByAdmit(s, n); }
    case Deliver => CallKeptByDeliver(s);
    case _ =>
      PhasesMove(s, step);
      hide OnlyPhasesMove;
      CallKeptByMove(s, Next(s, step));
  }

  lemma AnswerKeptByAdmit(s: State, n: nat, init: Store)
    requires AnswerInv(s, init) && QueueInv(s) && n < |s.calls| && n !in s.answers
    ensures AnswerInv(Admit(s, n).(clock := s.clock + 1), init)
  {
    hide ReplyAt;
    var t := Admit(s, n);
    forall i | 0 <= i < |s.accepted| ensures ReplyAt(init, t.accepted, i) == ReplyAt(init, s.accepted, i) {
      ReplyPrefix(init, s.accepted, t.accepted, i);
    }
  }

  lemma AnswerKeptByReject(s: State, n: nat, reply: Reply, init: Store)
    requires AnswerInv(s, init) && OrderInv(s) && n < |s.calls| && s.calls[n].position.None?
    ensures AnswerInv(Reject(s, n, reply).(clock := s.clock + 1), init)
  {
    hide ReplyAt;
    forall i | 0 <= i < |s.accepted| ensures s.accepted[i].call != n {
    }
  }

  /** Setting the promise: it was not set before, and it gets the fold's reply. */
  lemma AnswerKeptByDeliver(s: State, init: Store)
    requires AnswerInv(s, init) && OrderInv(s) && QueueInv(s) && StoreInv(s, init) && s.worker.Settling?
    ensures s.worker.task.call !in s.answers
    ensures AnswerInv(Act(s, Deliver).(clock := s.clock + 1), init)
  {
    hide ReplyAt, StoreAfter;
    var k := Started(s) - 1;
    assert s.accepted[k] == s.worker.task;
    forall i | 0 <= i < |s.accepted| && i != k ensures s.accepted[i].call != s.worker.task.call {
      assert s.calls[s.accepted[i].call].position == Some(i);
    }
  }

  lemma AnswerKeptOtherwise(s: State, t: State, init: Store)
    requires AnswerInv(s, init) && s.accepted == t.accepted && s.answers == t.answers && Answered(s) == Answered(t)
    ensures AnswerInv(t, init)
  {
    hide ReplyAt;
  }

  lemma AnswerKept(s: State, step: Step, init: Store)
    requires Inv(s, init) && Enabled(s, step)
    ensures AnswerInv(Next(s, step), init)
  {
    hide LockInv, QueueInv, WakeInv, StoreInv, OrderInv, CallInv, AnswerInv;
    match step
    case Decide(n) =>
      UndecidedNotAccepted(s, n);
      if s.stopping { AnswerKeptByReject(s, n, STOPPING, init); }
      else if |s.queue| >= s.capacity { AnswerKeptByReject(s, n, FULL, init); }
      else { AnswerKeptByAdmit(s, n, init); }
    case Deliver => AnswerKeptByDeliver(s, init);
    case _ => AnswerKeptOtherwise(s, Next(s, step), init);
  }

  /** Every step keeps every invariant. */
  lemma InvKept(s: State, step: Step, init: Store)
    requires Inv(s, init) && Enabled(s, step)
    ensures Inv(Next(s, step), init)
  {
    hide LockInv, QueueInv, WakeInv, StoreInv, OrderInv, CallInv, AnswerInv;
    LockKept(s, step);
    QueueKept(s, step);
    WakeKept(s, step);
    StoreKept(s, step, init);
    OrderKept(s, step, init);
    CallKept(s, step, init);
    AnswerKept(s, step, init);
  }

  lemma {:induction false} Reachable(capacity: nat, init: Store, steps: seq<Step>)
    requires capacity > 0
    ensures match After(Initial(capacity, init), steps)
            case None => true
            case Some(s) => Inv(s, init)
  {
    hide Inv;
    if steps == [] {
      InitialInv(capacity, init);
    } else {
      Reachable(capacity, init, steps[..|steps| - 1]);
      var before := After(Initial(capacity, init), steps[..|steps| - 1]);
      if before.Some? && Enabled(before.value, steps[|steps| - 1]) {
        InvKept(before.value, steps[|steps| - 1], init);
      }
    }
  }
}
