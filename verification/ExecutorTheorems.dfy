/**
 What callers of the executor can rely on, in every reachable state of every interleaving:
 linearizability, exactly-once completion, conservation of submissions, and progress.
 */
module ExecutorTheorems {
  import opened Wrappers
  import opened Tables
  import opened Executor

  ghost predicate IsReachable(s: State, init: Store) {
    exists capacity: nat, steps :: capacity > 0 && After(Initial(capacity, init), steps) == Some(s)
  }

  lemma ReachableInv(s: State, init: Store)
    requires IsReachable(s, init)
    ensures Inv(s, init)
  {
    var capacity: nat, steps :| capacity > 0 && After(Initial(capacity, init), steps) == Some(s);
    hide Inv;
    Reachable(capacity, init, steps);
  }

  lemma ReachableNext(s: State, init: Store, step: Step)
    requires IsReachable(s, init) && Enabled(s, step)
    ensures IsReachable(Next(s, step), init)
  {
    hide Enabled, Act;
    var capacity: nat, steps :| capacity > 0 && After(Initial(capacity, init), steps) == Some(s);
    assert (steps + [step])[..|steps|] == steps;
    assert After(Initial(capacity, init), steps + [step]) == Some(Next(s, step));
  }

  // ---- Linearizability ----

  predicate Accepted(s: State, n: nat) { n < |s.calls| && s.calls[n].position.Some? }

  /** Call `n` answered what its operation answers at its place in the sequential order, and that
      place lies between its invocation and its reply. */
  ghost predicate TookEffectInTurn(s: State, init: Store, n: nat)
    requires Accepted(s, n) && n in s.answers
  {
    var i := s.calls[n].position.value;
    && i < |s.accepted|
    && s.accepted[i].call == n && s.accepted[i].op == s.calls[n].op
    && s.answers[n].reply == ReplyAt(init, s.accepted, i)
    && s.calls[n].invokedAt < s.accepted[i].at < s.answers[n].at
  }

  /** `a` had its reply before `b` was called. */
  predicate Precedes(s: State, a: nat, b: nat) {
    a in s.answers && b < |s.calls| && s.answers[a].at < s.calls[b].invokedAt
  }

  lemma InTurn(s: State, init: Store, n: nat)
    requires OrderInv(s) && AnswerInv(s, init) && Accepted(s, n) && n in s.answers
    ensures TookEffectInTurn(s, init, n)
  {
    hide StoreAfter, ReplyAt;
    assert s.accepted[s.calls[n].position.value].call == n;
  }

  lemma EarlierInOrder(s: State, i: nat, j: nat)
    requires OrderInv(s) && i < |s.accepted| && j < |s.accepted| && s.accepted[i].at < s.accepted[j].at
    ensures i < j
  {
  }

  lemma RealTimeOrder(s: State, init: Store, a: nat, b: nat)
    requires OrderInv(s) && AnswerInv(s, init)
    requires Accepted(s, a) && Accepted(s, b) && Precedes(s, a, b)
    ensures s.calls[a].position.value < s.calls[b].position.value
  {
    hide StoreAfter, ReplyAt, AnswerInv;
    InTurn(s, init, a);
    var i, j := s.calls[a].position.value, s.calls[b].position.value;
    assert s.accepted[j].call == b && s.calls[b].invokedAt < s.accepted[j].at;
    EarlierInOrder(s, i, j);
  }

  /** One sequential order explains everything: the store is the fold of the operations applied so
      far, each reply is the fold's reply, and a call that began after another had its reply comes
      later in the order. */
  lemma ConcurrentRunsLinearize(s: State, init: Store)
    requires IsReachable(s, init)
    ensures 0 <= Applied(s) <= |s.accepted| && s.store == StoreAfter(init, s.accepted[..Applied(s)])
    ensures forall n | n in s.answers && Accepted(s, n) :: TookEffectInTurn(s, init, n)
    ensures forall n | n in s.answers && !Accepted(s, n) :: Rejection(s.answers[n].reply)
    ensures forall a: nat, b: nat | Precedes(s, a, b) && Accepted(s, a) && Accepted(s, b) ::
              s.calls[a].position.value < s.calls[b].position.value
  {
    ReachableInv(s, init);
    hide IsReachable, StoreAfter, TookEffectInTurn, Precedes, OrderInv, AnswerInv, QueueInv, LockInv, WakeInv;
    forall n | n in s.answers && Accepted(s, n) ensures TookEffectInTurn(s, init, n) {
      InTurn(s, init, n);
    }
    forall a: nat, b: nat | Precedes(s, a, b) && Accepted(s, a) && Accepted(s, b)
      ensures s.calls[a].position.value < s.calls[b].position.value
    {
      RealTimeOrder(s, init, a, b);
    }
  }

  /** A property of the store kept by every accepted operation holds of the store at all times. */
  lemma {:induction false} FoldKeeps(init: Store, tasks: seq<Task>, good: Store -> bool)
    requires good(init)
    requires forall t | t in tasks :: forall st: Store | good(st) :: good(t.op(st).0)
    ensures good(StoreAfter(init, tasks))
  {
    if tasks != [] {
      FoldKeeps(init, tasks[..|tasks| - 1], good);
    }
  }

  lemma StoreKeepsProperty(s: State, init: Store, good: Store -> bool)
    requires IsReachable(s, init) && good(init)
    requires forall n | 0 <= n < |s.calls| :: forall st: Store | good(st) :: good(s.calls[n].op(st).0)
    ensures good(s.store)
  {
    ReachableInv(s, init);
    hide StoreAfter;
    FoldKeeps(init, s.accepted[..Applied(s)], good);
  }

  // ---- Exactly once ----

  predicate Undecided(s: State, n: nat) { InPhase(s, n, Calling) || InPhase(s, n, Deciding) }
  predicate Rejected(s: State, n: nat) { !Accepted(s, n) && n in s.answers }
  predicate Queued(s: State, n: nat) { exists k | 0 <= k < |s.queue| :: s.queue[k].call == n }
  predicate InProgress(s: State, n: nat) { (s.worker.Running? || s.worker.Settling?) && s.worker.task.call == n }
  predicate Completed(s: State, n: nat) { Accepted(s, n) && n in s.answers }

  function Count(b: bool): nat { if b then 1 else 0 }

  /** Position in the acceptance order decides where an accepted call is. */
  lemma PlaceOfAccepted(s: State, init: Store, n: nat)
    requires OrderInv(s) && QueueInv(s) && AnswerInv(s, init) && Accepted(s, n)
    ensures Queued(s, n) <==> s.calls[n].position.value >= Started(s)
    ensures Completed(s, n) <==> s.calls[n].position.value < Answered(s)
    ensures InProgress(s, n) <==> Answered(s) <= s.calls[n].position.value < Started(s)
  {
    hide StoreAfter, ReplyAt;
    var i := s.calls[n].position.value;
    assert s.accepted[i].call == n;
    if i >= Started(s) { assert s.queue[i - Started(s)] == s.accepted[Started(s)..][i - Started(s)]; }
    if k :| 0 <= k < |s.queue| && s.queue[k].call == n {
      assert s.accepted[Started(s)..][k] == s.accepted[Started(s) + k];
    }
  }

  lemma PlaceOfOthers(s: State, n: nat)
    requires OrderInv(s) && QueueInv(s) && CallInv(s) && n < |s.calls| && !Accepted(s, n)
    ensures !Queued(s, n) && !InProgress(s, n) && (Rejected(s, n) <==> !Undecided(s, n))
  {
    forall k | 0 <= k < |s.queue| ensures s.queue[k].call != n {
      assert s.accepted[Started(s)..][k] == s.accepted[Started(s) + k];
    }
  }

  /** Every call is in exactly one place, and pending work never exceeds the capacity. */
  lemma Conservation(s: State, init: Store, n: nat)
    requires IsReachable(s, init) && n < |s.calls|
    ensures Count(Undecided(s, n)) + Count(Rejected(s, n)) + Count(Queued(s, n))
            + Count(InProgress(s, n)) + Count(Completed(s, n)) == 1
    ensures |s.queue| <= s.capacity
  {
    ReachableInv(s, init);
    hide IsReachable, Queued, InProgress, OrderInv, AnswerInv, StoreInv, LockInv, WakeInv;
    if Accepted(s, n) { PlaceOfAccepted(s, init, n); } else { PlaceOfOthers(s, n); }
  }

  lemma RepliesKept(s: State, step: Step, init: Store)
    requires QueueInv(s) && StoreInv(s, init) && OrderInv(s) && CallInv(s) && AnswerInv(s, init)
    requires Enabled(s, step)
    ensures forall n | n in s.answers :: n in Next(s, step).answers && Next(s, step).answers[n] == s.answers[n]
  {
    hide QueueInv, StoreInv, OrderInv, CallInv, AnswerInv;
    if step.Decide? {
      UndecidedNotAccepted(s, step.call);
    } else if step.Deliver? {
      AnswerKeptByDeliver(s, init);
    } else {
      assert Next(s, step).answers == s.answers;
    }
  }

  /** A promise is set at most once: a reply, once out, never changes. */
  lemma RepliesAreFinal(s: State, step: Step, init: Store)
    requires IsReachable(s, init) && Enabled(s, step)
    ensures forall n | n in s.answers :: n in Next(s, step).answers && Next(s, step).answers[n] == s.answers[n]
  {
    hide After, Enabled, Act, Next, LockInv, QueueInv, WakeInv, StoreInv, OrderInv, CallInv, AnswerInv;
    ReachableInv(s, init);
    RepliesKept(s, step, init);
  }

  /** The next operation to run starts only when the one before it has its reply. */
  ghost predicate InOrder(s: State, t: State) {
    && s.accepted <= t.accepted
    && Started(s) <= Started(t) <= Started(s) + 1
    && (Started(t) == Started(s) + 1 ==>
          && Answered(s) == Started(s) && 0 <= Started(s) < |t.accepted|
          && t.worker == Running(t.accepted[Started(s)]))
  }

  lemma InOrderStep(s: State, step: Step)
    requires QueueInv(s) && Enabled(s, step)
    ensures InOrder(s, Next(s, step))
  {
    var t := Next(s, step);
    if step.Test? {
      if s.queue != [] { assert s.accepted[Started(s)] == s.accepted[Started(s)..][0]; }
    } else if step.Decide? {
      assert s.accepted <= t.accepted;
    } else {
      hide QueueInv;
      assert t.accepted == s.accepted && t.queue == s.queue;
    }
  }

  /** Operations start one at a time and in acceptance order. */
  lemma StartsInOrder(s: State, step: Step, init: Store)
    requires IsReachable(s, init) && Enabled(s, step)
    ensures InOrder(s, Next(s, step))
  {
    hide After, Enabled, Act, Next, InOrder, LockInv, QueueInv, WakeInv, StoreInv, OrderInv, CallInv, AnswerInv;
    ReachableInv(s, init);
    InOrderStep(s, step);
  }

  /** Once the stop flag is up nothing more is admitted, whatever runs next. */
  lemma {:induction false} NoneAdmittedAfterStop(s: State, steps: seq<Step>, init: Store)
    requires Inv(s, init) && s.stopping && After(s, steps).Some?
    ensures After(s, steps).value.stopping && After(s, steps).value.accepted == s.accepted
    ensures Inv(After(s, steps).value, init)
  {
    hide Inv;
    if steps != [] {
      NoneAdmittedAfterStop(s, steps[..|steps| - 1], init);
      InvKept(After(s, steps[..|steps| - 1]).value, steps[|steps| - 1], init);
    }
  }

  // ---- Progress ----

  /** If the worker sleeps while there is work, or a stop request, its wakeup is on the way: the
      caller holding the mutex is about to notify, or `Stop` is, after releasing the mutex. */
  lemma NoLostWakeup(s: State, init: Store)
    requires IsReachable(s, init) && s.worker.Asleep?
    ensures s.queue != [] ==> exists n :: s.mutex == Some(Caller(n)) && Enabled(s, Notify(n))
    ensures s.stopping ==> Enabled(s, Unlock) || Enabled(s, NotifyStop)
  {
    ReachableInv(s, init);
    hide IsReachable, StoreInv, CallInv, AnswerInv, OrderInv;
    if s.queue != [] { assert Enabled(s, Notify(s.mutex.value.call)); }
  }

  /** Steps a thread takes by itself. A new call, a call of `Stop`, and a spurious wakeup come from
      outside. */
  predicate Internal(step: Step) { !step.Invoke? && !step.BeginStop? && !step.SpuriousWake? }

  ghost predicate Quiet(s: State) { forall step | Internal(step) :: !Enabled(s, step) }

  lemma CallerHolding(s: State, n: nat)
    requires LockInv(s) && s.mutex == Some(Caller(n))
    ensures InPhase(s, n, Deciding) || InPhase(s, n, Admitted) || InPhase(s, n, Leaving)
  {
  }

  lemma MutexFreeWhenQuiet(s: State)
    requires LockInv(s) && Quiet(s)
    ensures s.mutex.None?
  {
    assert !Enabled(s, Test) && !Enabled(s, RaiseFlag) && !Enabled(s, Unlock);
    forall n: nat ensures !InPhase(s, n, Deciding) && !InPhase(s, n, Admitted) && !InPhase(s, n, Leaving) {
      assert !Enabled(s, Decide(n)) && !Enabled(s, Notify(n)) && !Enabled(s, Return(n));
    }
    if s.mutex.Some? && s.mutex.value.Caller? { CallerHolding(s, s.mutex.value.call); }
  }

  lemma WorkerWhenQuiet(s: State)
    requires LockInv(s) && QueueInv(s) && WakeInv(s) && Quiet(s) && s.mutex.None?
    ensures s.queue == []
    ensures if s.stopper.Idle? then s.worker.Asleep? else s.worker.Exited? && s.stopper.Done?
  {
    assert !Enabled(s, Lock(WorkerThread)) && !Enabled(s, Execute) && !Enabled(s, Deliver) && !Enabled(s, Test);
    assert !Enabled(s, Lock(StopperThread)) && !Enabled(s, NotifyStop);
  }

  lemma CallsWhenQuiet(s: State, n: nat)
    requires Quiet(s) && s.mutex.None? && n < |s.calls|
    ensures s.calls[n].phase.Returned_?
  {
    assert !Enabled(s, Lock(Caller(n))) && !Enabled(s, Decide(n)) && !Enabled(s, Notify(n));
    assert !Enabled(s, Return(n));
  }

  /** No deadlock. When no thread can move, every call has its reply, everything accepted has been
      executed, and the worker has exited if it was told to stop, or else sleeps. */
  lemma QuietMeansDone(s: State, init: Store)
    requires IsReachable(s, init) && Quiet(s)
    ensures s.mutex.None? && s.queue == []
    ensures forall n | 0 <= n < |s.calls| :: s.calls[n].phase.Returned_? && n in s.answers
    ensures s.store == StoreAfter(init, s.accepted)
    ensures if s.stopper.Idle? then s.worker.Asleep? else s.worker.Exited? && s.stopper.Done?
  {
    ReachableInv(s, init);
    hide IsReachable, StoreAfter, Quiet, LockInv, QueueInv, WakeInv, OrderInv, AnswerInv;
    MutexFreeWhenQuiet(s);
    WorkerWhenQuiet(s);
    assert s.accepted[..|s.accepted|] == s.accepted;
    forall n | 0 <= n < |s.calls| ensures s.calls[n].phase.Returned_? && n in s.answers {
      CallsWhenQuiet(s, n);
      if Accepted(s, n) {
        PlaceOfAccepted(s, init, n);
        PositionInRange(s, n);
      }
    }
  }

  lemma PositionInRange(s: State, n: nat)
    requires OrderInv(s) && Accepted(s, n)
    ensures s.calls[n].position.value < |s.accepted|
  {
  }

  // ---- A measure that every internal step lowers ----

  function CallRank(phase: Phase): nat {
    match phase
    case Calling => 20
    case Deciding => 19
    case Admitted => 6
    case Leaving => 1
    case Returned_ => 0
  }

  function WorkerRank(worker: Worker): nat {
    match worker
    case Arriving => 3
    case Testing => 2
    case Asleep => 0
    case Running(_) => 5
    case Settling(_, _) => 4
    case Exited => 0
  }

  function StopperRank(stopper: Stopper): nat {
    match stopper
    case Idle => 0
    case AtLock => 8
    case Holding => 7
    case Flagged => 6
    case Unlocked => 5
    case Done => 0
  }

  function CallRanks(calls: seq<Call>): nat {
    if calls == [] then 0 else CallRanks(calls[..|calls| - 1]) + CallRank(calls[|calls| - 1].phase)
  }

  /** Work left: what remains of each call, each queued task, the worker's round and the stop. */
  function Work(s: State): nat {
    CallRanks(s.calls) + 4 * |s.queue| + WorkerRank(s.worker) + StopperRank(s.stopper)
  }

  lemma {:induction false} CallRanksUpdate(calls: seq<Call>, n: nat, call: Call)
    requires n < |calls|
    ensures CallRanks(calls[n := call]) + CallRank(calls[n].phase) == CallRanks(calls) + CallRank(call.phase)
  {
    var k := |calls| - 1;
    if n == k {
      assert calls[n := call][..k] == calls[..k];
    } else {
      CallRanksUpdate(calls[..k], n, call);
      assert calls[n := call][..k] == calls[..k][n := call];
    }
  }

  /** What a step may add to the work left: nothing, unless it comes from outside. */
  function Added(step: Step): nat {
    match step
    case Invoke(_) => 20
    case BeginStop => 8
    case SpuriousWake => 3
    case _ => 0
  }

  lemma WorkFallsInSubmit(s: State, step: Step)
    requires Enabled(s, step) && InSubmit(step)
    ensures Work(Next(s, step)) < Work(s)
  {
    hide CallRanks;
    var n := if step.Lock? then step.thread.call else step.call;
    CallRanksUpdate(s.calls, n, Next(s, step).calls[n]);
  }

  lemma WorkFalls(s: State, step: Step)
    requires Enabled(s, step)
    ensures Internal(step) ==> Work(Next(s, step)) < Work(s)
    ensures !Internal(step) ==> Work(Next(s, step)) <= Work(s) + Added(step)
  {
    hide CallRanks;
    if InSubmit(step) {
      WorkFallsInSubmit(s, step);
    } else if step.Invoke? {
      CallRanksSnoc(s.calls, Next(s, step).calls[|s.calls|]);
    }
  }

  lemma CallRanksSnoc(calls: seq<Call>, call: Call)
    ensures CallRanks(calls + [call]) == CallRanks(calls) + CallRank(call.phase)
  {
    assert (calls + [call])[..|calls|] == calls;
  }

  function InternalSteps(steps: seq<Step>): nat {
    if steps == [] then 0
    else InternalSteps(steps[..|steps| - 1]) + (if Internal(steps[|steps| - 1]) then 1 else 0)
  }

  function AddedBy(steps: seq<Step>): nat {
    if steps == [] then 0 else AddedBy(steps[..|steps| - 1]) + Added(steps[|steps| - 1])
  }

  /** No run goes on for ever by itself: the threads take at most as many steps as the work there
      was plus what came from outside. With `QuietMeansDone`, every run that is left alone comes to
      an end with everything answered. */
  lemma {:induction false} RunsEnd(s: State, steps: seq<Step>)
    requires After(s, steps).Some?
    ensures InternalSteps(steps) + Work(After(s, steps).value) <= Work(s) + AddedBy(steps)
  {
    hide Work, Enabled, Act;
    if steps != [] {
      RunsEnd(s, steps[..|steps| - 1]);
      WorkFalls(After(s, steps[..|steps| - 1]).value, steps[|steps| - 1]);
    }
  }

  // ---- Draining on shutdown ----

  predicate WorkerStep(step: Step) { step == Lock(WorkerThread) || step.Test? || step.Execute? || step.Deliver? }

  /** A stopping worker that sleeps is about to arrive at the mutex again. */
  function DrainRank(worker: Worker): nat { if worker.Asleep? then WorkerRank(Arriving) else WorkerRank(worker) }

  /** Steps the worker can still take once the stop flag is up, whatever the callers do. */
  function Drain(s: State): nat { 4 * |s.queue| + DrainRank(s.worker) }

  function WorkerSteps(steps: seq<Step>): nat {
    if steps == [] then 0
    else WorkerSteps(steps[..|steps| - 1]) + (if WorkerStep(steps[|steps| - 1]) then 1 else 0)
  }

  lemma DrainFalls(s: State, step: Step)
    requires s.stopping && Enabled(s, step)
    ensures Next(s, step).stopping && Drain(Next(s, step)) <= Drain(s)
    ensures WorkerStep(step) ==> Drain(Next(s, step)) < Drain(s)
  {
  }

  /** Once the stop flag is up the number of steps the worker has left is fixed: calls that keep
      arriving, stray wakeups and every other step leave it as it is, and the worker's own steps use
      it up. */
  lemma {:induction false} WorkerDrains(s: State, steps: seq<Step>)
    requires s.stopping && After(s, steps).Some?
    ensures After(s, steps).value.stopping
    ensures WorkerSteps(steps) + Drain(After(s, steps).value) <= Drain(s)
  {
    hide Drain, Enabled, Act;
    if steps != [] {
      WorkerDrains(s, steps[..|steps| - 1]);
      DrainFalls(After(s, steps[..|steps| - 1]).value, steps[|steps| - 1]);
    }
  }

  /** The step belongs to the thread that holds the mutex. */
  predicate HolderStep(s: State, step: Step) {
    match s.mutex
    case None => false
    case Some(Caller(n)) => step == Decide(n) || step == Notify(n) || step == Return(n)
    case Some(WorkerThread) => step == Test
    case Some(StopperThread) => step == RaiseFlag || step == Unlock
  }

  lemma TowardsExit(s: State) returns (step: Step)
    requires LockInv(s) && WakeInv(s) && s.stopping && !s.worker.Exited?
    ensures Enabled(s, step)
    ensures WorkerStep(step) || HolderStep(s, step) || (s.worker.Asleep? && step == NotifyStop)
  {
    WhoHoldsMutex(s);
    hide LockInv;
    match s.worker
    case Running(_) => step := Execute;
    case Settling(_, _) => step := Deliver;
    case Testing => step := Test;
    case _ =>
      match s.mutex
      case Some(Caller(n)) =>
        CallerHolding(s, n);
        step := if InPhase(s, n, Deciding) then Decide(n) else if InPhase(s, n, Admitted) then Notify(n) else Return(n);
      case Some(_) =>
        step := if s.stopper.Holding? then RaiseFlag else Unlock;
      case None =>
        step := if s.worker.Arriving? then Lock(WorkerThread) else NotifyStop;
  }

  /** Until it has exited, a stopping worker can step, or the thread that keeps it from stepping can:
      the holder of the mutex, or the stopper whose notify is still to come. */
  lemma StoppingWorkerNotStuck(s: State, init: Store) returns (step: Step)
    requires IsReachable(s, init) && s.stopping && !s.worker.Exited?
    ensures Enabled(s, step)
    ensures WorkerStep(step) || HolderStep(s, step) || (s.worker.Asleep? && step == NotifyStop)
  {
    ReachableInv(s, init);
    hide IsReachable, Enabled, LockInv, QueueInv, WakeInv, StoreInv, OrderInv, CallInv, AnswerInv;
    step := TowardsExit(s);
  }

  /** When the worker has exited, the queue is empty, everything accepted has run in order, and every
      accepted call has its reply. */
  lemma ExitedMeansDrained(s: State, init: Store)
    requires IsReachable(s, init) && s.worker.Exited?
    ensures s.stopping && s.queue == [] && s.store == StoreAfter(init, s.accepted)
    ensures forall n | Accepted(s, n) :: n in s.answers
  {
    ReachableInv(s, init);
    hide IsReachable, StoreAfter, LockInv, QueueInv, WakeInv, StoreInv, OrderInv, CallInv, AnswerInv;
    Drained(s, init);
  }

  lemma Drained(s: State, init: Store)
    requires s.worker.Exited? && QueueInv(s) && StoreInv(s, init) && OrderInv(s) && AnswerInv(s, init)
    ensures s.stopping && s.queue == [] && s.store == StoreAfter(init, s.accepted)
    ensures forall n | Accepted(s, n) :: n in s.answers
  {
    hide StoreAfter, OrderInv, AnswerInv;
    assert s.accepted[..|s.accepted|] == s.accepted;
    forall n | Accepted(s, n) ensures n in s.answers {
      PlaceOfAccepted(s, init, n);
      PositionInRange(s, n);
    }
  }
}
