/** Stretches of a run in which one thread at a time moves, to build runs that end in a given state. */
module Scenarios {
  import opened Wrappers
  import opened Tables
  import opened ServiceSpec
  import opened Executor
  import opened ExecutorTheorems
  import opened Admission

  /** A call is admitted and its caller leaves, while the worker stays where it is. */
  function Submitted(s: State, op: Closure): State {
    var task := Task(|s.calls|, op, s.clock + 2);
    s.(calls := s.calls + [Call(op, s.clock, Returned_, Some(|s.accepted|))],
       queue := s.queue + [task], accepted := s.accepted + [task], clock := s.clock + 5)
  }

  lemma Submitting(s: State, init: Store, op: Closure)
    requires IsReachable(s, init) && s.mutex.None? && s.worker.Arriving? && VerdictOf(s) == Verdict.Admit
    ensures IsReachable(Submitted(s, op), init)
  {
    hide IsReachable;
    var n := |s.calls|;
    var called := Next(s, Invoke(op));
    ReachableNext(s, init, Invoke(op));
    var deciding := Next(called, Lock(Caller(n)));
    ReachableNext(called, init, Lock(Caller(n)));
    var admitted := Next(deciding, Decide(n));
    ReachableNext(deciding, init, Decide(n));
    var leaving := Next(admitted, Notify(n));
    ReachableNext(admitted, init, Notify(n));
    ReachableNext(leaving, init, Return(n));
    assert Next(leaving, Return(n)).calls == Submitted(s, op).calls;
  }

  /** The worker takes the first task, runs it, and sets its promise. */
  function Served(s: State): State
    requires s.queue != []
  {
    var task := s.queue[0];
    s.(queue := s.queue[1..], store := task.op(s.store).0, clock := s.clock + 4,
       answers := s.answers[task.call := Answer(Settle(task.op(s.store).1), s.clock + 3)])
  }

  lemma Serving(s: State, init: Store)
    requires IsReachable(s, init) && s.mutex.None? && s.worker.Arriving? && s.queue != []
    ensures IsReachable(Served(s), init)
  {
    hide IsReachable;
    var testing := Next(s, Lock(WorkerThread));
    ReachableNext(s, init, Lock(WorkerThread));
    var running := Next(testing, Test);
    ReachableNext(testing, init, Test);
    var settling := Next(running, Execute);
    ReachableNext(running, init, Execute);
    ReachableNext(settling, init, Deliver);
  }

  /** A call is turned away; its caller still holds the mutex. */
  function Refused(s: State, op: Closure, reply: Reply): State {
    var n := |s.calls|;
    s.(calls := s.calls + [Call(op, s.clock, Leaving, None)], mutex := Some(Caller(n)),
       answers := s.answers[n := Answer(reply, s.clock + 2)], clock := s.clock + 3)
  }

  /** From any reachable state with the mutex free, a call made at a full queue or under the stop flag
      can be turned away at once; what was accepted before stays accepted. */
  lemma Refusing(s: State, init: Store, op: Closure)
    requires IsReachable(s, init) && s.mutex.None? && VerdictOf(s).TurnedAway?
    ensures IsReachable(Refused(s, op, VerdictOf(s).reply), init)
  {
    hide IsReachable;
    var n := |s.calls|;
    var called := Next(s, Invoke(op));
    ReachableNext(s, init, Invoke(op));
    var deciding := Next(called, Lock(Caller(n)));
    ReachableNext(called, init, Lock(Caller(n)));
    ReachableNext(deciding, init, Decide(n));
    assert Next(deciding, Decide(n)).calls == Refused(s, op, VerdictOf(s).reply).calls;
  }

  /** `Stop` runs up to the point where it has released the mutex. */
  function Stopping(s: State): State { s.(stopping := true, stopper := Unlocked, clock := s.clock + 4) }

  lemma StopRequested(s: State, init: Store)
    requires IsReachable(s, init) && s.mutex.None? && s.stopper.Idle?
    ensures IsReachable(Stopping(s), init)
  {
    hide IsReachable;
    var atLock := Next(s, BeginStop);
    ReachableNext(s, init, BeginStop);
    var holding := Next(atLock, Lock(StopperThread));
    ReachableNext(atLock, init, Lock(StopperThread));
    var flagged := Next(holding, RaiseFlag);
    ReachableNext(holding, init, RaiseFlag);
    ReachableNext(flagged, init, Unlock);
  }

  /** `t` is `s` with `k` more calls of `op` waiting in the queue. */
  ghost predicate Filled(s: State, op: Closure, k: nat, t: State) {
    && |t.calls| == |s.calls| + k && t.calls[..|s.calls|] == s.calls
    && (forall n | |s.calls| <= n < |t.calls| :: t.calls[n].op == op)
    && |t.queue| == |s.queue| + k
    && t == s.(calls := t.calls, queue := t.queue, accepted := t.accepted, clock := s.clock + 5 * k)
  }

  lemma {:induction false} Filling(s: State, init: Store, op: Closure, k: nat) returns (t: State)
    requires IsReachable(s, init) && s.mutex.None? && s.worker.Arriving? && !s.stopping
    requires |s.queue| + k <= s.capacity
    ensures IsReachable(t, init) && Filled(s, op, k, t)
  {
    hide IsReachable;
    if k == 0 {
      t := s;
    } else {
      var before := Filling(s, init, op, k - 1);
      Submitting(before, init, op);
      t := Submitted(before, op);
    }
  }

  lemma Starting(capacity: nat, init: Store)
    requires capacity > 0
    ensures IsReachable(Initial(capacity, init), init)
  {
    assert After(Initial(capacity, init), []) == Some(Initial(capacity, init));
  }

  /** A first call is served, alone, from the start. */
  function FirstServed(capacity: nat, init: Store, op: Closure): State {
    Served(Submitted(Initial(capacity, init), op))
  }

  lemma FirstServing(capacity: nat, init: Store, op: Closure)
    requires capacity > 0
    ensures IsReachable(FirstServed(capacity, init, op), init)
  {
    hide IsReachable;
    Starting(capacity, init);
    Submitting(Initial(capacity, init), init, op);
    Serving(Submitted(Initial(capacity, init), op), init);
  }
}
