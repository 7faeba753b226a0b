/**
 The moment a call is decided. Under the mutex, with one look at the stop flag and the queue, a call
 is admitted or turned away; what is decided then is what the caller gets.
 */
module Admission {
  import opened Wrappers
  import opened Tables
  import opened ServiceSpec
  import opened Executor
  import opened ExecutorTheorems

  /** `steps` lead from a start with this capacity and store to `s`. */
  ghost predicate Run(capacity: nat, init: Store, steps: seq<Step>, s: State) {
    capacity > 0 && After(Initial(capacity, init), steps) == Some(s)
  }

  /** Call `n` is past its decision. */
  predicate Decided(s: State, n: nat) { InPhase(s, n, Admitted) || InPhase(s, n, Leaving) || InPhase(s, n, Returned_) }

  datatype Verdict = Admit | TurnedAway(reply: Reply)

  /** What the stop flag and the queue of `t` decide. */
  function VerdictOf(t: State): Verdict {
    if t.stopping then TurnedAway(STOPPING)
    else if |t.queue| >= t.capacity then TurnedAway(FULL)
    else Admit
  }

  /** Call `n` has the outcome that was decided. */
  predicate Stands(s: State, n: nat, verdict: Verdict) {
    && Decided(s, n)
    && match verdict
       case Admit => Accepted(s, n)
       case TurnedAway(reply) => !Accepted(s, n) && n in s.answers && s.answers[n].reply == reply
  }

  /** The state in which step `k` of the run was taken. */
  ghost function Before(capacity: nat, init: Store, steps: seq<Step>, k: nat): State {
    match After(Initial(capacity, init), if k < |steps| then steps[..k] else steps)
    case None => Initial(capacity, init)
    case Some(t) => t
  }

  ghost predicate DecidedAt(capacity: nat, init: Store, steps: seq<Step>, n: nat, k: nat) {
    k < |steps| && steps[k] == Decide(n) && InPhase(Before(capacity, init, steps, k), n, Deciding)
  }

  /** The call was decided while the queue was full and no stop had been asked for. */
  ghost predicate MetFullQueue(capacity: nat, init: Store, steps: seq<Step>, n: nat) {
    exists k: nat ::
      && DecidedAt(capacity, init, steps, n, k)
      && var t := Before(capacity, init, steps, k);
         !t.stopping && |t.queue| >= t.capacity
  }

  /** The call was decided while the stop flag was up. */
  ghost predicate MetStopFlag(capacity: nat, init: Store, steps: seq<Step>, n: nat) {
    exists k: nat :: DecidedAt(capacity, init, steps, n, k) && Before(capacity, init, steps, k).stopping
  }

  lemma DecideSettles(s: State, n: nat)
    requires CallInv(s) && InPhase(s, n, Deciding)
    ensures Stands(Next(s, Decide(n)), n, VerdictOf(s))
  {
    UndecidedNotAccepted(s, n);
  }

  lemma DecidedCall(s: State, n: nat)
    requires Decided(s, n)
    ensures n < |s.calls|
  {
  }

  lemma PositionKept(s: State, step: Step, n: nat)
    requires Enabled(s, step) && Decided(s, n)
    ensures Decided(Next(s, step), n) && Next(s, step).calls[n].position == s.calls[n].position
  {
  }

  /** A later step decides nothing again for a call that is decided. */
  lemma StandsOn(s: State, step: Step, init: Store, n: nat, verdict: Verdict)
    requires Inv(s, init) && Enabled(s, step) && Stands(s, n, verdict)
    ensures Stands(Next(s, step), n, verdict)
  {
    hide LockInv, QueueInv, WakeInv, StoreInv, OrderInv, CallInv, AnswerInv, Enabled, Act, Decided;
    RepliesKept(s, step, init);
    PositionKept(s, step, n);
    DecidedCall(s, n);
    DecidedCall(Next(s, step), n);
  }

  lemma EarlierRun(capacity: nat, init: Store, steps: seq<Step>, s: State) returns (before: State)
    requires Run(capacity, init, steps, s) && steps != []
    ensures Run(capacity, init, steps[..|steps| - 1], before) && Inv(before, init)
    ensures Enabled(before, steps[|steps| - 1]) && s == Next(before, steps[|steps| - 1])
  {
    hide Inv, Enabled, Act;
    Reachable(capacity, init, steps[..|steps| - 1]);
    before := After(Initial(capacity, init), steps[..|steps| - 1]).value;
  }

  lemma SameBefore(capacity: nat, init: Store, steps: seq<Step>, m: nat, k: nat)
    requires k < m <= |steps|
    ensures Before(capacity, init, steps[..m], k) == Before(capacity, init, steps, k)
  {
    assert steps[..m][..k] == steps[..k];
  }

  /** A decision is final: whatever runs afterwards, the call has the outcome that the stop flag and
      the queue gave it when it was decided. */
  lemma {:induction false} DecisionStands(capacity: nat, init: Store, steps: seq<Step>, s: State, n: nat, k: nat)
    requires Run(capacity, init, steps, s) && DecidedAt(capacity, init, steps, n, k)
    ensures Stands(s, n, VerdictOf(Before(capacity, init, steps, k)))
    decreases |steps|
  {
    hide After, Inv, Enabled, Act, VerdictOf, Stands;
    var before := EarlierRun(capacity, init, steps, s);
    var m := |steps| - 1;
    if k == m {
      CallsAreSound(before, init);
      DecideSettles(before, n);
    } else {
      SameBefore(capacity, init, steps, m, k);
      DecisionStands(capacity, init, steps[..m], before, n, k);
      StandsOn(before, steps[m], init, n, VerdictOf(Before(capacity, init, steps, k)));
    }
  }

  lemma CallsAreSound(s: State, init: Store)
    requires Inv(s, init)
    ensures CallInv(s)
  {
  }

  /** Only a decision takes a call past its decision. */
  lemma OnlyDecideDecides(s: State, step: Step, n: nat)
    requires Enabled(s, step) && Decided(Next(s, step), n) && !Decided(s, n)
    ensures step == Decide(n) && InPhase(s, n, Deciding)
  {
  }

  lemma {:induction false} DecisionExists(capacity: nat, init: Store, steps: seq<Step>, s: State, n: nat) returns (k: nat)
    requires Run(capacity, init, steps, s) && Decided(s, n)
    ensures DecidedAt(capacity, init, steps, n, k)
    decreases |steps|
  {
    hide Inv, Enabled, Act, Decided;
    if steps == [] {
      NothingDecidedYet(capacity, init, n);
    } else {
      var before := EarlierRun(capacity, init, steps, s);
      var m := |steps| - 1;
      if Decided(before, n) {
        k := DecisionExists(capacity, init, steps[..m], before, n);
        SameBefore(capacity, init, steps, m, k);
      } else {
        OnlyDecideDecides(before, steps[m], n);
        k := m;
      }
    }
  }

  lemma NothingDecidedYet(capacity: nat, init: Store, n: nat)
    ensures !Decided(Initial(capacity, init), n)
  {
  }

  /** In every run, and for every call past its decision: it was turned away as "queue is full"
      exactly when it was decided at a full queue before any stop, turned away as "stopping" exactly
      when it was decided under the stop flag, and accepted exactly otherwise. */
  lemma AdmissionExactly(capacity: nat, init: Store, steps: seq<Step>, s: State, n: nat)
    requires Run(capacity, init, steps, s) && Decided(s, n)
    ensures MetFullQueue(capacity, init, steps, n) <==> !Accepted(s, n) && n in s.answers && s.answers[n].reply == FULL
    ensures MetStopFlag(capacity, init, steps, n) <==> !Accepted(s, n) && n in s.answers && s.answers[n].reply == STOPPING
    ensures Accepted(s, n) <==> !MetFullQueue(capacity, init, steps, n) && !MetStopFlag(capacity, init, steps, n)
  {
    hide Run, Before, DecidedAt, Accepted, Decided;
    var k := DecisionExists(capacity, init, steps, s, n);
    DecisionStands(capacity, init, steps, s, n, k);
    if MetFullQueue(capacity, init, steps, n) {
      var other: nat :| DecidedAt(capacity, init, steps, n, other)
                        && !Before(capacity, init, steps, other).stopping
                        && |Before(capacity, init, steps, other).queue| >= Before(capacity, init, steps, other).capacity;
      DecisionStands(capacity, init, steps, s, n, other);
    }
    if MetStopFlag(capacity, init, steps, n) {
      var other: nat :| DecidedAt(capacity, init, steps, n, other) && Before(capacity, init, steps, other).stopping;
      DecisionStands(capacity, init, steps, s, n, other);
    }
  }

  /** A call with a reply is past its decision. */
  lemma AnsweredIsDecided(s: State, init: Store, n: nat)
    requires Inv(s, init) && n in s.answers
    ensures Decided(s, n)
  {
    hide LockInv, QueueInv, WakeInv, StoreInv, OrderInv, AnswerInv;
  }
}
