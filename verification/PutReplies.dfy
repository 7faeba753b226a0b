/**
 A PUT that was applied and yet does not answer 200. The update and the fetch for the body are two
 operations, and the fetch has its own fate: it can be turned away, or come after a delete. Here is
 exactly when that happens, and that each case does.
 */
module PutReplies {
  import opened Wrappers
  import opened Kitchen
  import opened Tables
  import opened StoreSpec
  import opened Listings
  import opened ServiceSpec
  import opened Executor
  import opened ExecutorTheorems
  import opened Admission
  import opened Scenarios
  import opened Http
  import opened ServiceRuns
  import SchemaInvariant
  import Views

  /** What a call with a reply met when it was decided. */
  lemma Fate(capacity: nat, init: Store, steps: seq<Step>, s: State, n: nat)
    requires Run(capacity, init, steps, s) && IsReachable(s, init) && n in s.answers
    ensures !Accepted(s, n) ==>
              if MetFullQueue(capacity, init, steps, n) then s.answers[n].reply == FULL
              else MetStopFlag(capacity, init, steps, n) && s.answers[n].reply == STOPPING
    ensures !Accepted(s, n) ==> !(MetFullQueue(capacity, init, steps, n) && MetStopFlag(capacity, init, steps, n))
    ensures Accepted(s, n) ==> !MetFullQueue(capacity, init, steps, n) && !MetStopFlag(capacity, init, steps, n)
  {
    hide Inv, Run, MetFullQueue, MetStopFlag, Decided, IsReachable;
    ReachableInv(s, init);
    AnsweredIsDecided(s, init, n);
    AdmissionExactly(capacity, init, steps, s, n);
  }

  /** After an applied update the reply is 503 exactly when the fetch was decided at a full queue
      before any stop, 500 exactly when it was decided under the stop flag, 404 exactly when the
      product is gone again at the place of the fetch, and 200 otherwise. */
  lemma PutProductOtherReplies(
      capacity: nat, steps: seq<Step>, s: State, init: Store,
      a: nat, updated: Reply, b: nat, fetched: Reply, id: int, p: Product, c: Choice, d: Choice)
    requires LegalChoice(c) && updated.Ok? && Run(capacity, init, steps, s)
    requires PutRun(s, init, a, ClosureOf(PutProduct(id, p), c), updated, b, ClosureOf(FetchProduct(id), d), fetched)
    ensures var status := PutProductReply(updated, fetched).status;
            && (status == 503 <==> MetFullQueue(capacity, init, steps, b))
            && (status == 500 <==> MetStopFlag(capacity, init, steps, b))
            && (status == 404 <==> exists i: nat, j: nat :: AtPlaces(s, a, i, b, j) && ProductGoneBy(init, s.accepted, i, j, id))
            && (status == 200 || status == 404 || status == 500 || status == 503)
  {
    hide IsReachable, Inv, Run, MetFullQueue, MetStopFlag, StoreAfter, ReplyAt, KeepsSchema, ProductOf, Consistent, ClosureOf;
    hide LegalChoice;
    var i := PutPlace(s, init, a);
    Fate(capacity, init, steps, s, b);
    if Accepted(s, b) {
      var j := AcceptedPlace(s, init, a, b);
      FetchedProduct(init, s.accepted, j, id, d);
      assert AtPlaces(s, a, i, b, j);
    }
  }

  lemma PutRecipeOtherReplies(
      capacity: nat, steps: seq<Step>, s: State, init: Store,
      a: nat, updated: Reply, b: nat, fetched: Reply, id: int, r: Recipe, c: Choice, d: Choice)
    requires LegalChoice(c) && updated.Ok? && Run(capacity, init, steps, s)
    requires PutRun(s, init, a, ClosureOf(PutRecipe(id, r), c), updated, b, ClosureOf(FetchRecipe(id), d), fetched)
    ensures var status := PutRecipeReply(updated, fetched).status;
            && (status == 503 <==> MetFullQueue(capacity, init, steps, b))
            && (status == 500 <==> MetStopFlag(capacity, init, steps, b))
            && (status == 404 <==> exists i: nat, j: nat :: AtPlaces(s, a, i, b, j) && RecipeGoneBy(init, s.accepted, i, j, id))
            && (status == 200 || status == 404 || status == 500 || status == 503)
  {
    hide IsReachable, Inv, Run, MetFullQueue, MetStopFlag, StoreAfter, ReplyAt, KeepsSchema, RecipeOf, Consistent, ClosureOf;
    hide LegalChoice;
    var i := PutPlace(s, init, a);
    Fate(capacity, init, steps, s, b);
    if Accepted(s, b) {
      var j := AcceptedPlace(s, init, a, b);
      FetchedRecipe(init, s.accepted, j, id, d);
      assert AtPlaces(s, a, i, b, j);
    }
  }

  ghost predicate ProductGoneBy(init: Store, tasks: seq<Task>, i: nat, j: nat, id: int) {
    i < j < |tasks| && ProductAfter(init, tasks, j, id) == None
  }

  ghost predicate RecipeGoneBy(init: Store, tasks: seq<Task>, i: nat, j: nat, id: int) {
    i < j < |tasks| && RecipeAfter(init, tasks, j, id) == None
  }

  /** A delete accepted between the two steps makes the reply 404 after an applied update: the id
      is never issued again, so nothing accepted later can bring the product back. */
  lemma DeleteProductBetween(init: Store, tasks: seq<Task>, k: nat, j: nat, id: int, c: Choice)
    requires k < j <= |tasks| && tasks[k].op == ClosureOf(RemoveProduct(id), c) && LegalChoice(c)
    requires Consistent(init) && forall t | t in tasks :: KeepsSchema(t.op)
    requires ReplyAt(init, tasks, k).Ok?
    ensures ProductAfter(init, tasks, j, id) == None
    ensures GetProductReply(Ok(MaybeProduct(ProductAfter(init, tasks, j, id)))).status == 404
  {
    hide Serve, StoreAfter, KeepsSchema, ProductOf, Consistent, SchemaInvariant.Sound;
    var before, early := StoreAfter(init, tasks[..k]), StoreAfter(init, tasks[..k + 1]);
    TasksKeepSchema(init, tasks[..k]);
    SchemaInvariant.SoundIsConsistent(init, before);
    TasksKeepSchema(init, tasks[..k + 1]);
    SchemaInvariant.SoundIsConsistent(init, early);
    assert tasks[..k + 1] == tasks[..k] + [tasks[k]];
    StoreAfterSnoc(init, tasks[..k], tasks[k]);
    SuccessExactly(before, RemoveProduct(id), c);
    ProductPresent(before, id);
    ProductPresent(early, id);
    IssuedIds(before, id);
    RemovedKeepsSeq(before, id, c);
    StoreAfterSplit(init, tasks[..j], k + 1);
    assert tasks[..j][..k + 1] == tasks[..k + 1];
    TasksKeepSchema(early, tasks[..j][k + 1..]);
    SoundIssuesAbove(early, StoreAfter(init, tasks[..j]), id);
    ProductPresent(StoreAfter(init, tasks[..j]), id);
  }

  lemma DeleteRecipeBetween(init: Store, tasks: seq<Task>, k: nat, j: nat, id: int, c: Choice)
    requires k < j <= |tasks| && tasks[k].op == ClosureOf(RemoveRecipe(id), c) && LegalChoice(c)
    requires Consistent(init) && forall t | t in tasks :: KeepsSchema(t.op)
    requires ReplyAt(init, tasks, k).Ok?
    ensures RecipeAfter(init, tasks, j, id) == None
    ensures GetRecipeReply(Ok(MaybeRecipe(RecipeAfter(init, tasks, j, id)))).status == 404
  {
    hide Serve, StoreAfter, KeepsSchema, RecipeOf, Consistent, SchemaInvariant.Sound;
    var before, early := StoreAfter(init, tasks[..k]), StoreAfter(init, tasks[..k + 1]);
    TasksKeepSchema(init, tasks[..k]);
    SchemaInvariant.SoundIsConsistent(init, before);
    TasksKeepSchema(init, tasks[..k + 1]);
    SchemaInvariant.SoundIsConsistent(init, early);
    assert tasks[..k + 1] == tasks[..k] + [tasks[k]];
    StoreAfterSnoc(init, tasks[..k], tasks[k]);
    SuccessExactly(before, RemoveRecipe(id), c);
    RecipePresent(before, id);
    RecipePresent(early, id);
    IssuedIds(before, id);
    RemovedKeepsSeq(before, id, c);
    StoreAfterSplit(init, tasks[..j], k + 1);
    assert tasks[..j][..k + 1] == tasks[..k + 1];
    TasksKeepSchema(early, tasks[..j][k + 1..]);
    SoundIssuesAbove(early, StoreAfter(init, tasks[..j]), id);
    RecipePresent(StoreAfter(init, tasks[..j]), id);
  }

  lemma RemovedKeepsSeq(s: Store, id: int, c: Choice)
    ensures Serve(s, RemoveProduct(id), c).0.productSeq == s.productSeq
    ensures Serve(s, RemoveRecipe(id), c).0.recipeSeq == s.recipeSeq
  {
  }

  lemma SoundIssuesAbove(s: Store, t: Store, id: int)
    requires SchemaInvariant.Sound(s, t)
    ensures id <= s.productSeq && !HasProduct(s, id) ==> !HasProduct(t, id)
    ensures id <= s.recipeSeq && !HasRecipe(s, id) ==> !HasRecipe(t, id)
  {
    hide Consistent;
  }

  lemma {:induction false} StoreAfterSplit(init: Store, tasks: seq<Task>, k: nat)
    requires k <= |tasks|
    ensures StoreAfter(init, tasks) == StoreAfter(StoreAfter(init, tasks[..k]), tasks[k..])
  {
    if k < |tasks| {
      var front := tasks[..|tasks| - 1];
      StoreAfterSplit(init, front, k);
      assert front[..k] == tasks[..k];
      assert tasks[k..] == front[k..] + [tasks[|tasks| - 1]];
      StoreAfterSnoc(StoreAfter(init, tasks[..k]), front[k..], tasks[|tasks| - 1]);
    } else {
      assert tasks[..k] == tasks;
    }
  }

  // ---- When every call is a request ----

  ghost predicate IsRequest(op: Closure) {
    exists request, choice :: LegalChoice(choice) && op == ClosureOf(request, choice)
  }

  ghost predicate OnlyRequests(s: State) { forall n | 0 <= n < |s.calls| :: IsRequest(s.calls[n].op) }

  lemma AsRequest(op: Closure) returns (request: Request, choice: Choice)
    requires IsRequest(op)
    ensures LegalChoice(choice) && op == ClosureOf(request, choice)
  {
    hide LegalChoice, ClosureOf;
    request, choice :| LegalChoice(choice) && op == ClosureOf(request, choice);
  }

  lemma RequestTasksKeepSchema(tasks: seq<Task>)
    requires forall t | t in tasks :: IsRequest(t.op)
    ensures forall t | t in tasks :: KeepsSchema(t.op)
  {
    hide KeepsSchema, LegalChoice, ClosureOf;
    forall t | t in tasks ensures KeepsSchema(t.op) {
      var request, choice := AsRequest(t.op);
      RequestsKeepSchema(request, choice);
    }
  }

  lemma AcceptedAreRequests(s: State, init: Store)
    requires IsReachable(s, init) && OnlyRequests(s)
    ensures forall t | t in s.accepted :: IsRequest(t.op)
  {
    hide IsReachable, IsRequest, LockInv, QueueInv, WakeInv, StoreInv, CallInv, AnswerInv;
    ReachableInv(s, init);
    forall t | t in s.accepted ensures IsRequest(t.op) {
      var i :| 0 <= i < |s.accepted| && s.accepted[i] == t;
      assert IsRequest(s.calls[s.accepted[i].call].op);
    }
  }

  /** The operation at place `k` is a delete of the product, and it succeeded. */
  ghost predicate ProductDeletedAt(init: Store, tasks: seq<Task>, k: nat, id: int) {
    && k < |tasks| && ReplyAt(init, tasks, k).Ok?
    && exists c :: LegalChoice(c) && tasks[k].op == ClosureOf(RemoveProduct(id), c)
  }

  lemma OtherRequestKeepsProduct(s: Store, request: Request, choice: Choice, id: int)
    requires Consistent(s) && LegalChoice(choice) && ProductOf(s, id).Some?
    requires request != RemoveProduct(id) && !(request.PutProduct? && request.id == id)
    ensures ProductOf(Serve(s, request, choice).0, id) == ProductOf(s, id)
  {
    hide Serve, Consistent, ProductOf, LegalChoice;
    OtherRequestsLeaveProduct(request, choice, id);
    assert ReadProductAt(id)(ClosureOf(request, choice)(s).0) == ReadProductAt(id)(s);
  }

  lemma OnlyProductDeleteRemoves(s: Store, request: Request, choice: Choice, id: int)
    requires Consistent(s) && LegalChoice(choice)
    requires ProductOf(s, id).Some? && ProductOf(Serve(s, request, choice).0, id).None?
    ensures request == RemoveProduct(id) && Serve(s, request, choice).1.Ok?
  {
    hide Serve, Consistent, ProductOf, Views.AsStored;
    if request != RemoveProduct(id) && !(request.PutProduct? && request.id == id) {
      OtherRequestKeepsProduct(s, request, choice, id);
    } else {
      OutcomeExactly(s, request, choice);
      FailureHasCode(Serve(s, request, choice).1);
      if Serve(s, request, choice).1.Ok? { SuccessExactly(s, request, choice); }
    }
  }

  lemma ProductDeleteStep(init: Store, tasks: seq<Task>, k: nat, id: int, request: Request, choice: Choice)
    requires k < |tasks| && tasks[k].op == ClosureOf(request, choice)
    requires ProductAfter(init, tasks, k, id).Some? && ProductAfter(init, tasks, k + 1, id).None?
    requires Consistent(init) && LegalChoice(choice) && forall t | t in tasks :: KeepsSchema(t.op)
    ensures ProductDeletedAt(init, tasks, k, id)
  {
    hide Consistent, ProductOf, Serve, LegalChoice, SchemaInvariant.Sound, KeepsSchema, StoreAfter, ClosureOf;
    var before := StoreAfter(init, tasks[..k]);
    TasksKeepSchema(init, tasks[..k]);
    SchemaInvariant.SoundIsConsistent(init, before);
    assert tasks[..k + 1] == tasks[..k] + [tasks[k]];
    StoreAfterSnoc(init, tasks[..k], tasks[k]);
    ClosureRuns(request, choice, before);
    OnlyProductDeleteRemoves(before, request, choice, id);
  }

  /** If a product is there at place `i` and gone at place `j`, some operation in between is a delete of
      it that succeeded. */
  lemma {:induction false} GoneProductWasDeleted(init: Store, tasks: seq<Task>, i: nat, j: nat, id: int) returns (k: nat)
    requires i <= j <= |tasks|
    requires ProductAfter(init, tasks, i, id).Some? && ProductAfter(init, tasks, j, id).None?
    requires Consistent(init) && forall t | t in tasks :: IsRequest(t.op)
    ensures i <= k < j && ProductDeletedAt(init, tasks, k, id)
    decreases j
  {
    hide Consistent, ProductAfter, ProductDeletedAt, IsRequest, KeepsSchema, LegalChoice, ClosureOf;
    if ProductAfter(init, tasks, j - 1, id).None? {
      k := GoneProductWasDeleted(init, tasks, i, j - 1, id);
    } else {
      k := j - 1;
      RequestTasksKeepSchema(tasks);
      var request, choice := AsRequest(tasks[k].op);
      ProductDeleteStep(init, tasks, k, id, request, choice);
    }
  }

  /** When every call is a request, the reply after an applied update is 404 if and only if a delete of
      that product succeeded at a place strictly between the update and the fetch. */
  lemma PutProductMissesExactly(
      s: State, init: Store, a: nat, updated: Reply, b: nat, fetched: Reply, id: int, p: Product, c: Choice, d: Choice)
    requires LegalChoice(c) && updated.Ok? && OnlyRequests(s)
    requires PutRun(s, init, a, ClosureOf(PutProduct(id, p), c), updated, b, ClosureOf(FetchProduct(id), d), fetched)
    ensures PutProductReply(updated, fetched).status == 404 <==>
              exists i: nat, j: nat, k: nat ::
                AtPlaces(s, a, i, b, j) && i < k < j && ProductDeletedAt(init, s.accepted, k, id)
  {
    hide IsReachable, Inv, StoreAfter, ReplyAt, KeepsSchema, ProductOf, Consistent, ClosureOf, LegalChoice, IsRequest;
    var i := PutPlace(s, init, a);
    PutTakesEffect(init, s.accepted, i, PutProduct(id, p), c);
    if Accepted(s, b) {
      var j := AcceptedPlace(s, init, a, b);
      FetchedProduct(init, s.accepted, j, id, d);
      assert AtPlaces(s, a, i, b, j);
      AcceptedAreRequests(s, init);
      if ProductAfter(init, s.accepted, j, id).None? {
        var k := GoneProductWasDeleted(init, s.accepted, i + 1, j, id);
        assert i < k < j;
      } else {
        forall k: nat | i < k < j ensures !ProductDeletedAt(init, s.accepted, k, id) {
          if ProductDeletedAt(init, s.accepted, k, id) {
            DeletedIsGoneProduct(init, s.accepted, k, j, id);
          }
        }
      }
    } else {
      ConcurrentRunsLinearize(s, init);
    }
  }

  lemma DeletedIsGoneProduct(init: Store, tasks: seq<Task>, k: nat, j: nat, id: int)
    requires ProductDeletedAt(init, tasks, k, id) && k < j <= |tasks|
    requires Consistent(init) && forall t | t in tasks :: KeepsSchema(t.op)
    ensures ProductAfter(init, tasks, j, id) == None
  {
    hide Consistent, KeepsSchema, ClosureOf, LegalChoice, StoreAfter, ReplyAt, ProductOf;
    var c :| LegalChoice(c) && tasks[k].op == ClosureOf(RemoveProduct(id), c);
    DeleteProductBetween(init, tasks, k, j, id, c);
  }

  /** The operation at place `k` is a delete of the recipe, and it succeeded. */
  ghost predicate RecipeDeletedAt(init: Store, tasks: seq<Task>, k: nat, id: int) {
    && k < |tasks| && ReplyAt(init, tasks, k).Ok?
    && exists c :: LegalChoice(c) && tasks[k].op == ClosureOf(RemoveRecipe(id), c)
  }

  lemma OtherRequestKeepsRecipe(s: Store, request: Request, choice: Choice, id: int)
    requires Consistent(s) && LegalChoice(choice) && RecipeOf(s, id).Some?
    requires request != RemoveRecipe(id) && !(request.PutRecipe? && request.id == id)
    ensures RecipeOf(Serve(s, request, choice).0, id) == RecipeOf(s, id)
  {
    hide Serve, Consistent, RecipeOf, LegalChoice;
    OtherRequestsLeaveRecipe(request, choice, id);
    assert ReadRecipeAt(id)(ClosureOf(request, choice)(s).0) == ReadRecipeAt(id)(s);
  }

  lemma OnlyRecipeDeleteRemoves(s: Store, request: Request, choice: Choice, id: int)
    requires Consistent(s) && LegalChoice(choice)
    requires RecipeOf(s, id).Some? && RecipeOf(Serve(s, request, choice).0, id).None?
    ensures request == RemoveRecipe(id) && Serve(s, request, choice).1.Ok?
  {
    hide Serve, Consistent, RecipeOf, Views.AsStored;
    if request != RemoveRecipe(id) && !(request.PutRecipe? && request.id == id) {
      OtherRequestKeepsRecipe(s, request, choice, id);
    } else {
      OutcomeExactly(s, request, choice);
      FailureHasCode(Serve(s, request, choice).1);
      if Serve(s, request, choice).1.Ok? { SuccessExactly(s, request, choice); }
    }
  }

  lemma RecipeDeleteStep(init: Store, tasks: seq<Task>, k: nat, id: int, request: Request, choice: Choice)
    requires k < |tasks| && tasks[k].op == ClosureOf(request, choice)
    requires RecipeAfter(init, tasks, k, id).Some? && RecipeAfter(init, tasks, k + 1, id).None?
    requires Consistent(init) && LegalChoice(choice) && forall t | t in tasks :: KeepsSchema(t.op)
    ensures RecipeDeletedAt(init, tasks, k, id)
  {
    hide Consistent, RecipeOf, Serve, LegalChoice, SchemaInvariant.Sound, KeepsSchema, StoreAfter, ClosureOf;
    var before := StoreAfter(init, tasks[..k]);
    TasksKeepSchema(init, tasks[..k]);
    SchemaInvariant.SoundIsConsistent(init, before);
    assert tasks[..k + 1] == tasks[..k] + [tasks[k]];
    StoreAfterSnoc(init, tasks[..k], tasks[k]);
    ClosureRuns(request, choice, before);
    OnlyRecipeDeleteRemoves(before, request, choice, id);
  }

  /** If a recipe is there at place `i` and gone at place `j`, some operation in between is a delete of
      it that succeeded. */
  lemma {:induction false} GoneRecipeWasDeleted(init: Store, tasks: seq<Task>, i: nat, j: nat, id: int) returns (k: nat)
    requires i <= j <= |tasks|
    requires RecipeAfter(init, tasks, i, id).Some? && RecipeAfter(init, tasks, j, id).None?
    requires Consistent(init) && forall t | t in tasks :: IsRequest(t.op)
    ensures i <= k < j && RecipeDeletedAt(init, tasks, k, id)
    decreases j
  {
    hide Consistent, RecipeAfter, RecipeDeletedAt, IsRequest, KeepsSchema, LegalChoice, ClosureOf;
    if RecipeAfter(init, tasks, j - 1, id).None? {
      k := GoneRecipeWasDeleted(init, tasks, i, j - 1, id);
    } else {
      k := j - 1;
      RequestTasksKeepSchema(tasks);
      var request, choice := AsRequest(tasks[k].op);
      RecipeDeleteStep(init, tasks, k, id, request, choice);
    }
  }

  /** When every call is a request, the reply after an applied update is 404 if and only if a delete of
      that recipe succeeded at a place strictly between the update and the fetch. */
  lemma PutRecipeMissesExactly(
      s: State, init: Store, a: nat, updated: Reply, b: nat, fetched: Reply, id: int, r: Recipe, c: Choice, d: Choice)
    requires LegalChoice(c) && updated.Ok? && OnlyRequests(s)
    requires PutRun(s, init, a, ClosureOf(PutRecipe(id, r), c), updated, b, ClosureOf(FetchRecipe(id), d), fetched)
    ensures PutRecipeReply(updated, fetched).status == 404 <==>
              exists i: nat, j: nat, k: nat ::
                AtPlaces(s, a, i, b, j) && i < k < j && RecipeDeletedAt(init, s.accepted, k, id)
  {
    hide IsReachable, Inv, StoreAfter, ReplyAt, KeepsSchema, RecipeOf, Consistent, ClosureOf, LegalChoice, IsRequest;
    var i := PutPlace(s, init, a);
    PutTakesEffect(init, s.accepted, i, PutRecipe(id, r), c);
    if Accepted(s, b) {
      var j := AcceptedPlace(s, init, a, b);
      FetchedRecipe(init, s.accepted, j, id, d);
      assert AtPlaces(s, a, i, b, j);
      AcceptedAreRequests(s, init);
      if RecipeAfter(init, s.accepted, j, id).None? {
        var k := GoneRecipeWasDeleted(init, s.accepted, i + 1, j, id);
        assert i < k < j;
      } else {
        forall k: nat | i < k < j ensures !RecipeDeletedAt(init, s.accepted, k, id) {
          if RecipeDeletedAt(init, s.accepted, k, id) {
            DeletedIsGoneRecipe(init, s.accepted, k, j, id);
          }
        }
      }
    } else {
      ConcurrentRunsLinearize(s, init);
    }
  }

  lemma DeletedIsGoneRecipe(init: Store, tasks: seq<Task>, k: nat, j: nat, id: int)
    requires RecipeDeletedAt(init, tasks, k, id) && k < j <= |tasks|
    requires Consistent(init) && forall t | t in tasks :: KeepsSchema(t.op)
    ensures RecipeAfter(init, tasks, j, id) == None
  {
    hide Consistent, KeepsSchema, ClosureOf, LegalChoice, StoreAfter, ReplyAt, RecipeOf;
    var c :| LegalChoice(c) && tasks[k].op == ClosureOf(RemoveRecipe(id), c);
    DeleteRecipeBetween(init, tasks, k, j, id, c);
  }

  // ---- Every case happens ----

  /** No other operation is ever submitted. */
  ghost predicate OnlyThese(s: State, a: Closure, b: Closure, c: Closure) {
    forall n | 0 <= n < |s.calls| :: s.calls[n].op == a || s.calls[n].op == b || s.calls[n].op == c
  }

  lemma TheseAreRequests(s: State, a: Request, b: Request, c: Request, choice: Choice)
    requires LegalChoice(choice)
    requires OnlyThese(s, ClosureOf(a, choice), ClosureOf(b, choice), ClosureOf(c, choice))
    ensures OnlyRequests(s)
  {
    hide ClosureOf, LegalChoice;
  }

  /** The update is served; then calls fill the queue, and the fetch meets it full. */
  lemma AppliedThenFull(capacity: nat, init: Store, put: Closure, fetch: Closure) returns (s: State)
    requires capacity > 0 && Consistent(init) && KeepsSchema(put) && KeepsSchema(fetch)
    ensures s.capacity == capacity && PutRun(s, init, 0, put, Settle(put(init).1), 1 + capacity, fetch, FULL)
    ensures OnlyThese(s, put, fetch, fetch)
  {
    hide IsReachable, KeepsSchema, Consistent;
    FirstServing(capacity, init, put);
    var full := Filling(FirstServed(capacity, init, put), init, fetch, capacity);
    assert full.calls[0] == full.calls[..1][0];
    Refusing(full, init, fetch);
    s := Refused(full, fetch, FULL);
  }

  /** The update is served; then the stop flag goes up, and the fetch meets it. */
  lemma AppliedThenStopping(capacity: nat, init: Store, put: Closure, fetch: Closure) returns (s: State)
    requires capacity > 0 && Consistent(init) && KeepsSchema(put) && KeepsSchema(fetch)
    ensures s.capacity == capacity && PutRun(s, init, 0, put, Settle(put(init).1), 1, fetch, STOPPING)
    ensures OnlyThese(s, put, fetch, fetch)
  {
    hide IsReachable, KeepsSchema, Consistent;
    FirstServing(capacity, init, put);
    var first := FirstServed(capacity, init, put);
    StopRequested(first, init);
    Refusing(Stopping(first), init, fetch);
    s := Refused(Stopping(first), fetch, STOPPING);
  }

  /** The update is served, then the fetch. */
  lemma AppliedThenFetched(capacity: nat, init: Store, put: Closure, fetch: Closure) returns (s: State)
    requires capacity > 0 && Consistent(init) && KeepsSchema(put) && KeepsSchema(fetch)
    ensures s.capacity == capacity
    ensures PutRun(s, init, 0, put, Settle(put(init).1), 1, fetch, Settle(fetch(put(init).0).1))
    ensures OnlyThese(s, put, fetch, fetch)
  {
    hide IsReachable, KeepsSchema, Consistent;
    FirstServing(capacity, init, put);
    var first := FirstServed(capacity, init, put);
    Submitting(first, init, fetch);
    Serving(Submitted(first, fetch), init);
    s := Served(Submitted(first, fetch));
  }

  /** The update is served, then another client's operation, then the fetch. */
  lemma AppliedThenDeleted(capacity: nat, init: Store, put: Closure, delete: Closure, fetch: Closure) returns (s: State)
    requires capacity > 0 && Consistent(init) && KeepsSchema(put) && KeepsSchema(delete) && KeepsSchema(fetch)
    ensures s.capacity == capacity
    ensures PutRun(s, init, 0, put, Settle(put(init).1), 2, fetch, Settle(fetch(delete(put(init).0).0).1))
    ensures OnlyThese(s, put, delete, fetch)
  {
    hide IsReachable, KeepsSchema, Consistent;
    FirstServing(capacity, init, put);
    var first := FirstServed(capacity, init, put);
    Submitting(first, init, delete);
    Serving(Submitted(first, delete), init);
    var second := Served(Submitted(first, delete));
    Submitting(second, init, fetch);
    Serving(Submitted(second, fetch), init);
    s := Served(Submitted(second, fetch));
  }

  lemma FetchReplies(s: Store, id: int, c: Choice)
    ensures Serve(s, FetchProduct(id), c).1 == Ok(MaybeProduct(ProductOf(s, id)))
    ensures Serve(s, FetchRecipe(id), c).1 == Ok(MaybeRecipe(RecipeOf(s, id)))
  {
    hide ProductOf, RecipeOf;
  }

  lemma FailureHasCode(reply: Reply)
    ensures reply.Err? ==>
              Fails(reply, Validation) || Fails(reply, NotFound) || Fails(reply, Conflict)
              || Fails(reply, Storage) || Fails(reply, Overloaded)
  {
  }

  /** Some run of requests in which this update is applied ends with this status. */
  ghost predicate PutProductAnswers(capacity: nat, init: Store, id: int, p: Product, c: Choice, status: nat) {
    exists s: State, updated: Reply, b: nat, fetched: Reply ::
      && s.capacity == capacity && updated.Ok? && OnlyRequests(s)
      && PutRun(s, init, 0, ClosureOf(PutProduct(id, p), c), updated, b, ClosureOf(FetchProduct(id), c), fetched)
      && PutProductReply(updated, fetched).status == status
  }

  lemma PutProductWitness(
      s: State, init: Store, id: int, p: Product, c: Choice, updated: Reply, b: nat, fetched: Reply)
    requires updated.Ok? && OnlyRequests(s)
    requires PutRun(s, init, 0, ClosureOf(PutProduct(id, p), c), updated, b, ClosureOf(FetchProduct(id), c), fetched)
    ensures PutProductAnswers(s.capacity, init, id, p, c, PutProductReply(updated, fetched).status)
  {
    hide PutRun, ToProductView, OnlyRequests;
  }

  /** Whatever the capacity: an update that the store accepts can be applied and yet answered 404, 500
      or 503, and of course 200. */
  lemma AppliedProductPutAnswers(capacity: nat, init: Store, id: int, p: Product, c: Choice, status: nat)
    requires capacity > 0 && Consistent(init) && LegalChoice(c) && Serve(init, PutProduct(id, p), c).1.Ok?
    requires status in {200, 404, 500, 503}
    ensures PutProductAnswers(capacity, init, id, p, c, status)
  {
    hide PutRun, KeepsSchema, LegalChoice, Consistent, ProductOf, ToProductView, PutProductAnswers, Views.AsStored, ClosureOf, OnlyThese, OnlyRequests;
    var put, fetch, delete := ClosureOf(PutProduct(id, p), c), ClosureOf(FetchProduct(id), c), ClosureOf(RemoveProduct(id), c);
    RequestsKeepSchema(PutProduct(id, p), c);
    RequestsKeepSchema(FetchProduct(id), c);
    RequestsKeepSchema(RemoveProduct(id), c);
    SuccessExactly(init, PutProduct(id, p), c);
    RemoveProductSucceeds(init, id, p, c);
    hide Serve;
    ClosureRuns(PutProduct(id, p), c, init);
    var done, reply := Serve(init, PutProduct(id, p), c).0, Serve(init, PutProduct(id, p), c).1;
    var left := Serve(done, RemoveProduct(id), c).0;
    if status == 200 {
      var s := AppliedThenFetched(capacity, init, put, fetch);
      TheseAreRequests(s, PutProduct(id, p), FetchProduct(id), FetchProduct(id), c);
      FetchReplies(done, id, c);
      ClosureRuns(FetchProduct(id), c, done);
      PutProductWitness(s, init, id, p, c, reply, 1, Settle(fetch(done).1));
    } else if status == 404 {
      var s := AppliedThenDeleted(capacity, init, put, delete, fetch);
      TheseAreRequests(s, PutProduct(id, p), RemoveProduct(id), FetchProduct(id), c);
      FetchReplies(left, id, c);
      ClosureRuns(RemoveProduct(id), c, done);
      ClosureRuns(FetchProduct(id), c, left);
      PutProductWitness(s, init, id, p, c, reply, 2, Settle(fetch(left).1));
    } else if status == 500 {
      var s := AppliedThenStopping(capacity, init, put, fetch);
      TheseAreRequests(s, PutProduct(id, p), FetchProduct(id), FetchProduct(id), c);
      PutProductWitness(s, init, id, p, c, reply, 1, STOPPING);
    } else {
      var s := AppliedThenFull(capacity, init, put, fetch);
      TheseAreRequests(s, PutProduct(id, p), FetchProduct(id), FetchProduct(id), c);
      PutProductWitness(s, init, id, p, c, reply, 1 + capacity, FULL);
    }
  }

  lemma RemoveProductSucceeds(init: Store, id: int, p: Product, c: Choice)
    requires Consistent(init) && LegalChoice(c) && Serve(init, PutProduct(id, p), c).1.Ok?
    ensures ProductOf(Serve(Serve(init, PutProduct(id, p), c).0, RemoveProduct(id), c).0, id) == None
  {
    hide Serve, Consistent, ProductOf, LegalChoice, Views.AsStored;
    SuccessExactly(init, PutProduct(id, p), c);
    ServeSound(init, PutProduct(id, p), c);
    var updated := Serve(init, PutProduct(id, p), c).0;
    SchemaInvariant.SoundIsConsistent(init, updated);
    ProductPresent(updated, id);
    OutcomeExactly(updated, RemoveProduct(id), c);
    var error := Serve(updated, RemoveProduct(id), c).1;
    FailureHasCode(error);
    SuccessExactly(updated, RemoveProduct(id), c);
  }

  /** Some run of requests in which this update is applied ends with this status. */
  ghost predicate PutRecipeAnswers(capacity: nat, init: Store, id: int, r: Recipe, c: Choice, status: nat) {
    exists s: State, updated: Reply, b: nat, fetched: Reply ::
      && s.capacity == capacity && updated.Ok? && OnlyRequests(s)
      && PutRun(s, init, 0, ClosureOf(PutRecipe(id, r), c), updated, b, ClosureOf(FetchRecipe(id), c), fetched)
      && PutRecipeReply(updated, fetched).status == status
  }

  lemma PutRecipeWitness(
      s: State, init: Store, id: int, r: Recipe, c: Choice, updated: Reply, b: nat, fetched: Reply)
    requires updated.Ok? && OnlyRequests(s)
    requires PutRun(s, init, 0, ClosureOf(PutRecipe(id, r), c), updated, b, ClosureOf(FetchRecipe(id), c), fetched)
    ensures PutRecipeAnswers(s.capacity, init, id, r, c, PutRecipeReply(updated, fetched).status)
  {
    hide PutRun, ToRecipeView, OnlyRequests;
  }

  /** Whatever the capacity: an update that the store accepts can be applied and yet answered 404, 500
      or 503, and of course 200. */
  lemma AppliedRecipePutAnswers(capacity: nat, init: Store, id: int, r: Recipe, c: Choice, status: nat)
    requires capacity > 0 && Consistent(init) && LegalChoice(c) && Serve(init, PutRecipe(id, r), c).1.Ok?
    requires status in {200, 404, 500, 503}
    ensures PutRecipeAnswers(capacity, init, id, r, c, status)
  {
    hide PutRun, KeepsSchema, LegalChoice, Consistent, RecipeOf, ToRecipeView, PutRecipeAnswers, Views.AsStored, ClosureOf, OnlyThese, OnlyRequests;
    var put, fetch, delete := ClosureOf(PutRecipe(id, r), c), ClosureOf(FetchRecipe(id), c), ClosureOf(RemoveRecipe(id), c);
    RequestsKeepSchema(PutRecipe(id, r), c);
    RequestsKeepSchema(FetchRecipe(id), c);
    RequestsKeepSchema(RemoveRecipe(id), c);
    SuccessExactly(init, PutRecipe(id, r), c);
    RemoveRecipeSucceeds(init, id, r, c);
    hide Serve;
    ClosureRuns(PutRecipe(id, r), c, init);
    var done, reply := Serve(init, PutRecipe(id, r), c).0, Serve(init, PutRecipe(id, r), c).1;
    var left := Serve(done, RemoveRecipe(id), c).0;
    if status == 200 {
      var s := AppliedThenFetched(capacity, init, put, fetch);
      TheseAreRequests(s, PutRecipe(id, r), FetchRecipe(id), FetchRecipe(id), c);
      FetchReplies(done, id, c);
      ClosureRuns(FetchRecipe(id), c, done);
      PutRecipeWitness(s, init, id, r, c, reply, 1, Settle(fetch(done).1));
    } else if status == 404 {
      var s := AppliedThenDeleted(capacity, init, put, delete, fetch);
      TheseAreRequests(s, PutRecipe(id, r), RemoveRecipe(id), FetchRecipe(id), c);
      FetchReplies(left, id, c);
      ClosureRuns(RemoveRecipe(id), c, done);
      ClosureRuns(FetchRecipe(id), c, left);
      PutRecipeWitness(s, init, id, r, c, reply, 2, Settle(fetch(left).1));
    } else if status == 500 {
      var s := AppliedThenStopping(capacity, init, put, fetch);
      TheseAreRequests(s, PutRecipe(id, r), FetchRecipe(id), FetchRecipe(id), c);
      PutRecipeWitness(s, init, id, r, c, reply, 1, STOPPING);
    } else {
      var s := AppliedThenFull(capacity, init, put, fetch);
      TheseAreRequests(s, PutRecipe(id, r), FetchRecipe(id), FetchRecipe(id), c);
      PutRecipeWitness(s, init, id, r, c, reply, 1 + capacity, FULL);
    }
  }

  lemma RemoveRecipeSucceeds(init: Store, id: int, r: Recipe, c: Choice)
    requires Consistent(init) && LegalChoice(c) && Serve(init, PutRecipe(id, r), c).1.Ok?
    ensures RecipeOf(Serve(Serve(init, PutRecipe(id, r), c).0, RemoveRecipe(id), c).0, id) == None
  {
    hide Serve, Consistent, RecipeOf, LegalChoice, Views.AsStored;
    SuccessExactly(init, PutRecipe(id, r), c);
    ServeSound(init, PutRecipe(id, r), c);
    var updated := Serve(init, PutRecipe(id, r), c).0;
    SchemaInvariant.SoundIsConsistent(init, updated);
    RecipePresent(updated, id);
    OutcomeExactly(updated, RemoveRecipe(id), c);
    var error := Serve(updated, RemoveRecipe(id), c).1;
    FailureHasCode(error);
    SuccessExactly(updated, RemoveRecipe(id), c);
  }
}
