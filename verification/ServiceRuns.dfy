/**
 The service running on the executor. Requests from any number of clients interleave; because the
 executor linearizes them, facts about the sequential service become facts about concurrent runs.
 */
module ServiceRuns {
  import opened Wrappers
  import opened Kitchen
  import opened Tables
  import opened StoreSpec
  import opened Listings
  import opened ServiceSpec
  import opened Executor
  import opened ExecutorTheorems
  import opened Http
  import SchemaInvariant
  import Views

  /** The closure a request handler submits. */
  ghost function ClosureOf(request: Request, choice: Choice): Closure {
    (s: Store) => (Serve(s, request, choice).0, Returned(Serve(s, request, choice).1))
  }

  lemma ClosureRuns(request: Request, c: Choice, s: Store)
    ensures ClosureOf(request, c)(s).0 == Serve(s, request, c).0
    ensures Settle(ClosureOf(request, c)(s).1) == Serve(s, request, c).1
  {
    hide Serve;
  }

  /** An operation that keeps the schema and issues only new ids. */
  ghost predicate KeepsSchema(op: Closure) {
    forall s: Store | Consistent(s) :: SchemaInvariant.Sound(s, op(s).0)
  }

  lemma RequestsKeepSchema(request: Request, choice: Choice)
    requires LegalChoice(choice)
    ensures KeepsSchema(ClosureOf(request, choice))
  {
    hide Serve, Consistent, SchemaInvariant.Sound;
    forall s: Store | Consistent(s) ensures SchemaInvariant.Sound(s, ClosureOf(request, choice)(s).0) {
      ServeSound(s, request, choice);
    }
  }

  lemma SoundFromStart(init: Store, op: Closure)
    requires KeepsSchema(op)
    ensures forall s: Store | SchemaInvariant.Sound(init, s) :: SchemaInvariant.Sound(init, op(s).0)
  {
    forall s: Store | SchemaInvariant.Sound(init, s) ensures SchemaInvariant.Sound(init, op(s).0) {
      SchemaInvariant.SoundIsConsistent(init, s);
      SchemaInvariant.SoundTransitive(init, s, op(s).0);
    }
  }

  lemma TasksKeepSchema(init: Store, tasks: seq<Task>)
    requires Consistent(init) && forall t | t in tasks :: KeepsSchema(t.op)
    ensures SchemaInvariant.Sound(init, StoreAfter(init, tasks))
  {
    hide SchemaInvariant.Sound, Consistent, StoreAfter, KeepsSchema;
    SchemaInvariant.SoundReflexive(init);
    forall t | t in tasks
      ensures forall s: Store | SchemaInvariant.Sound(init, s) :: SchemaInvariant.Sound(init, t.op(s).0)
    {
      SoundFromStart(init, t.op);
    }
    FoldKeeps(init, tasks, s => SchemaInvariant.Sound(init, s));
  }

  /** In every reachable state of every interleaving the schema holds. */
  lemma ConcurrentRunsConsistent(s: State, init: Store)
    requires IsReachable(s, init) && Consistent(init)
    requires forall n | 0 <= n < |s.calls| :: KeepsSchema(s.calls[n].op)
    ensures SchemaInvariant.Sound(init, s.store)
  {
    hide IsReachable, SchemaInvariant.Sound, Consistent, KeepsSchema;
    SchemaInvariant.SoundReflexive(init);
    forall n | 0 <= n < |s.calls|
      ensures forall st: Store | SchemaInvariant.Sound(init, st) :: SchemaInvariant.Sound(init, s.calls[n].op(st).0)
    {
      SoundFromStart(init, s.calls[n].op);
    }
    StoreKeepsProperty(s, init, st => SchemaInvariant.Sound(init, st));
  }

  // ---- PUT ----

  /** The operation never changes what `read` sees, once there is something to see. */
  ghost predicate LeavesAlone<X(!new)>(op: Closure, read: Store -> Option<X>) {
    forall s: Store | Consistent(s) && read(s).Some? :: read(op(s).0) == read(s)
  }

  ghost predicate Untouched<X(!new)>(tasks: seq<Task>, i: nat, j: nat, read: Store -> Option<X>)
    requires i <= j <= |tasks|
  {
    forall k | i <= k < j :: LeavesAlone(tasks[k].op, read)
  }

  lemma {:induction false} UntouchedReadsSame<X(!new)>(
      init: Store, tasks: seq<Task>, i: nat, j: nat, read: Store -> Option<X>)
    requires i <= j <= |tasks| && Untouched(tasks, i, j, read)
    requires Consistent(init) && forall t | t in tasks :: KeepsSchema(t.op)
    requires read(StoreAfter(init, tasks[..i])).Some?
    ensures read(StoreAfter(init, tasks[..j])) == read(StoreAfter(init, tasks[..i]))
    decreases j
  {
    hide Consistent, KeepsSchema, StoreAfter, SchemaInvariant.Sound;
    if i < j {
      UntouchedReadsSame(init, tasks, i, j - 1, read);
      var front := tasks[..j - 1];
      assert tasks[..j] == front + [tasks[j - 1]];
      StoreAfterSnoc(init, front, tasks[j - 1]);
      TasksKeepSchema(init, front);
      SchemaInvariant.SoundIsConsistent(init, StoreAfter(init, front));
      assert LeavesAlone(tasks[j - 1].op, read);
    }
  }

  ghost function ReadProductAt(id: int): Store -> Option<Product> { (s: Store) => ProductOf(s, id) }

  ghost function ReadRecipeAt(id: int): Store -> Option<Recipe> { (s: Store) => RecipeOf(s, id) }

  /** Only an update or a delete of a product touches it: any other request leaves it alone. */
  lemma OtherRequestsLeaveProduct(request: Request, choice: Choice, id: int)
    requires LegalChoice(choice) && request != RemoveProduct(id) && !(request.PutProduct? && request.id == id)
    ensures LeavesAlone(ClosureOf(request, choice), ReadProductAt(id))
  {
    hide Serve, Consistent, ProductsConsistent, ProductOf, RecipeOf;
    forall s: Store | Consistent(s) && ProductOf(s, id).Some?
      ensures ProductOf(Serve(s, request, choice).0, id) == ProductOf(s, id)
    {
      ProductPresent(s, id);
      IssuedIds(s, id);
      OutcomeExactly(s, request, choice);
      if Serve(s, request, choice).1.Ok? {
        SuccessExactly(s, request, choice);
        ConsistentProducts(s);
        SameProducts(s, Serve(s, request, choice).0, id);
      }
    }
  }

  lemma OtherRequestsLeaveRecipe(request: Request, choice: Choice, id: int)
    requires LegalChoice(choice) && request != RemoveRecipe(id) && !(request.PutRecipe? && request.id == id)
    ensures LeavesAlone(ClosureOf(request, choice), ReadRecipeAt(id))
  {
    hide Serve, Consistent, ProductOf, RecipeOf, Views.AsStored;
    forall s: Store | Consistent(s) && RecipeOf(s, id).Some?
      ensures RecipeOf(Serve(s, request, choice).0, id) == RecipeOf(s, id)
    {
      RecipePresent(s, id);
      IssuedIds(s, id);
      OutcomeExactly(s, request, choice);
      if Serve(s, request, choice).1.Ok? { SuccessExactly(s, request, choice); }
    }
  }

  lemma IssuedIds(s: Store, id: int)
    requires Consistent(s)
    ensures HasProduct(s, id) ==> id <= s.productSeq
    ensures HasRecipe(s, id) ==> id <= s.recipeSeq
  {
  }

  lemma SameProducts(s: Store, t: Store, id: int)
    requires ProductsConsistent(s)
    ensures s.products == t.products ==> ProductOf(s, id) == ProductOf(t, id)
  {
    hide ReadProduct, StoredDate;
  }

  lemma ConsistentProducts(s: Store)
    requires Consistent(s)
    ensures ProductsConsistent(s)
  {
    hide ProductsConsistent;
  }

  /** An update that answered success is in the store right after its turn. */
  lemma PutTakesEffect(init: Store, tasks: seq<Task>, i: nat, request: Request, choice: Choice)
    requires i < |tasks| && tasks[i].op == ClosureOf(request, choice) && LegalChoice(choice)
    requires Consistent(init) && forall t | t in tasks :: KeepsSchema(t.op)
    requires ReplyAt(init, tasks, i).Ok?
    ensures match request
            case PutProduct(id, p) => ProductOf(StoreAfter(init, tasks[..i + 1]), id) == Some(p.(id := Some(id)))
            case PutRecipe(id, r) => RecipeOf(StoreAfter(init, tasks[..i + 1]), id) == Some(Views.AsStored(r, id))
            case RemoveProduct(id) => ProductOf(StoreAfter(init, tasks[..i + 1]), id) == None
            case RemoveRecipe(id) => RecipeOf(StoreAfter(init, tasks[..i + 1]), id) == None
            case _ => true
  {
    hide Serve, Consistent, KeepsSchema, StoreAfter, ProductOf, RecipeOf, SchemaInvariant.Sound, Views.AsStored;
    var before := StoreAfter(init, tasks[..i]);
    TasksKeepSchema(init, tasks[..i]);
    SchemaInvariant.SoundIsConsistent(init, before);
    assert tasks[..i + 1] == tasks[..i] + [tasks[i]];
    StoreAfterSnoc(init, tasks[..i], tasks[i]);
    SuccessExactly(before, request, choice);
  }

  ghost function ProductAfter(init: Store, tasks: seq<Task>, k: nat, id: int): Option<Product>
    requires k <= |tasks|
  {
    ProductOf(StoreAfter(init, tasks[..k]), id)
  }

  ghost function RecipeAfter(init: Store, tasks: seq<Task>, k: nat, id: int): Option<Recipe>
    requires k <= |tasks|
  {
    RecipeOf(StoreAfter(init, tasks[..k]), id)
  }

  lemma FetchedProduct(init: Store, tasks: seq<Task>, j: nat, id: int, choice: Choice)
    requires j < |tasks| && tasks[j].op == ClosureOf(FetchProduct(id), choice)
    ensures ReplyAt(init, tasks, j) == Ok(MaybeProduct(ProductAfter(init, tasks, j, id)))
  {
    hide StoreAfter, ProductOf;
  }

  lemma FetchedRecipe(init: Store, tasks: seq<Task>, j: nat, id: int, choice: Choice)
    requires j < |tasks| && tasks[j].op == ClosureOf(FetchRecipe(id), choice)
    ensures ReplyAt(init, tasks, j) == Ok(MaybeRecipe(RecipeAfter(init, tasks, j, id)))
  {
    hide StoreAfter, RecipeOf;
  }

  lemma AcceptedKeepSchema(s: State)
    requires OrderInv(s) && forall n | 0 <= n < |s.calls| :: KeepsSchema(s.calls[n].op)
    ensures forall t | t in s.accepted :: KeepsSchema(t.op)
  {
    hide KeepsSchema;
    forall t | t in s.accepted ensures KeepsSchema(t.op) {
      var i :| 0 <= i < |s.accepted| && s.accepted[i] == t;
      assert s.calls[t.call].op == t.op;
    }
  }

  /** The executor's own rejections are errors, so a success comes from an accepted operation. */
  lemma SuccessMeansAccepted(s: State, init: Store, n: nat)
    requires IsReachable(s, init) && n in s.answers && s.answers[n].reply.Ok?
    ensures Accepted(s, n)
  {
    hide IsReachable;
    ConcurrentRunsLinearize(s, init);
  }

  /** One PUT in a run: call `a` submitted `put` and was answered `updated`; after that call `b`
      submitted `fetch` and was answered `fetched`. All other calls are any that keep the schema. */
  ghost predicate PutRun(s: State, init: Store, a: nat, put: Closure, updated: Reply, b: nat, fetch: Closure, fetched: Reply) {
    && IsReachable(s, init) && Consistent(init)
    && (forall n | 0 <= n < |s.calls| :: KeepsSchema(s.calls[n].op))
    && a < |s.calls| && s.calls[a].op == put && Precedes(s, a, b) && s.answers[a].reply == updated
    && b < |s.calls| && s.calls[b].op == fetch && b in s.answers && s.answers[b].reply == fetched
  }

  /** A body shows product `id` as the operations before place `j` left it; if none of those after
      place `i` touches it, that is `p`. */
  ghost predicate ShowsProduct(init: Store, tasks: seq<Task>, i: nat, j: nat, id: int, p: Product, body: Body) {
    && i < j < |tasks|
    && ProductAfter(init, tasks, j, id).Some?
    && body == ProductBody(ToProductView(ProductAfter(init, tasks, j, id).value))
    && (Untouched(tasks, i + 1, j, ReadProductAt(id)) ==> body == ProductBody(ToProductView(p.(id := Some(id)))))
  }

  ghost predicate ShowsRecipe(init: Store, tasks: seq<Task>, i: nat, j: nat, id: int, r: Recipe, body: Body) {
    && i < j < |tasks|
    && RecipeAfter(init, tasks, j, id).Some?
    && body == RecipeBody(ToRecipeView(RecipeAfter(init, tasks, j, id).value))
    && (Untouched(tasks, i + 1, j, ReadRecipeAt(id)) ==> body == RecipeBody(ToRecipeView(Views.AsStored(r, id))))
  }

  ghost predicate WroteProduct(init: Store, tasks: seq<Task>, i: nat, id: int, p: Product) {
    i < |tasks| && ProductAfter(init, tasks, i + 1, id) == Some(p.(id := Some(id)))
  }

  ghost predicate WroteRecipe(init: Store, tasks: seq<Task>, i: nat, id: int, r: Recipe) {
    i < |tasks| && RecipeAfter(init, tasks, i + 1, id) == Some(Views.AsStored(r, id))
  }

  predicate AtPlace(s: State, a: nat, i: nat) { a < |s.calls| && s.calls[a].position == Some(i) }

  /** Calls `a` and `b` took places `i` and `j` in the acceptance order. */
  predicate AtPlaces(s: State, a: nat, i: nat, b: nat, j: nat) {
    AtPlace(s, a, i) && AtPlace(s, b, j)
  }

  /** A successful update is applied at the place of call `a`, whatever the second step brings; a
      200 reply shows the product as it is at a later place, that of call `b`, and shows what was
      written if nothing accepted between the two touches that product. */
  lemma PutProductInterleaved(
      s: State, init: Store, a: nat, updated: Reply, b: nat, fetched: Reply, id: int, p: Product, c: Choice, d: Choice)
    requires LegalChoice(c) && updated.Ok?
    requires PutRun(s, init, a, ClosureOf(PutProduct(id, p), c), updated, b, ClosureOf(FetchProduct(id), d), fetched)
    ensures exists i: nat :: AtPlace(s, a, i) && WroteProduct(init, s.accepted, i, id, p)
    ensures var reply := PutProductReply(updated, fetched);
            reply.status == 200 ==>
              exists i: nat, j: nat :: AtPlaces(s, a, i, b, j) && ShowsProduct(init, s.accepted, i, j, id, p, reply.body)
  {
    hide IsReachable, Inv, StoreAfter, ReplyAt, KeepsSchema, ProductOf, Consistent, ClosureOf, Untouched, LegalChoice;
    var i := PutPlace(s, init, a);
    PutTakesEffect(init, s.accepted, i, PutProduct(id, p), c);
    assert AtPlace(s, a, i);
    assert WroteProduct(init, s.accepted, i, id, p);
    if fetched.Ok? {
      var j := FetchPlace(s, init, a, b);
      FetchedProduct(init, s.accepted, j, id, d);
      if Untouched(s.accepted, i + 1, j, ReadProductAt(id)) {
        UntouchedReadsSame(init, s.accepted, i + 1, j, ReadProductAt(id));
      }
      assert AtPlaces(s, a, i, b, j);
    }
  }

  lemma PutRecipeInterleaved(
      s: State, init: Store, a: nat, updated: Reply, b: nat, fetched: Reply, id: int, r: Recipe, c: Choice, d: Choice)
    requires LegalChoice(c) && updated.Ok?
    requires PutRun(s, init, a, ClosureOf(PutRecipe(id, r), c), updated, b, ClosureOf(FetchRecipe(id), d), fetched)
    ensures exists i: nat :: AtPlace(s, a, i) && WroteRecipe(init, s.accepted, i, id, r)
    ensures var reply := PutRecipeReply(updated, fetched);
            reply.status == 200 ==>
              exists i: nat, j: nat :: AtPlaces(s, a, i, b, j) && ShowsRecipe(init, s.accepted, i, j, id, r, reply.body)
  {
    hide IsReachable, Inv, StoreAfter, ReplyAt, KeepsSchema, RecipeOf, Consistent, ClosureOf, Untouched, LegalChoice;
    hide ToRecipeView, Views.AsStored;
    var i := PutPlace(s, init, a);
    PutTakesEffect(init, s.accepted, i, PutRecipe(id, r), c);
    assert AtPlace(s, a, i);
    assert WroteRecipe(init, s.accepted, i, id, r);
    if fetched.Ok? {
      var j := FetchPlace(s, init, a, b);
      FetchedRecipe(init, s.accepted, j, id, d);
      if Untouched(s.accepted, i + 1, j, ReadRecipeAt(id)) {
        UntouchedReadsSame(init, s.accepted, i + 1, j, ReadRecipeAt(id));
      }
      assert AtPlaces(s, a, i, b, j);
    }
  }

  lemma AcceptedPlace(s: State, init: Store, a: nat, b: nat) returns (j: nat)
    requires IsReachable(s, init) && Precedes(s, a, b) && Accepted(s, a) && Accepted(s, b) && b in s.answers
    ensures s.calls[b].position == Some(j) && s.calls[a].position.value < j < |s.accepted|
    ensures s.accepted[j].op == s.calls[b].op && s.answers[b].reply == ReplyAt(init, s.accepted, j)
  {
    hide IsReachable, StoreAfter, ReplyAt;
    ConcurrentRunsLinearize(s, init);
    assert TookEffectInTurn(s, init, b);
    j := s.calls[b].position.value;
  }

  lemma PutPlace(s: State, init: Store, a: nat) returns (i: nat)
    requires IsReachable(s, init) && a < |s.calls| && a in s.answers && s.answers[a].reply.Ok?
    requires forall n | 0 <= n < |s.calls| :: KeepsSchema(s.calls[n].op)
    ensures Accepted(s, a) && s.calls[a].position == Some(i) && i < |s.accepted|
    ensures s.accepted[i].op == s.calls[a].op && s.answers[a].reply == ReplyAt(init, s.accepted, i)
    ensures forall t | t in s.accepted :: KeepsSchema(t.op)
  {
    hide IsReachable, StoreAfter, ReplyAt, KeepsSchema;
    ReachableInv(s, init);
    AcceptedKeepSchema(s);
    SuccessMeansAccepted(s, init, a);
    ConcurrentRunsLinearize(s, init);
    assert TookEffectInTurn(s, init, a);
    i := s.calls[a].position.value;
  }

  lemma FetchPlace(s: State, init: Store, a: nat, b: nat) returns (j: nat)
    requires IsReachable(s, init) && Precedes(s, a, b) && Accepted(s, a)
    requires b in s.answers && s.answers[b].reply.Ok?
    ensures Accepted(s, b) && s.calls[b].position == Some(j) && s.calls[a].position.value < j < |s.accepted|
    ensures s.accepted[j].op == s.calls[b].op && s.answers[b].reply == ReplyAt(init, s.accepted, j)
  {
    hide IsReachable, StoreAfter, ReplyAt;
    SuccessMeansAccepted(s, init, b);
    j := AcceptedPlace(s, init, a, b);
  }
}
