/**
 The replies of a PUT, as HTTP statuses and bodies: how its first step is refused, and what a 200 body
 holds.
 */
module PutOutcomes {
  import opened Wrappers
  import opened Kitchen
  import opened Tables
  import opened StoreSpec
  import opened Listings
  import opened ServiceSpec
  import opened Executor
  import opened ExecutorTheorems
  import opened Admission
  import opened Http
  import opened Readings
  import opened Replies
  import opened ServiceRuns
  import opened PutReplies
  import SchemaInvariant
  import Views

  // ---- The first step ----

  predicate Refused(updated: Reply, reply: HttpReply, status: nat, code: string) {
    updated.Err? && reply.status == status && reply.body.ErrorBody? && reply.body.code == code
  }

  /** The status and code of each kind of error, whichever resource it is about. */
  lemma ErrorStatuses(updated: Reply, fetched: Reply)
    requires updated.Err?
    ensures PutProductReply(updated, fetched) == PutRecipeReply(updated, fetched)
    ensures Fails(updated, Validation) ==> Refused(updated, PutProductReply(updated, fetched), 422, "validation_error")
    ensures Fails(updated, NotFound) ==> Refused(updated, PutProductReply(updated, fetched), 404, "not_found")
    ensures Fails(updated, Conflict) ==> Refused(updated, PutProductReply(updated, fetched), 409, "conflict")
    ensures Fails(updated, Storage) ==> Refused(updated, PutProductReply(updated, fetched), 500, "internal_error")
    ensures Fails(updated, Overloaded) ==> Refused(updated, PutProductReply(updated, fetched), 503, "overloaded")
  {
  }

  /** The message a client sees is that of the error, except that a storage error is not passed on. */
  lemma ErrorMessages(updated: Reply, fetched: Reply)
    requires updated.Err?
    ensures PutProductReply(updated, fetched).body.ErrorBody?
    ensures !Fails(updated, Storage) ==> PutProductReply(updated, fetched).body.message == updated.error.message
    ensures Fails(updated, Storage) ==> PutProductReply(updated, fetched).body.message == "Storage operation failed"
  {
  }

  /** An accepted request took its turn at some place: its reply and the store after it are those of
      the use case on the store it met. */
  lemma AcceptedUpdate(s: State, init: Store, a: nat, request: Request, c: Choice) returns (i: nat)
    requires IsReachable(s, init) && Consistent(init) && Accepted(s, a) && a in s.answers
    requires forall n | 0 <= n < |s.calls| :: KeepsSchema(s.calls[n].op)
    requires s.calls[a].op == ClosureOf(request, c)
    ensures AtPlace(s, a, i) && i < |s.accepted| && Consistent(StoreAfter(init, s.accepted[..i]))
    ensures (StoreAfter(init, s.accepted[..i + 1]), s.answers[a].reply)
            == Serve(StoreAfter(init, s.accepted[..i]), request, c)
  {
    hide IsReachable, Consistent, KeepsSchema, ClosureOf, Serve, StoreAfter, ReplyAt, TookEffectInTurn;
    i := TurnOf(s, init, a);
    ServedAt(init, s.accepted, i, request, c);
  }

  lemma TurnOf(s: State, init: Store, a: nat) returns (i: nat)
    requires IsReachable(s, init) && Accepted(s, a) && a in s.answers
    requires forall n | 0 <= n < |s.calls| :: KeepsSchema(s.calls[n].op)
    ensures AtPlace(s, a, i) && i < |s.accepted|
    ensures s.accepted[i].op == s.calls[a].op && s.answers[a].reply == ReplyAt(init, s.accepted, i)
    ensures forall t | t in s.accepted :: KeepsSchema(t.op)
  {
    hide IsReachable, KeepsSchema, StoreAfter, ReplyAt, LockInv, QueueInv, WakeInv, StoreInv, CallInv, OrderInv, AnswerInv;
    ReachableInv(s, init);
    AcceptedKeepSchema(s);
    InTurn(s, init, a);
    i := s.calls[a].position.value;
  }

  lemma ServedAt(init: Store, tasks: seq<Task>, i: nat, request: Request, c: Choice)
    requires i < |tasks| && tasks[i].op == ClosureOf(request, c)
    requires Consistent(init) && forall t | t in tasks :: KeepsSchema(t.op)
    ensures Consistent(StoreAfter(init, tasks[..i]))
    ensures (StoreAfter(init, tasks[..i + 1]), ReplyAt(init, tasks, i)) == Serve(StoreAfter(init, tasks[..i]), request, c)
  {
    hide Consistent, KeepsSchema, ClosureOf, Serve, StoreAfter, SchemaInvariant.Sound;
    var before := StoreAfter(init, tasks[..i]);
    TasksKeepSchema(init, tasks[..i]);
    SchemaInvariant.SoundIsConsistent(init, before);
    assert tasks[..i + 1] == tasks[..i] + [tasks[i]];
    StoreAfterSnoc(init, tasks[..i], tasks[i]);
    ClosureRuns(request, c, before);
  }

  /** A product update that met the tables `before` and left `after`: when it is refused, with which
      status, and when it is applied. A refused update changes nothing. */
  ghost predicate ProductUpdateReplies(before: Store, after: Store, id: int, p: Product, updated: Reply, reply: HttpReply) {
    if p.name == "" || p.amount < 0 then
      Refused(updated, reply, 422, "validation_error") && after == before
    else if forall q | q in before.products :: q.id != id then
      Refused(updated, reply, 404, "not_found") && after == before
    else if exists q :: q in before.products && q.id != id && q.name == p.name && q.dimension == p.dimension then
      Refused(updated, reply, 500, "internal_error") && after == before
    else updated.Ok?
  }

  lemma ProductUpdateDecides(s: Store, id: int, p: Product, c: Choice, fetched: Reply)
    requires Consistent(s) && LegalChoice(c)
    ensures var (t, updated) := Serve(s, PutProduct(id, p), c);
            ProductUpdateReplies(s, t, id, p, updated, PutProductReply(updated, fetched))
  {
    var updated := Serve(s, PutProduct(id, p), c).1;
    if updated.Err? { ErrorStatuses(updated, fetched); }
    hide PutProductReply, Refused;
    ProductWritesDecide(s, PutProduct(id, p), c);
    hide Consistent, LegalChoice, Serve;
  }

  /** In every run, what a PUT of a product replies by its first step: 503 when the update met a full queue,
      500 when it met the stop flag, and otherwise what the tables at its place decide. */
  lemma PutProductFirstStep(
      capacity: nat, steps: seq<Step>, s: State, init: Store, a: nat, id: int, p: Product, c: Choice, fetched: Reply)
    requires Run(capacity, init, steps, s) && IsReachable(s, init) && Consistent(init) && LegalChoice(c)
    requires forall n | 0 <= n < |s.calls| :: KeepsSchema(s.calls[n].op)
    requires a < |s.calls| && a in s.answers && s.calls[a].op == ClosureOf(PutProduct(id, p), c)
    ensures var updated := s.answers[a].reply;
            var reply := PutProductReply(updated, fetched);
            if MetFullQueue(capacity, init, steps, a) then Refused(updated, reply, 503, "overloaded")
            else if MetStopFlag(capacity, init, steps, a) then Refused(updated, reply, 500, "internal_error")
            else
              exists i: nat ::
                && AtPlace(s, a, i) && i < |s.accepted|
                && ProductUpdateReplies(StoreAfter(init, s.accepted[..i]), StoreAfter(init, s.accepted[..i + 1]),
                                        id, p, updated, reply)
  {
    hide Run, IsReachable, Consistent, LegalChoice, KeepsSchema, ClosureOf, MetFullQueue, MetStopFlag, Serve;
    hide ProductUpdateReplies, StoreAfter, ReplyAt;
    Fate(capacity, init, steps, s, a);
    if Accepted(s, a) {
      var i := AcceptedUpdate(s, init, a, PutProduct(id, p), c);
      ProductUpdateDecides(StoreAfter(init, s.accepted[..i]), id, p, c, fetched);
    }
  }

  /** A recipe update that met the tables `before` and left `after`: when it is refused, with which
      status, and when it is applied. A refused update changes nothing. */
  ghost predicate RecipeUpdateReplies(before: Store, after: Store, id: int, r: Recipe, updated: Reply, reply: HttpReply) {
    if r.name == "" || exists p :: p in r.ingredients && (p.name == "" || p.amount < 0) then
      Refused(updated, reply, 422, "validation_error") && after == before
    else if forall t | t in before.recipes :: t.id != id then
      Refused(updated, reply, 404, "not_found") && after == before
    else if exists t :: t in before.recipes && t.id != id && t.name == r.name then
      Refused(updated, reply, 500, "internal_error") && after == before
    else updated.Ok?
  }

  lemma RecipeUpdateDecides(s: Store, id: int, r: Recipe, c: Choice, fetched: Reply)
    requires Consistent(s) && LegalChoice(c)
    ensures var (t, updated) := Serve(s, PutRecipe(id, r), c);
            RecipeUpdateReplies(s, t, id, r, updated, PutRecipeReply(updated, fetched))
  {
    var updated := Serve(s, PutRecipe(id, r), c).1;
    if updated.Err? { ErrorStatuses(updated, fetched); }
    hide PutRecipeReply, Refused;
    RecipeWritesDecide(s, PutRecipe(id, r), c);
    hide Consistent, LegalChoice, Serve;
  }

  /** In every run, what a PUT of a recipe replies by its first step: 503 when the update met a full queue,
      500 when it met the stop flag, and otherwise what the tables at its place decide. */
  lemma PutRecipeFirstStep(
      capacity: nat, steps: seq<Step>, s: State, init: Store, a: nat, id: int, r: Recipe, c: Choice, fetched: Reply)
    requires Run(capacity, init, steps, s) && IsReachable(s, init) && Consistent(init) && LegalChoice(c)
    requires forall n | 0 <= n < |s.calls| :: KeepsSchema(s.calls[n].op)
    requires a < |s.calls| && a in s.answers && s.calls[a].op == ClosureOf(PutRecipe(id, r), c)
    ensures var updated := s.answers[a].reply;
            var reply := PutRecipeReply(updated, fetched);
            if MetFullQueue(capacity, init, steps, a) then Refused(updated, reply, 503, "overloaded")
            else if MetStopFlag(capacity, init, steps, a) then Refused(updated, reply, 500, "internal_error")
            else
              exists i: nat ::
                && AtPlace(s, a, i) && i < |s.accepted|
                && RecipeUpdateReplies(StoreAfter(init, s.accepted[..i]), StoreAfter(init, s.accepted[..i + 1]),
                                        id, r, updated, reply)
  {
    hide Run, IsReachable, Consistent, LegalChoice, KeepsSchema, ClosureOf, MetFullQueue, MetStopFlag, Serve;
    hide RecipeUpdateReplies, StoreAfter, ReplyAt;
    Fate(capacity, init, steps, s, a);
    if Accepted(s, a) {
      var i := AcceptedUpdate(s, init, a, PutRecipe(id, r), c);
      RecipeUpdateDecides(StoreAfter(init, s.accepted[..i]), id, r, c, fetched);
    }
  }

  // ---- Bodies ----

  /** A dimension as clients see it. */
  lemma DimensionTexts(d: Dimension)
    ensures DimensionText(d) == match d case Gramm => "gr" case Kilogramm => "kg" case Milliliter => "ml" case Liter => "l" case Piece => "pc"
  {
  }

  predicate ShowsFields(view: ProductView, id: int, p: Product) {
    && view.id == id && view.name == p.name && view.amount == p.amount
    && ParseDimension(view.dimension) == Some(p.dimension)
  }

  lemma ViewShowsFields(p: Product)
    ensures ShowsFields(ToProductView(p), if p.id.Some? then p.id.value else 0, p)
  {
    DimensionRoundTrip(p.dimension, "");
  }

  /** A recipe body shows the id, the name, and every ingredient in its place. */
  predicate ShowsRecipeFields(view: RecipeView, id: int, recipe: Recipe) {
    && view.id == id && view.name == recipe.name && |view.ingredients| == |recipe.ingredients|
    && (forall k | 0 <= k < |recipe.ingredients| :: ShowsFields(view.ingredients[k], 0, recipe.ingredients[k]))
  }

  lemma RecipeViewShowsFields(recipe: Recipe)
    requires forall p | p in recipe.ingredients :: p.id == None
    ensures ShowsRecipeFields(ToRecipeView(recipe), if recipe.id.Some? then recipe.id.value else 0, recipe)
  {
    hide ToProductView, ShowsFields;
    forall k | 0 <= k < |recipe.ingredients|
      ensures ShowsFields(ToRecipeView(recipe).ingredients[k], 0, recipe.ingredients[k])
    {
      ViewShowsFields(recipe.ingredients[k]);
    }
  }

  /** A fetch of an id replies 200 with the row of that id, column by column, or 404 when there is none. */
  lemma FetchProductBody(s: Store, id: int, c: Choice)
    requires Consistent(s) && LegalChoice(c)
    ensures var reply := GetProductReply(Serve(s, FetchProduct(id), c).1);
            if forall q | q in s.products :: q.id != id then reply.status == 404
            else
              && reply.status == 200 && reply.body.ProductBody?
              && exists q :: q in s.products && q.id == id && reply.body.product.id == id
                             && reply.body.product.name == q.name && reply.body.product.amount == q.amount
                             && ParseDimension(reply.body.product.dimension) == Some(q.dimension)
  {
    ReadsReply(s, FetchProduct(id), c);
    var reply := Serve(s, FetchProduct(id), c).1;
    hide Consistent, LegalChoice, Serve, ToProductView, ReadDate;
    if p :| reply.value.found == Some(p) {
      ViewShowsFields(p);
    }
  }

  lemma FetchRecipeBody(s: Store, id: int, c: Choice)
    requires Consistent(s) && LegalChoice(c)
    ensures var reply := GetRecipeReply(Serve(s, FetchRecipe(id), c).1);
            if forall r | r in s.recipes :: r.id != id then reply.status == 404
            else
              && reply.status == 200 && reply.body.RecipeBody?
              && exists recipe :: RecipeOf(s, id) == Some(recipe) && ShowsRecipeFields(reply.body.recipe, id, recipe)
  {
    ReadsReply(s, FetchRecipe(id), c);
    FetchReplies(s, id, c);
    hide Consistent, LegalChoice, Serve, ToRecipeView, RecipeOf, ShowsRecipeFields;
    if recipe :| RecipeOf(s, id) == Some(recipe) {
      WithoutIds(s, id, recipe.ingredients);
      RecipeViewShowsFields(recipe);
    }
  }

  lemma WithoutIds(s: Store, id: int, back: seq<Product>)
    requires ShowsIngredients(s, id, back)
    ensures forall p | p in back :: p.id == None
  {
    forall p | p in back ensures p.id == None {
      var k: nat :| k < |back| && back[k] == p;
    }
  }

  lemma KeptWithoutIds(list: seq<Product>, back: seq<Product>)
    requires KeepsLast(list, back)
    ensures forall p | p in back :: p.id == None
  {
    forall p | p in back ensures p.id == None {
      var k: nat :| k < |back| && back[k] == p;
      assert ComesFromLast(list, back, k);
    }
  }

  /** What a client that wrote a product sees in a 200 reply when nothing touched it in between. */
  lemma WrittenProductBody(init: Store, tasks: seq<Task>, i: nat, j: nat, id: int, p: Product, body: Body)
    requires ShowsProduct(init, tasks, i, j, id, p, body) && Untouched(tasks, i + 1, j, ReadProductAt(id))
    ensures body.ProductBody? && ShowsFields(body.product, id, p)
  {
    hide StoreAfter, ProductOf, Untouched, ToProductView;
    ViewShowsFields(p.(id := Some(id)));
  }

  /** And a client that wrote a recipe: its id and name, and of each name and dimension the last amount. */
  lemma WrittenRecipeBody(init: Store, tasks: seq<Task>, i: nat, j: nat, id: int, r: Recipe, body: Body)
    requires ShowsRecipe(init, tasks, i, j, id, r, body) && Untouched(tasks, i + 1, j, ReadRecipeAt(id))
    ensures body.RecipeBody?
    ensures exists recipe :: ReadsBack(Some(recipe), id, r) && ShowsRecipeFields(body.recipe, id, recipe)
  {
    hide StoreAfter, RecipeOf, Untouched, ToRecipeView, KeepsLast, Views.Normalized, ShowsRecipeFields;
    var recipe := Views.AsStored(r, id);
    StoredReadsBack(r, id);
    KeptWithoutIds(r.ingredients, recipe.ingredients);
    RecipeViewShowsFields(recipe);
  }

  // ---- Operations that throw ----

  /** An accepted operation that throws in its turn is answered with a Storage error: the text of the
      exception, or a fixed text when it is none of the standard ones. */
  lemma ThrownIsStorageError(s: State, init: Store, n: nat, i: nat)
    requires IsReachable(s, init) && AtPlace(s, n, i) && n in s.answers && i < |s.accepted|
    ensures match s.accepted[i].op(StoreAfter(init, s.accepted[..i])).1
            case Returned(reply) => s.answers[n].reply == reply
            case Threw(what) => s.answers[n].reply == Err(Error(Storage, what))
            case ThrewUnknown =>
              s.answers[n].reply.Err? && s.answers[n].reply.error.code == Storage
              && s.answers[n].reply.error.message == "Unknown database worker error"
  {
    hide IsReachable, StoreAfter;
    ConcurrentRunsLinearize(s, init);
    assert Accepted(s, n);
  }
}
