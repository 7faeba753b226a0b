/** Which recipes can be cooked, followed over a run. */
module Cooking {
  import opened Wrappers
  import opened Kitchen
  import opened Ordering
  import opened Tables
  import opened StoreSpec
  import opened Listings
  import opened ServiceSpec
  import opened Executor
  import opened ExecutorTheorems
  import opened Readings
  import opened ServiceRuns
  import SchemaInvariant
  import Sql

  /** Ids of the recipes every ingredient of which is in stock. */
  ghost function Cookable(s: Store): set<int> {
    set r | r in s.recipes && Covered(s, ReadRecipe(s, r)) :: r.id
  }

  /** The cookable listing shows exactly these recipes. */
  lemma CookableIsListed(s: Store, id: int)
    requires Consistent(s)
    ensures id in Cookable(s) <==> exists recipe :: recipe in CookableRecipes(s) && recipe.id == Some(id)
  {
    hide Consistent, Covered, ReadRecipe, AllRecipes;
    AllRecipesShape(s);
    if id in Cookable(s) {
      var r :| r in s.recipes && Covered(s, ReadRecipe(s, r)) && r.id == id;
      ReadsUnderItsId(s, r);
      FilterHolds(AllRecipes(s), recipe => Covered(s, recipe), ReadRecipe(s, r));
    }
    if recipe :| recipe in CookableRecipes(s) && recipe.id == Some(id) {
      var k :| 0 <= k < |AllRecipes(s)| && AllRecipes(s)[k] == recipe;
      assert IsStored(s, recipe);
      var r :| r in s.recipes && recipe == ReadRecipe(s, r);
      ReadsUnderItsId(s, r);
    }
  }

  /** Recipes stay, and no (name, dimension) has less in stock than before. */
  ghost predicate StockNeverFalls(s: Store, t: Store) {
    && s.recipes == t.recipes && s.ingredients == t.ingredients
    && (forall p | p in s.products :: InStock(t, RowKey(p), p.amount))
  }

  lemma CoveredByIngredientRows(s: Store, r: RecipeRow)
    ensures Covered(s, ReadRecipe(s, r)) <==>
            forall i | i in s.ingredients && i.recipeId == r.id :: InStock(s, IngredientKey(i), i.required)
  {
    if Covered(s, ReadRecipe(s, r)) {
      var sorted := SortedIngredients(s, r.id);
      forall i | i in s.ingredients && i.recipeId == r.id ensures InStock(s, IngredientKey(i), i.required) {
        assert i in Sql.SelectRecipeIngredientsByRecipeId(s, r.id);
        var k :| 0 <= k < |sorted| && sorted[k] == i;
        assert ReadRecipe(s, r).ingredients[k] == ReadIngredient(i);
      }
    } else if forall i | i in s.ingredients && i.recipeId == r.id :: InStock(s, IngredientKey(i), i.required) {
      CoveredByRows(s, r);
    }
  }

  lemma MoreStockCooksMore(s: Store, t: Store)
    requires StockNeverFalls(s, t)
    ensures Cookable(s) <= Cookable(t)
  {
    hide Covered, ReadRecipe;
    forall r | r in s.recipes && Covered(s, ReadRecipe(s, r)) ensures Covered(t, ReadRecipe(t, r)) {
      CoveredByIngredientRows(s, r);
      CoveredByIngredientRows(t, r);
    }
  }

  /** Across any accepted operations none of which lowers stock or changes recipes when its turn
      comes, the set of cookable recipes only grows. */
  lemma {:induction false} CookableGrows(init: Store, tasks: seq<Task>)
    requires forall k | 0 <= k < |tasks| ::
               StockNeverFalls(StoreAfter(init, tasks[..k]), StoreAfter(init, tasks[..k + 1]))
    ensures Cookable(init) <= Cookable(StoreAfter(init, tasks))
  {
    hide StockNeverFalls, Cookable;
    if tasks != [] {
      var n := |tasks| - 1;
      var front := tasks[..n];
      forall k | 0 <= k < n ensures StockNeverFalls(StoreAfter(init, front[..k]), StoreAfter(init, front[..k + 1])) {
        assert front[..k] == tasks[..k] && front[..k + 1] == tasks[..k + 1];
      }
      CookableGrows(init, front);
      assert tasks[..n + 1] == tasks;
      MoreStockCooksMore(StoreAfter(init, front), StoreAfter(init, tasks));
    }
  }

  /** An upsert sets the amount, it does not add: stock never falls exactly when the new amount is
      at least the amount already held under that key. */
  lemma UpsertSetsAmount(s: Store, p: Product, pick: int -> int)
    requires Consistent(s) && PicksFreshIds(pick) && p.amount >= 0
    ensures StockNeverFalls(s, InsertProduct(s, p, pick).db) <==>
            forall q | q in s.products && RowKey(q) == KeyOf(p) :: q.amount <= p.amount
  {
    hide StoredDate, BindDate;
    var id := ProductIdFor(s, KeyOf(p), pick);
    var t := WithProduct(s, id, p);
    var row := BindProduct(id, p);
    assert row in t.products && RowKey(row) == KeyOf(p);
    forall q | q in s.products
      ensures InStock(t, RowKey(q), q.amount) <==> RowKey(q) != KeyOf(p) || q.amount <= p.amount
    {
      if RowKey(q) != KeyOf(p) { assert q in t.products; }
    }
  }

  /** Updating a product by id: stock never falls exactly when the key stays and the amount does not
      go down. */
  lemma UpdateKeepsStock(s: Store, id: int, p: Product, q: ProductRow)
    requires Consistent(s) && q in s.products && q.id == id && UpdateProduct(s, id, p).value == Ok(true)
    ensures StockNeverFalls(s, UpdateProduct(s, id, p).db) <==> KeyOf(p) == RowKey(q) && q.amount <= p.amount
  {
    hide StoredDate, BindDate;
    var t := WithProduct(s, id, p);
    var row := BindProduct(id, p);
    assert row in t.products && RowKey(row) == KeyOf(p);
    forall other | other in s.products && other != q ensures InStock(t, RowKey(other), other.amount) {
      assert other in t.products;
    }
  }

  /** Reading, listing and creating products never lower stock. */
  lemma RequestsThatKeepStock(s: Store, request: Request, choice: Choice)
    requires Consistent(s) && LegalChoice(choice)
    requires request.PostProduct? || request.FetchProduct? || request.ListProducts?
             || request.FetchRecipe? || request.ListRecipes? || request.ListCookable?
    ensures StockNeverFalls(s, Serve(s, request, choice).0)
  {
    hide StoredDate, BindDate, AllRecipes, CookableRecipes, RecipeOf, ProductOf;
    var t := Serve(s, request, choice).0;
    forall p | p in s.products ensures InStock(t, RowKey(p), p.amount) {
      assert p in t.products;
    }
  }

  // ---- Runs ----

  /** A read, a product create, or a PUT of a product that keeps the key and does not lower the amount
      the product has in `s`. */
  predicate KeepsStockAt(s: Store, request: Request) {
    match request
    case PutProduct(id, p) => forall q | q in s.products && q.id == id :: RowKey(q) == KeyOf(p) && q.amount <= p.amount
    case RemoveProduct(_) => false
    case PostRecipe(_) => false
    case PutRecipe(_, _) => false
    case RemoveRecipe(_) => false
    case _ => true
  }

  lemma PutKeepsStock(s: Store, id: int, p: Product, choice: Choice)
    requires Consistent(s) && KeepsStockAt(s, PutProduct(id, p))
    ensures StockNeverFalls(s, Serve(s, PutProduct(id, p), choice).0)
  {
    hide Consistent, StockNeverFalls, WithProduct;
    if UpdateProduct(s, id, p).value == Ok(true) {
      var q :| q in s.products && q.id == id;
      UpdateKeepsStock(s, id, p, q);
    }
    SameStockNeverFalls(s);
  }

  lemma SameStockNeverFalls(s: Store)
    ensures StockNeverFalls(s, s)
  {
  }

  lemma StockKept(s: Store, request: Request, choice: Choice)
    requires Consistent(s) && LegalChoice(choice) && KeepsStockAt(s, request)
    ensures StockNeverFalls(s, Serve(s, request, choice).0)
  {
    hide Consistent, StockNeverFalls, Serve, LegalChoice;
    if request.PutProduct? {
      PutKeepsStock(s, request.id, request.product, choice);
    } else {
      RequestsThatKeepStock(s, request, choice);
    }
  }

  /** The operation at place `k` is a request that keeps stock in the store it meets. */
  ghost predicate KeepsStockInTurn(init: Store, tasks: seq<Task>, k: nat) {
    && k < |tasks|
    && exists request, choice ::
         && LegalChoice(choice) && tasks[k].op == ClosureOf(request, choice)
         && KeepsStockAt(StoreAfter(init, tasks[..k]), request)
  }

  lemma TurnKeepsSchema(init: Store, tasks: seq<Task>, k: nat)
    requires KeepsStockInTurn(init, tasks, k)
    ensures KeepsSchema(tasks[k].op)
  {
    hide LegalChoice, ClosureOf, KeepsSchema, KeepsStockAt, StoreAfter;
    var request, choice :| LegalChoice(choice) && tasks[k].op == ClosureOf(request, choice)
                           && KeepsStockAt(StoreAfter(init, tasks[..k]), request);
    RequestsKeepSchema(request, choice);
  }

  lemma TurnKeepsStock(init: Store, tasks: seq<Task>, k: nat)
    requires KeepsStockInTurn(init, tasks, k) && Consistent(StoreAfter(init, tasks[..k]))
    ensures StockNeverFalls(StoreAfter(init, tasks[..k]), StoreAfter(init, tasks[..k + 1]))
  {
    hide LegalChoice, KeepsStockAt, StoreAfter, StockNeverFalls, Consistent, Serve, ClosureOf;
    var request, choice :| LegalChoice(choice) && tasks[k].op == ClosureOf(request, choice)
                           && KeepsStockAt(StoreAfter(init, tasks[..k]), request);
    assert tasks[..k + 1] == tasks[..k] + [tasks[k]];
    StoreAfterSnoc(init, tasks[..k], tasks[k]);
    ClosureRuns(request, choice, StoreAfter(init, tasks[..k]));
    StockKept(StoreAfter(init, tasks[..k]), request, choice);
  }

  lemma TurnsKeepStock(init: Store, tasks: seq<Task>)
    requires Consistent(init) && forall k | 0 <= k < |tasks| :: KeepsStockInTurn(init, tasks, k)
    ensures Cookable(init) <= Cookable(StoreAfter(init, tasks))
  {
    hide Consistent, KeepsStockInTurn, StockNeverFalls, StoreAfter, Cookable, KeepsSchema, SchemaInvariant.Sound;
    forall k | 0 <= k < |tasks|
      ensures StockNeverFalls(StoreAfter(init, tasks[..k]), StoreAfter(init, tasks[..k + 1]))
    {
      forall t | t in tasks[..k] ensures KeepsSchema(t.op) {
        var i :| 0 <= i < k && tasks[i] == t;
        TurnKeepsSchema(init, tasks, i);
      }
      TasksKeepSchema(init, tasks[..k]);
      SchemaInvariant.SoundIsConsistent(init, StoreAfter(init, tasks[..k]));
      TurnKeepsStock(init, tasks, k);
    }
    CookableGrows(init, tasks);
  }

  /** In every reachable state of every interleaving: if each operation applied so far is a read, a
      product create, or a PUT that keeps its product's key and does not lower its amount, then no
      recipe that could be cooked at the start is lost. */
  lemma CookableGrowsInRuns(s: State, init: Store)
    requires IsReachable(s, init) && Consistent(init)
    requires forall k | 0 <= k < Applied(s) :: KeepsStockInTurn(init, s.accepted, k)
    ensures Cookable(init) <= Cookable(s.store)
  {
    hide Consistent, IsReachable, Cookable, StoreAfter, KeepsStockInTurn;
    ConcurrentRunsLinearize(s, init);
    var tasks := s.accepted[..Applied(s)];
    forall k | 0 <= k < |tasks| ensures KeepsStockInTurn(init, tasks, k) {
      SameTurn(init, s.accepted, |tasks|, k);
    }
    TurnsKeepStock(init, tasks);
  }

  lemma SameTurn(init: Store, tasks: seq<Task>, n: nat, k: nat)
    requires k < n <= |tasks| && KeepsStockInTurn(init, tasks, k)
    ensures KeepsStockInTurn(init, tasks[..n], k)
  {
    hide LegalChoice, ClosureOf, KeepsStockAt, StoreAfter;
    assert tasks[..n][..k] == tasks[..k];
  }
}
