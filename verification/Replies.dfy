/**
 The service request by request: what each read replies, and exactly when each write is refused, in
 terms of the fields of the request and the rows of the tables.
 */
module Replies {
  import opened Wrappers
  import opened Kitchen
  import opened Tables
  import opened StoreSpec
  import opened Listings
  import opened ServiceSpec
  import opened Readings
  import SchemaInvariant
  import Views

  // ---- Reads ----

  /** Every read leaves the store alone and succeeds. A fetch shows the row and ingredient rows of its
      id, or nothing when there is none; the listings show each product or recipe once and in order;
      the cookable listing shows the recipes every ingredient of which is in stock. */
  lemma ReadsReply(s: Store, request: Request, choice: Choice)
    requires Consistent(s) && LegalChoice(choice)
    ensures var (t, reply) := Serve(s, request, choice);
            match request
            case FetchProduct(id) =>
              && t == s && reply.Ok? && reply.value.MaybeProduct?
              && (match reply.value.found
                  case None => forall q | q in s.products :: q.id != id
                  case Some(p) => exists q :: q in s.products && q.id == id && ShowsRow(p, q))
            case FetchRecipe(id) =>
              && t == s && reply.Ok? && reply.value.MaybeRecipe?
              && (match reply.value.foundRecipe
                  case None => forall r | r in s.recipes :: r.id != id
                  case Some(recipe) =>
                    && recipe.id == Some(id) && RecipeRow(id, recipe.name) in s.recipes
                    && ShowsIngredients(s, id, recipe.ingredients))
            case ListProducts =>
              && t == s && reply.Ok? && reply.value.Products? && ListsByAmount(s, reply.value.products)
            case ListRecipes =>
              && t == s && reply.Ok? && reply.value.Recipes? && ListsByName(s, reply.value.recipes)
              && |reply.value.recipes| == |s.recipes|
              && (forall id :: Lists(reply.value.recipes, id) <==> RecipeOf(s, id).Some?)
            case ListCookable =>
              && t == s && reply.Ok? && reply.value.Recipes? && ListsByName(s, reply.value.recipes)
              && (forall id :: Lists(reply.value.recipes, id) <==>
                    RecipeOf(s, id).Some? && forall p | p in RecipeOf(s, id).value.ingredients :: StockCovers(s, p))
            case _ => true
  {
    hide Consistent, ProductOf, RecipeOf, AllRecipes, CookableRecipes, ShowsRow, ShowsIngredients, ListsByAmount;
    hide ListsByName, Lists, StockCovers;
    match request
    case FetchProduct(id) => FetchedProductShowsRow(s, id);
    case FetchRecipe(id) => FetchedRecipeShowsRows(s, id);
    case ListProducts => ProductsByAmount(s, ReadProducts(choice.order(s.products)));
    case ListRecipes => AllRecipesByName(s);
    case ListCookable => CookableByName(s);
    case _ =>
  }

  // ---- Writes ----

  /** Invalid input is reported before an absent id, and that before a taken key; whatever is
      reported, the store stays as it was. */
  predicate Decides(reply: Reply, invalid: bool, absent: bool, taken: bool) {
    if invalid then Fails(reply, Validation)
    else if absent then Fails(reply, NotFound)
    else if taken then Fails(reply, Storage)
    else reply.Ok?
  }

  lemma DecidesByConditions(s: Store, request: Request, choice: Choice)
    requires Consistent(s) && LegalChoice(choice)
    ensures Serve(s, request, choice).1.Err? ==> Serve(s, request, choice).0 == s
    ensures Decides(Serve(s, request, choice).1, Faulty(request), Missing(s, request), Clashing(s, request))
  {
    OutcomeExactly(s, request, choice);
    hide Consistent, LegalChoice, Serve, Faulty, Missing, Clashing;
  }

  /** The outcome of every write of a product, from the request and the rows. */
  lemma ProductWritesDecide(s: Store, request: Request, choice: Choice)
    requires Consistent(s) && LegalChoice(choice)
    ensures Serve(s, request, choice).1.Err? ==> Serve(s, request, choice).0 == s
    ensures var reply := Serve(s, request, choice).1;
            match request
            case PostProduct(p) =>
              Decides(reply, p.name == "" || p.amount < 0, false,
                      exists q :: q in s.products && q.name == p.name && q.dimension == p.dimension)
            case PutProduct(id, p) =>
              Decides(reply, p.name == "" || p.amount < 0, forall q | q in s.products :: q.id != id,
                      exists q :: q in s.products && q.id != id && q.name == p.name && q.dimension == p.dimension)
            case RemoveProduct(id) =>
              Decides(reply, false, forall q | q in s.products :: q.id != id, false)
            case _ => true
  {
    DecidesByConditions(s, request, choice);
    hide Consistent, LegalChoice, Serve, Decides;
  }

  /** And of every write of a recipe. */
  lemma RecipeWritesDecide(s: Store, request: Request, choice: Choice)
    requires Consistent(s) && LegalChoice(choice)
    ensures Serve(s, request, choice).1.Err? ==> Serve(s, request, choice).0 == s
    ensures var reply := Serve(s, request, choice).1;
            match request
            case PostRecipe(r) =>
              Decides(reply, r.name == "" || exists p :: p in r.ingredients && (p.name == "" || p.amount < 0), false,
                      exists t :: t in s.recipes && t.name == r.name)
            case PutRecipe(id, r) =>
              Decides(reply, r.name == "" || exists p :: p in r.ingredients && (p.name == "" || p.amount < 0),
                      forall t | t in s.recipes :: t.id != id,
                      exists t :: t in s.recipes && t.id != id && t.name == r.name)
            case RemoveRecipe(id) =>
              Decides(reply, false, forall t | t in s.recipes :: t.id != id, false)
            case _ => true
  {
    DecidesByConditions(s, request, choice);
    hide Consistent, LegalChoice, Serve, Decides;
  }

  /** The texts of refusals that reach a client: an empty name is reported before a negative amount, and
      of a recipe the first faulty ingredient. */
  lemma RefusalTexts(s: Store, request: Request, choice: Choice)
    ensures var reply := Serve(s, request, choice).1;
            match request
            case PostProduct(p) => Fails(reply, Validation) ==> reply.error.message == ProductText(p)
            case PutProduct(_, p) =>
              && (Fails(reply, Validation) ==> reply.error.message == ProductText(p))
              && (Fails(reply, NotFound) ==> reply.error.message == "Product was not found")
            case RemoveProduct(_) => Fails(reply, NotFound) ==> reply.error.message == "Product was not found"
            case PostRecipe(r) =>
              Fails(reply, Validation) && r.name == "" ==> reply.error.message == "Recipe name must not be empty"
            case PutRecipe(_, r) =>
              && (Fails(reply, Validation) && r.name == "" ==> reply.error.message == "Recipe name must not be empty")
              && (Fails(reply, NotFound) ==> reply.error.message == "Recipe was not found")
            case RemoveRecipe(_) => Fails(reply, NotFound) ==> reply.error.message == "Recipe was not found"
            case _ => true
  {
    hide WithProduct, WithoutProduct, WithRecipe, WithoutRecipe, IngredientFault;
    if request.PutRecipe? { IngredientFaultMeaning(request.recipe.ingredients); }
  }

  function ProductText(p: Product): string {
    if p.name == "" then "Product name must not be empty" else "Product amount must not be negative"
  }

  /** The fault of a recipe with a name is that of its first faulty ingredient. */
  lemma {:induction false} FirstFaulty(list: seq<Product>, k: nat)
    requires k < |list| && (list[k].name == "" || list[k].amount < 0)
    requires forall j | 0 <= j < k :: list[j].name != "" && list[j].amount >= 0
    ensures IngredientFault(list) == Some(Error(Validation, ProductText(list[k])))
  {
    if k > 0 { FirstFaulty(list[1..], k - 1); }
  }

  /** A recipe that is created is replied as it will read: its id, its name, the last amounts. */
  lemma CreateReplies(s: Store, request: Request, choice: Choice)
    requires Consistent(s) && LegalChoice(choice) && Serve(s, request, choice).1.Ok?
    ensures var (t, reply) := Serve(s, request, choice);
            match request
            case PostProduct(p) =>
              && reply.value.AProduct? && reply.value.product.id.Some?
              && reply.value.product == p.(id := reply.value.product.id)
              && ProductOf(t, reply.value.product.id.value) == Some(reply.value.product)
            case PostRecipe(r) =>
              && reply.value.ARecipe? && reply.value.recipe.id.Some?
              && ReadsBack(Some(reply.value.recipe), reply.value.recipe.id.value, r)
              && RecipeOf(t, reply.value.recipe.id.value) == Some(reply.value.recipe)
            case PutRecipe(id, r) => ReadsBack(RecipeOf(t, id), id, r)
            case PutProduct(id, p) => ProductOf(t, id) == Some(p.(id := Some(id)))
            case _ => true
  {
    SuccessExactly(s, request, choice);
    hide Consistent, LegalChoice, Serve, ProductOf, RecipeOf, ReadsBack;
    match request
    case PostRecipe(r) =>
      var reply := Serve(s, request, choice).1;
      var id :| s.recipeSeq < id && reply.value == ARecipe(Views.AsStored(r, id));
      StoredReadsBack(r, id);
    case PutRecipe(id, r) => StoredReadsBack(r, id);
    case _ =>
  }

  // ---- The schema, table by table ----

  /** What holds after every run, said of the rows. */
  lemma SchemaAfterRun(s: Store, steps: seq<SchemaInvariant.Step>)
    requires Consistent(s) && SchemaInvariant.Legal(steps)
    ensures var t := SchemaInvariant.After(s, steps);
            && (forall q | q in t.products :: q.id > 0 && q.amount >= 0)
            && (forall p, q | p in t.products && q in t.products && p != q ::
                  p.id != q.id && !(p.name == q.name && p.dimension == q.dimension))
            && (forall r | r in t.recipes :: r.id > 0)
            && (forall r, u | r in t.recipes && u in t.recipes && r != u :: r.id != u.id && r.name != u.name)
            && (forall i | i in t.ingredients :: i.required >= 0 && exists r :: r in t.recipes && r.id == i.recipeId)
            && (forall i, j | i in t.ingredients && j in t.ingredients && i != j ::
                  !(i.recipeId == j.recipeId && i.productName == j.productName && i.dimension == j.dimension))
  {
    SchemaInvariant.EveryRunConsistent(s, steps);
    SchemaInvariant.SoundIsConsistent(s, SchemaInvariant.After(s, steps));
    ConsistentMeans(SchemaInvariant.After(s, steps));
  }

  lemma ConsistentMeans(t: Store)
    requires Consistent(t)
    ensures forall q | q in t.products :: q.id > 0 && q.amount >= 0
    ensures forall p, q | p in t.products && q in t.products && p != q ::
              p.id != q.id && !(p.name == q.name && p.dimension == q.dimension)
    ensures forall r | r in t.recipes :: r.id > 0
    ensures forall r, u | r in t.recipes && u in t.recipes && r != u :: r.id != u.id && r.name != u.name
    ensures forall i | i in t.ingredients :: i.required >= 0 && exists r :: r in t.recipes && r.id == i.recipeId
    ensures forall i, j | i in t.ingredients && j in t.ingredients && i != j ::
              !(i.recipeId == j.recipeId && i.productName == j.productName && i.dimension == j.dimension)
  {
    hide StoredDate;
    forall p, q | p in t.products && q in t.products && p != q
      ensures p.id != q.id && !(p.name == q.name && p.dimension == q.dimension)
    {
      assert RowKey(p) != RowKey(q);
    }
    forall i, j | i in t.ingredients && j in t.ingredients && i != j
      ensures !(i.recipeId == j.recipeId && i.productName == j.productName && i.dimension == j.dimension)
    {
      if i.recipeId == j.recipeId { RowsHaveOwnKeys(t, i, j); }
    }
  }
}
