/**
 The use cases of the application, as one total function from the store and a request to the new
 store and the reply. `RecipeService` is proved to compute it; the executor runs it.
 */
module ServiceSpec {
  import opened Wrappers
  import opened Kitchen
  import opened Ordering
  import opened Tables
  import opened StoreSpec
  import opened Listings
  import SchemaInvariant
  import Views

  datatype ErrorCode = Validation | NotFound | Conflict | Storage | Overloaded

  datatype Error = Error(code: ErrorCode, message: string)

  /** The text of the exception a violated constraint throws. */
  function What(cause: Violation): string {
    match cause
    case UniqueViolation => "UNIQUE constraint failed"
    case CheckViolation => "CHECK constraint failed"
    case ForeignKeyViolation => "FOREIGN KEY constraint failed"
  }

  function StorageError(cause: Violation): Error { Error(Storage, What(cause)) }

  datatype Request =
    | PostProduct(product: Product)
    | FetchProduct(id: int)
    | ListProducts
    | PutProduct(id: int, product: Product)
    | RemoveProduct(id: int)
    | PostRecipe(recipe: Recipe)
    | FetchRecipe(id: int)
    | ListRecipes
    | ListCookable
    | PutRecipe(id: int, recipe: Recipe)
    | RemoveRecipe(id: int)

  datatype Response =
    | Nothing
    | AProduct(product: Product)
    | MaybeProduct(found: Option<Product>)
    | Products(products: seq<Product>)
    | ARecipe(recipe: Recipe)
    | MaybeRecipe(foundRecipe: Option<Recipe>)
    | Recipes(recipes: seq<Recipe>)

  type Reply = Result<Response, Error>

  /** What SQLite is free to choose: the ids it hands out, and the order of equal amounts. */
  datatype Choice = Choice(pick: int -> int, order: set<ProductRow> -> seq<ProductRow>)

  ghost predicate LegalChoice(c: Choice) {
    && PicksFreshIds(c.pick)
    && (forall rows: set<ProductRow> :: Listing(c.order(rows), rows, ByAmount))
  }

  ghost function SomeOrder(rows: set<ProductRow>): (listed: seq<ProductRow>)
    ensures Listing(listed, rows, ByAmount)
  {
    Ordered(rows, ByAmount)
  }

  /** Every order of the products that ORDER BY allows is some legal choice. */
  lemma EveryListingIsAChoice(s: Store, products: seq<Product>)
    requires ProductListing(s, products)
    ensures exists choice :: LegalChoice(choice) && Serve(s, ListProducts, choice) == (s, Ok(Products(products)))
  {
    var listed :| Listing(listed, s.products, ByAmount) && products == ReadProducts(listed);
    var choice := Choice(highest => highest + 1, rows => if rows == s.products then listed else SomeOrder(rows));
    assert choice.order(s.products) == listed;
    assert LegalChoice(choice);
    assert Serve(s, ListProducts, choice) == (s, Ok(Products(products)));
  }

  // ---- Validation ----

  function ProductFault(p: Product): Option<Error> {
    if p.name == "" then Some(Error(Validation, "Product name must not be empty"))
    else if p.amount < 0 then Some(Error(Validation, "Product amount must not be negative"))
    else None
  }

  /** The fault of the first faulty ingredient. */
  function IngredientFault(list: seq<Product>): Option<Error> {
    if list == [] then None
    else if ProductFault(list[0]).Some? then ProductFault(list[0])
    else IngredientFault(list[1..])
  }

  function RecipeFault(recipe: Recipe): Option<Error> {
    if recipe.name == "" then Some(Error(Validation, "Recipe name must not be empty"))
    else IngredientFault(recipe.ingredients)
  }

  predicate ValidProduct(p: Product) { p.name != "" && p.amount >= 0 }

  predicate ValidRecipe(recipe: Recipe) {
    recipe.name != "" && forall p | p in recipe.ingredients :: ValidProduct(p)
  }

  lemma {:induction false} IngredientFaultMeaning(list: seq<Product>)
    ensures IngredientFault(list).None? <==> forall p | p in list :: ValidProduct(p)
    ensures IngredientFault(list).Some? ==> IngredientFault(list).value.code == Validation
  {
    if list != [] {
      IngredientFaultMeaning(list[1..]);
      assert ValidProduct(list[0]) <==> ProductFault(list[0]).None?;
      if IngredientFault(list).None? {
        forall p | p in list ensures ValidProduct(p) {
          assert p == list[0] || p in list[1..];
        }
      } else if ProductFault(list[0]).None? {
        assert exists p :: p in list[1..] && !ValidProduct(p);
      }
    }
  }

  // ---- The use cases ----

  ghost function Serve(s: Store, request: Request, choice: Choice): (Store, Reply) {
    match request
    case PostProduct(p) =>
      if ProductFault(p).Some? then (s, Err(ProductFault(p).value))
      else (match CreateProduct(s, p, choice.pick)
            case Effect(t, Err(cause)) => (t, Err(StorageError(cause)))
            case Effect(t, Ok(id)) => (t, Ok(AProduct(p.(id := Some(id))))))
    case FetchProduct(id) => (s, Ok(MaybeProduct(ProductOf(s, id))))
    case ListProducts => (s, Ok(Products(ReadProducts(choice.order(s.products)))))
    case PutProduct(id, p) =>
      if ProductFault(p).Some? then (s, Err(ProductFault(p).value))
      else Changed(UpdateProduct(s, id, p), "Product was not found")
    case RemoveProduct(id) => Changed(DeleteProduct(s, id), "Product was not found")
    case PostRecipe(r) =>
      if RecipeFault(r).Some? then (s, Err(RecipeFault(r).value))
      else (match CreateRecipe(s, r, choice.pick)
            case Effect(t, Err(cause)) => (t, Err(StorageError(cause)))
            case Effect(t, Ok(id)) => (t, Ok(ARecipe(Views.AsStored(r, id)))))
    case FetchRecipe(id) => (s, Ok(MaybeRecipe(RecipeOf(s, id))))
    case ListRecipes => (s, Ok(Recipes(AllRecipes(s))))
    case ListCookable => (s, Ok(Recipes(CookableRecipes(s))))
    case PutRecipe(id, r) =>
      if RecipeFault(r).Some? then (s, Err(RecipeFault(r).value))
      else Changed(UpdateRecipe(s, id, r), "Recipe was not found")
    case RemoveRecipe(id) => Changed(DeleteRecipe(s, id), "Recipe was not found")
  }

  /** Zero rows changed means the id is absent. */
  function Changed(effect: Effect<bool>, missing: string): (Store, Reply) {
    match effect.value
    case Err(cause) => (effect.db, Err(StorageError(cause)))
    case Ok(false) => (effect.db, Err(Error(NotFound, missing)))
    case Ok(true) => (effect.db, Ok(Nothing))
  }

  // ---- Outcomes, exactly ----

  predicate Faulty(request: Request) {
    match request
    case PostProduct(p) => !ValidProduct(p)
    case PutProduct(_, p) => !ValidProduct(p)
    case PostRecipe(r) => !ValidRecipe(r)
    case PutRecipe(_, r) => !ValidRecipe(r)
    case _ => false
  }

  predicate Missing(s: Store, request: Request) {
    match request
    case PutProduct(id, _) => !HasProduct(s, id)
    case RemoveProduct(id) => !HasProduct(s, id)
    case PutRecipe(id, _) => !HasRecipe(s, id)
    case RemoveRecipe(id) => !HasRecipe(s, id)
    case _ => false
  }

  /** Another row already holds the key the request wants to write. */
  ghost predicate Clashing(s: Store, request: Request) {
    match request
    case PostProduct(p) => exists q | q in s.products :: RowKey(q) == KeyOf(p)
    case PutProduct(id, p) => exists q | q in s.products :: q.id != id && RowKey(q) == KeyOf(p)
    case PostRecipe(r) => exists t | t in s.recipes :: t.name == r.name
    case PutRecipe(id, r) => exists t | t in s.recipes :: t.id != id && t.name == r.name
    case _ => false
  }

  predicate Fails(reply: Reply, code: ErrorCode) { reply.Err? && reply.error.code == code }

  /** Each error code stands for exactly one situation, tested in this order; `Conflict` and
      `Overloaded` never come from the service, and a request that fails leaves the store alone. */
  lemma OutcomeExactly(s: Store, request: Request, choice: Choice)
    requires Consistent(s) && LegalChoice(choice)
    ensures var (t, reply) := Serve(s, request, choice);
            && (Fails(reply, Validation) <==> Faulty(request))
            && (Fails(reply, NotFound) <==> !Faulty(request) && Missing(s, request))
            && (Fails(reply, Storage) <==> !Faulty(request) && !Missing(s, request) && Clashing(s, request))
            && !Fails(reply, Conflict) && !Fails(reply, Overloaded)
            && (reply.Err? ==> t == s)
  {
    hide StoredDate, BindDate, ReadDate, WithRecipe, WithProduct;
    match request
    case PostRecipe(r) =>
      IngredientFaultMeaning(r.ingredients);
      if ValidRecipe(r) { ValidIngredients(r.ingredients); }
    case PutRecipe(id, r) =>
      IngredientFaultMeaning(r.ingredients);
      if ValidRecipe(r) { ValidIngredients(r.ingredients); }
    case RemoveProduct(id) =>
      if !HasProduct(s, id) { assert WithoutProduct(s, id).products == s.products; }
    case RemoveRecipe(id) =>
      if !HasRecipe(s, id) {
        assert WithoutRecipe(s, id).recipes == s.recipes;
        assert WithoutRecipe(s, id).ingredients == s.ingredients;
      }
    case _ =>
  }

  lemma ValidIngredients(list: seq<Product>)
    requires forall p | p in list :: ValidProduct(p)
    ensures NoneNegative(list)
  {
  }

  /** What a request that succeeds does, seen through the readers. */
  lemma SuccessExactly(s: Store, request: Request, choice: Choice)
    requires Consistent(s) && LegalChoice(choice) && Serve(s, request, choice).1.Ok?
    ensures var (t, reply) := Serve(s, request, choice);
            match request
            case PostProduct(p) =>
              exists id ::
                && !HasProduct(s, id) && s.productSeq < id && reply.value == AProduct(p.(id := Some(id)))
                && ProductOf(t, id) == Some(p.(id := Some(id)))
                && (forall other | other != id :: ProductOf(t, other) == ProductOf(s, other))
                && (forall other :: RecipeOf(t, other) == RecipeOf(s, other))
            case PutProduct(id, p) =>
              && reply.value == Nothing && ProductOf(t, id) == Some(p.(id := Some(id)))
              && (forall other | other != id :: ProductOf(t, other) == ProductOf(s, other))
              && (forall other :: RecipeOf(t, other) == RecipeOf(s, other))
            case RemoveProduct(id) =>
              && reply.value == Nothing && ProductOf(s, id).Some? && ProductOf(t, id).None?
              && (forall other | other != id :: ProductOf(t, other) == ProductOf(s, other))
              && (forall other :: RecipeOf(t, other) == RecipeOf(s, other))
            case PostRecipe(r) =>
              exists id ::
                && !HasRecipe(s, id) && s.recipeSeq < id && reply.value == ARecipe(Views.AsStored(r, id))
                && RecipeOf(t, id) == Some(Views.AsStored(r, id))
                && (forall other | other != id :: RecipeOf(t, other) == RecipeOf(s, other))
                && t.products == s.products
            case PutRecipe(id, r) =>
              && reply.value == Nothing && RecipeOf(t, id) == Some(Views.AsStored(r, id))
              && (forall other | other != id :: RecipeOf(t, other) == RecipeOf(s, other))
              && t.products == s.products
            case RemoveRecipe(id) =>
              && reply.value == Nothing && RecipeOf(s, id).Some? && RecipeOf(t, id).None?
              && (forall other | other != id :: RecipeOf(t, other) == RecipeOf(s, other))
              && t.products == s.products
            case _ => t == s
  {
    hide Consistent, WithRecipe, WithProduct, WithoutProduct, WithoutRecipe, ProductOf, RecipeOf, Views.AsStored;
    var t := Serve(s, request, choice).0;
    match request
    case PostProduct(p) =>
      Views.CreateProductReadsBack(s, p, choice.pick);
      ProductWritesKeepRecipes(s, choice.pick(s.productSeq), p);
      assert s.productSeq < choice.pick(s.productSeq);
    case PutProduct(id, p) =>
      Views.WithProductReads(s, id, p);
      ProductWritesKeepRecipes(s, id, p);
    case RemoveProduct(id) =>
      Views.WithoutProductReads(s, id);
      ProductPresent(s, id);
      ProductWritesKeepRecipes(s, id, Product("", 0, Piece, NO_DATES, None));
    case PostRecipe(r) =>
      Views.CreateRecipeReadsBack(s, r, choice.pick);
      assert s.recipeSeq < choice.pick(s.recipeSeq);
    case PutRecipe(id, r) => Views.UpdateRecipeAtomic(s, id, r);
    case RemoveRecipe(id) =>
      Views.WithoutRecipeReads(s, id);
      RecipePresent(s, id);
    case _ =>
  }

  lemma ProductPresent(s: Store, id: int)
    ensures ProductOf(s, id).Some? <==> HasProduct(s, id)
  {
    hide ReadProduct;
  }

  lemma RecipePresent(s: Store, id: int)
    ensures RecipeOf(s, id).Some? <==> HasRecipe(s, id)
  {
    hide ReadRecipe;
  }

  lemma ProductWritesKeepRecipes(s: Store, id: int, p: Product)
    requires Consistent(s)
    ensures forall other :: RecipeOf(WithProduct(s, id, p), other) == RecipeOf(s, other)
    ensures forall other :: RecipeOf(WithoutProduct(s, id), other) == RecipeOf(s, other)
  {
    forall other
      ensures RecipeOf(WithProduct(s, id, p), other) == RecipeOf(s, other)
      ensures RecipeOf(WithoutProduct(s, id), other) == RecipeOf(s, other)
    {
      Views.SameRowsSameRecipe(s, WithProduct(s, id, p), other);
      Views.SameRowsSameRecipe(s, WithoutProduct(s, id), other);
    }
  }

  predicate WritesProducts(request: Request) { request.PostProduct? || request.PutProduct? || request.RemoveProduct? }

  lemma ProductWritesSound(s: Store, request: Request, choice: Choice)
    requires Consistent(s) && LegalChoice(choice) && WritesProducts(request)
    ensures SchemaInvariant.Sound(s, Serve(s, request, choice).0)
  {
    SchemaInvariant.SoundReflexive(s);
    hide Consistent, SchemaInvariant.Sound, CreateProduct, UpdateProduct, WithoutProduct;
    match request
    case PostProduct(p) => SchemaInvariant.CreateProductSound(s, p, choice.pick);
    case PutProduct(id, p) => SchemaInvariant.UpdateProductSound(s, id, p);
    case RemoveProduct(id) => SchemaInvariant.WithoutProductSound(s, id);
  }

  /** Every request keeps the schema, and hands out only ids never used before. */
  lemma ServeSound(s: Store, request: Request, choice: Choice)
    requires Consistent(s) && LegalChoice(choice)
    ensures SchemaInvariant.Sound(s, Serve(s, request, choice).0)
  {
    SchemaInvariant.SoundReflexive(s);
    hide Consistent, SchemaInvariant.Sound, CreateRecipe, UpdateRecipe, WithoutRecipe;
    if WritesProducts(request) {
      ProductWritesSound(s, request, choice);
    } else {
      match request
      case PostRecipe(r) => SchemaInvariant.CreateRecipeSound(s, r, choice.pick);
      case PutRecipe(id, r) => SchemaInvariant.UpdateRecipeSound(s, id, r);
      case RemoveRecipe(id) => SchemaInvariant.WithoutRecipeSound(s, id);
      case _ =>
    }
  }
}
