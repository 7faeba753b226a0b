/**
 What readers get, in terms of list places and table rows alone: the ingredients that come back for a
 list that was written, and the replies to every kind of read.
 */
module Readings {
  import opened Wrappers
  import opened Kitchen
  import opened Ordering
  import opened Tables
  import opened StoreSpec
  import opened Listings
  import opened Views
  import SchemaInvariant
  import Sql

  // ---- Written lists ----

  predicate SameKey(a: Product, b: Product) { a.name == b.name && a.dimension == b.dimension }

  /** No later element has the name and dimension of element `i`. */
  predicate LastOfItsKey(list: seq<Product>, i: nat) {
    i < |list| && forall j | i < j < |list| :: !SameKey(list[j], list[i])
  }

  /** An ingredient as a recipe gives it back: without id and dates. */
  predicate GivesBack(back: Product, p: Product) {
    && back.name == p.name && back.dimension == p.dimension && back.amount == p.amount
    && back.id == None && back.dates.manufacture == None && back.dates.expiration == None
  }

  /** By name, and by dimension under one name. */
  ghost predicate KeyBefore(a: Product, b: Product) {
    if a.name != b.name then TextBefore(a.name, b.name) else Code(a.dimension) < Code(b.dimension)
  }

  predicate GivesBackAt(back: seq<Product>, k: nat, list: seq<Product>, i: nat) {
    k < |back| && i < |list| && GivesBack(back[k], list[i])
  }

  ghost predicate ComesBack(list: seq<Product>, i: nat, back: seq<Product>) {
    exists k: nat :: GivesBackAt(back, k, list, i)
  }

  ghost predicate ComesFromLast(list: seq<Product>, back: seq<Product>, k: nat) {
    exists i: nat :: LastOfItsKey(list, i) && GivesBackAt(back, k, list, i)
  }

  /** Of each name and dimension the last amount comes back, once, in order, and nothing else does. */
  ghost predicate KeepsLast(list: seq<Product>, back: seq<Product>) {
    && (forall i: nat | LastOfItsKey(list, i) :: ComesBack(list, i, back))
    && (forall k: nat | k < |back| :: ComesFromLast(list, back, k))
    && (forall j: nat, k: nat | j < k < |back| :: KeyBefore(back[j], back[k]))
  }

  /** The order in which dimensions are stored and listed. */
  lemma DimensionOrder(d: Dimension)
    ensures [Gramm, Kilogramm, Milliliter, Liter, Piece][Code(d)] == d
  {
  }

  lemma {:induction false} LastWins(list: seq<Product>, i: nat)
    requires LastOfItsKey(list, i)
    ensures KeyOf(list[i]) in Collapsed(list) && Collapsed(list)[KeyOf(list[i])] == list[i].amount
  {
    var n := |list| - 1;
    if i < n {
      assert !SameKey(list[n], list[i]);
      LastWins(list[..n], i);
    }
  }

  lemma {:induction false} OnlyListed(list: seq<Product>, key: Key) returns (i: nat)
    requires key in Collapsed(list)
    ensures LastOfItsKey(list, i) && KeyOf(list[i]) == key
  {
    var n := |list| - 1;
    if KeyOf(list[n]) == key {
      i := n;
    } else {
      i := OnlyListed(list[..n], key);
    }
  }

  lemma KeysInOrder(a: Key, b: Key)
    requires KeyLe(a, b) && a != b
    ensures if a.name != b.name then TextBefore(a.name, b.name) else Code(a.dimension) < Code(b.dimension)
  {
    hide TextLe, TextBefore;
    TextOrderMeaning(a.name, b.name);
  }

  lemma NormalizedAt(list: seq<Product>, k: nat, i: nat)
    requires LastOfItsKey(list, i) && k < |SortedKeys(Collapsed(list))|
    requires SortedKeys(Collapsed(list))[k] == KeyOf(list[i])
    ensures GivesBackAt(Normalized(list), k, list, i)
  {
    hide KeyLe;
    LastWins(list, i);
  }

  lemma NormalizedKeepsLast(list: seq<Product>)
    ensures KeepsLast(list, Normalized(list))
  {
    hide KeyLe, LastOfItsKey, GivesBackAt, Collapsed, KeyBefore;
    var amounts := Collapsed(list);
    var keys, back := SortedKeys(amounts), Normalized(list);
    forall i: nat | LastOfItsKey(list, i) ensures ComesBack(list, i, back) {
      LastIsListed(list, i);
      var k :| 0 <= k < |keys| && keys[k] == KeyOf(list[i]);
      NormalizedAt(list, k, i);
    }
    forall k: nat | k < |back| ensures ComesFromLast(list, back, k) {
      var i := OnlyListed(list, keys[k]);
      NormalizedAt(list, k, i);
    }
    forall j: nat, k: nat | j < k < |back| ensures KeyBefore(back[j], back[k]) {
      NormalizedInOrder(list, j, k);
    }
  }

  lemma LastIsListed(list: seq<Product>, i: nat)
    requires LastOfItsKey(list, i)
    ensures i < |list| && KeyOf(list[i]) in SortedKeys(Collapsed(list))
  {
    hide KeyLe;
    LastWins(list, i);
  }

  lemma NormalizedInOrder(list: seq<Product>, j: nat, k: nat)
    requires j < k < |Normalized(list)|
    ensures KeyBefore(Normalized(list)[j], Normalized(list)[k])
  {
    hide KeyLe, TextBefore, Collapsed;
    KeysInOrder(SortedKeys(Collapsed(list))[j], SortedKeys(Collapsed(list))[k]);
  }

  /** The recipe reads back under `id` with the name that was written and the last amounts. */
  ghost predicate ReadsBack(found: Option<Recipe>, id: int, recipe: Recipe) {
    && found.Some? && found.value.id == Some(id) && found.value.name == recipe.name
    && KeepsLast(recipe.ingredients, found.value.ingredients)
  }

  lemma StoredReadsBack(recipe: Recipe, id: int)
    ensures ReadsBack(Some(AsStored(recipe, id)), id, recipe)
  {
    hide KeepsLast, Normalized;
    NormalizedKeepsLast(recipe.ingredients);
  }

  /** A recipe that was created reads back with the last amount of each name and dimension. */
  lemma CreatedRecipeKeepsLast(s: Store, recipe: Recipe, pick: int -> int)
    requires Consistent(s) && PicksFreshIds(pick)
    ensures match CreateRecipe(s, recipe, pick)
            case Effect(t, Ok(id)) => ReadsBack(RecipeOf(t, id), id, recipe)
            case Effect(t, Err(_)) => t == s
  {
    hide ReadsBack, AsStored, Consistent;
    CreateRecipeReadsBack(s, recipe, pick);
    match CreateRecipe(s, recipe, pick)
    case Effect(_, Ok(id)) => StoredReadsBack(recipe, id);
    case Effect(_, Err(_)) =>
  }

  /** And so does one that was updated. */
  lemma UpdatedRecipeKeepsLast(s: Store, id: int, recipe: Recipe)
    requires Consistent(s)
    ensures match UpdateRecipe(s, id, recipe)
            case Effect(t, Ok(true)) => ReadsBack(RecipeOf(t, id), id, recipe)
            case Effect(t, _) => t == s
  {
    hide ReadsBack, AsStored, Consistent;
    UpdateRecipeAtomic(s, id, recipe);
    StoredReadsBack(recipe, id);
  }

  // ---- Batches ----

  lemma {:induction false} LastNamedAt(recipes: seq<Recipe>, i: nat)
    requires i < |recipes| && forall j | i < j < |recipes| :: recipes[j].name != recipes[i].name
    ensures LastNamed(recipes, recipes[i].name) == Some(recipes[i])
  {
    if i < |recipes| - 1 { LastNamedAt(recipes[..|recipes| - 1], i); }
  }

  lemma {:induction false} LastKeyedAt(products: seq<Product>, i: nat)
    requires LastOfItsKey(products, i)
    ensures LastKeyed(products, KeyOf(products[i])) == Some(products[i])
  {
    if i < |products| - 1 { LastKeyedAt(products[..|products| - 1], i); }
  }

  /** After a batch of recipes without negative amounts, the last recipe of each name is in the store
      with its last amounts, under the id that name had before. */
  lemma RecipeBatchKeepsLast(s: Store, recipes: seq<Recipe>, pick: int -> int, i: nat) returns (id: int)
    requires Consistent(s) && PicksFreshIds(pick)
    requires forall r | r in recipes :: forall p | p in r.ingredients :: p.amount >= 0
    requires i < |recipes| && forall j | i < j < |recipes| :: recipes[j].name != recipes[i].name
    ensures ReadsBack(RecipeOf(InsertRecipes(s, recipes, pick).db, id), id, recipes[i])
    ensures forall r | r in s.recipes && r.name == recipes[i].name :: r.id == id
  {
    hide ReadsBack, AsStored, Consistent, ReadRecipe;
    var t := InsertRecipes(s, recipes, pick).db;
    var name := recipes[i].name;
    LastNamedAt(recipes, i);
    InsertRecipesMeaning(s, recipes, pick, name);
    SchemaInvariant.InsertRecipesSound(s, recipes, pick);
    SchemaInvariant.SoundIsConsistent(s, t);
    ConsistentRecipes(s);
    ConsistentRecipes(t);
    var row :| row in t.recipes && row.name == name && RecipeNamed(t, name) == Some(ReadRecipe(t, row));
    RecipeNamedRow(t, row);
    id := row.id;
    ReadsUnderItsId(t, row);
    StoredReadsBack(recipes[i], id);
    forall r | r in s.recipes && r.name == name ensures r.id == id {
      RecipeNamedRow(s, r);
      ReadsUnderItsId(s, r);
    }
  }

  lemma ReadsUnderItsId(s: Store, r: RecipeRow)
    ensures ReadRecipe(s, r).id == Some(r.id)
  {
  }

  lemma ConsistentRecipes(s: Store)
    requires Consistent(s)
    ensures RecipesConsistent(s) && ProductsConsistent(s)
  {
  }

  /** After a batch of products without negative amounts, the last product of each name and dimension
      is in the store with all its fields, under the id that key had before. */
  lemma ProductBatchKeepsLast(s: Store, products: seq<Product>, pick: int -> int, i: nat) returns (id: int)
    requires Consistent(s) && PicksFreshIds(pick)
    requires forall p | p in products :: p.amount >= 0
    requires LastOfItsKey(products, i)
    ensures ProductOf(InsertProducts(s, products, pick).db, id) == Some(products[i].(id := Some(id)))
    ensures forall q | q in s.products && q.name == products[i].name && q.dimension == products[i].dimension :: q.id == id
  {
    hide Consistent, StoredDate, BindDate, ReadDate;
    var t := InsertProducts(s, products, pick).db;
    var key := KeyOf(products[i]);
    LastKeyedAt(products, i);
    InsertProductsMeaning(s, products, pick, key);
    SchemaInvariant.InsertProductsSound(s, products, pick);
    SchemaInvariant.SoundIsConsistent(s, t);
    ConsistentRecipes(s);
    ConsistentRecipes(t);
    var row :| row in t.products && RowKey(row) == key && StockOf(t, key) == Some(ReadProduct(row));
    ProductOfRow(t, row);
    id := row.id;
    forall q | q in s.products && RowKey(q) == key ensures q.id == id {
      StockOfRow(s, q);
    }
  }

  // ---- What each command of a run does ----

  ghost predicate HoldsProduct(s: Store, p: Product) { exists id :: ProductOf(s, id) == Some(p.(id := Some(id))) }

  ghost predicate HoldsRecipe(s: Store, r: Recipe) { exists id :: ReadsBack(RecipeOf(s, id), id, r) }

  /** Commands about products, from their arguments and the rows they meet. */
  lemma ProductCommands(s: Store, step: SchemaInvariant.Step)
    requires Consistent(s) && PicksFreshIds(step.pick)
    ensures var t := SchemaInvariant.Perform(s, step);
            match step.command
            case InsertingProduct(p) => p.amount >= 0 ==> HoldsProduct(t, p)
            case InsertingProducts(list) =>
              (forall p | p in list :: p.amount >= 0) ==> forall i: nat | LastOfItsKey(list, i) :: HoldsProduct(t, list[i])
            case CreatingProduct(p) =>
              p.amount >= 0 && (forall q | q in s.products :: !(q.name == p.name && q.dimension == p.dimension))
              ==> HoldsProduct(t, p)
            case UpdatingProduct(id, p) =>
              && p.amount >= 0 && (exists q :: q in s.products && q.id == id)
              && (forall q | q in s.products && q.id != id :: !(q.name == p.name && q.dimension == p.dimension))
              ==> ProductOf(t, id) == Some(p.(id := Some(id)))
            case DeletingProduct(id) => ProductOf(t, id) == None
            case _ => t.products == s.products
  {
    hide Consistent, WithProduct, WithoutProduct, ProductOf, EachProduct, EachRecipe, WithRecipe, WithoutRecipe;
    match step.command
    case InsertingProduct(p) =>
      if p.amount >= 0 { SingleProduct(s, p, step.pick); }
    case InsertingProducts(list) =>
      if forall p | p in list :: p.amount >= 0 {
        forall i: nat | LastOfItsKey(list, i) ensures HoldsProduct(SchemaInvariant.Perform(s, step), list[i]) {
          var id := ProductBatchKeepsLast(s, list, step.pick, i);
        }
      }
    case CreatingProduct(p) => CreateProductReadsBack(s, p, step.pick);
    case UpdatingProduct(id, p) =>
      if UpdateProduct(s, id, p).value == Ok(true) { WithProductReads(s, id, p); }
    case DeletingProduct(id) => WithoutProductReads(s, id);
    case _ => RecipeCommandsKeepProducts(s, step);
  }

  lemma SingleProduct(s: Store, p: Product, pick: int -> int)
    requires Consistent(s) && PicksFreshIds(pick) && p.amount >= 0
    ensures HoldsProduct(InsertProduct(s, p, pick).db, p)
  {
    hide Consistent, InsertProduct, ProductOf;
    var id := ProductBatchKeepsLast(s, [p], pick, 0);
    assert [p][..0] == [];
    assert EachProduct(s, [], pick) == Effect(s, Ok(()));
    assert EachProduct(s, [p], pick) == InsertProduct(s, p, pick);
    InsertProductsMeaning(s, [p], pick, KeyOf(p));
  }

  lemma RecipeCommandsKeepProducts(s: Store, step: SchemaInvariant.Step)
    requires Consistent(s) && PicksFreshIds(step.pick)
    requires step.command.InsertingRecipe? || step.command.InsertingRecipes? || step.command.CreatingRecipe?
             || step.command.UpdatingRecipe? || step.command.DeletingRecipe?
    ensures SchemaInvariant.Perform(s, step).products == s.products
  {
    hide Consistent, EachRecipe, RowsOf, Collapsed;
    if step.command.InsertingRecipes? {
      InsertRecipesMeaning(s, step.command.recipes, step.pick, "");
    }
  }

  /** Commands about recipes. */
  lemma RecipeCommands(s: Store, step: SchemaInvariant.Step)
    requires Consistent(s) && PicksFreshIds(step.pick)
    ensures var t := SchemaInvariant.Perform(s, step);
            match step.command
            case InsertingRecipe(r) => (forall p | p in r.ingredients :: p.amount >= 0) ==> HoldsRecipe(t, r)
            case InsertingRecipes(list) =>
              (forall r | r in list :: forall p | p in r.ingredients :: p.amount >= 0) ==>
                forall i: nat | LastOfItsName(list, i) :: HoldsRecipe(t, list[i])
            case CreatingRecipe(r) =>
              (forall p | p in r.ingredients :: p.amount >= 0) && (forall u | u in s.recipes :: u.name != r.name)
              ==> HoldsRecipe(t, r)
            case UpdatingRecipe(id, r) =>
              && (forall p | p in r.ingredients :: p.amount >= 0) && (exists u :: u in s.recipes && u.id == id)
              && (forall u | u in s.recipes && u.id != id :: u.name != r.name)
              ==> ReadsBack(RecipeOf(t, id), id, r)
            case DeletingRecipe(id) => RecipeOf(t, id) == None
            case _ => t.recipes == s.recipes && t.ingredients == s.ingredients
  {
    hide Consistent, WithRecipe, WithoutRecipe, RecipeOf, EachRecipe, ReadsBack, AsStored;
    match step.command
    case InsertingRecipe(r) =>
      if forall p | p in r.ingredients :: p.amount >= 0 { SingleRecipe(s, r, step.pick); }
    case InsertingRecipes(list) =>
      if forall r | r in list :: forall p | p in r.ingredients :: p.amount >= 0 {
        forall i: nat | LastOfItsName(list, i) ensures HoldsRecipe(SchemaInvariant.Perform(s, step), list[i]) {
          var id := RecipeBatchKeepsLast(s, list, step.pick, i);
        }
      }
    case CreatingRecipe(r) => CreatedRecipeKeepsLast(s, r, step.pick);
    case UpdatingRecipe(id, r) => UpdatedRecipeKeepsLast(s, id, r);
    case DeletingRecipe(id) => WithoutRecipeReads(s, id);
    case _ => ProductCommandsKeepRecipes(s, step);
  }

  predicate LastOfItsName(list: seq<Recipe>, i: nat) {
    i < |list| && forall j | i < j < |list| :: list[j].name != list[i].name
  }

  lemma SingleRecipe(s: Store, r: Recipe, pick: int -> int)
    requires Consistent(s) && PicksFreshIds(pick) && NoneNegative(r.ingredients)
    ensures HoldsRecipe(InsertRecipe(s, r, pick).db, r)
  {
    hide Consistent, InsertRecipe, RecipeOf, ReadsBack;
    var id := RecipeBatchKeepsLast(s, [r], pick, 0);
    assert [r][..0] == [];
    assert EachRecipe(s, [], pick) == Effect(s, Ok(()));
    assert EachRecipe(s, [r], pick) == InsertRecipe(s, r, pick);
    InsertRecipesMeaning(s, [r], pick, r.name);
  }

  lemma {:induction false} ProductBatchKeepsRecipes(s: Store, list: seq<Product>, pick: int -> int)
    ensures var t := EachProduct(s, list, pick).db; t.recipes == s.recipes && t.ingredients == s.ingredients
  {
    if list != [] { ProductBatchKeepsRecipes(s, list[..|list| - 1], pick); }
  }

  lemma ProductCommandsKeepRecipes(s: Store, step: SchemaInvariant.Step)
    requires step.command.InsertingProduct? || step.command.InsertingProducts? || step.command.CreatingProduct?
             || step.command.UpdatingProduct? || step.command.DeletingProduct?
    ensures var t := SchemaInvariant.Perform(s, step); t.recipes == s.recipes && t.ingredients == s.ingredients
  {
    hide EachProduct;
    if step.command.InsertingProducts? { ProductBatchKeepsRecipes(s, step.command.products, step.pick); }
  }

  // ---- Reading by id ----

  /** What a fetched product is, column by column. */
  predicate ShowsRow(p: Product, q: ProductRow) {
    && p.id == Some(q.id) && p.name == q.name && p.amount == q.amount && p.dimension == q.dimension
    && p.dates.manufacture == ReadDate(q.manufacture) && p.dates.expiration == ReadDate(q.expiration)
  }

  lemma FetchedProductShowsRow(s: Store, id: int)
    requires Consistent(s)
    ensures match ProductOf(s, id)
            case None => forall q | q in s.products :: q.id != id
            case Some(p) => exists q :: q in s.products && q.id == id && ShowsRow(p, q)
  {
    hide Consistent, ReadDate;
    if HasProduct(s, id) {
      var q :| q in s.products && q.id == id && ProductOf(s, id) == Some(ReadProduct(q));
      assert ShowsRow(ReadProduct(q), q);
    }
  }

  /** The ingredients are the rows of this recipe, each once, by name and dimension. */
  ghost predicate ShowsIngredients(s: Store, id: int, back: seq<Product>) {
    && (forall i | i in s.ingredients && i.recipeId == id :: RowShown(i, back))
    && (forall k: nat | k < |back| ::
          && IngredientRow(id, back[k].name, back[k].dimension, back[k].amount) in s.ingredients
          && back[k].id == None && back[k].dates.manufacture == None && back[k].dates.expiration == None)
    && (forall j: nat, k: nat | j < k < |back| :: KeyBefore(back[j], back[k]))
  }

  ghost predicate RowShown(i: IngredientRow, back: seq<Product>) {
    exists k: nat :: RowShownAt(i, back, k)
  }

  predicate RowShownAt(i: IngredientRow, back: seq<Product>, k: nat) {
    && k < |back|
    && back[k].name == i.productName && back[k].dimension == i.dimension && back[k].amount == i.required
  }

  lemma IngredientsShown(s: Store, id: int)
    requires Consistent(s)
    ensures ShowsIngredients(s, id, ReadIngredients(SortedIngredients(s, id)))
  {
    var rows, back := SortedIngredients(s, id), ReadIngredients(SortedIngredients(s, id));
    forall i | i in s.ingredients && i.recipeId == id ensures RowShown(i, back) {
      assert i in Sql.SelectRecipeIngredientsByRecipeId(s, id);
      var k :| 0 <= k < |rows| && rows[k] == i;
      assert RowShownAt(i, back, k);
    }
    forall k: nat | k < |back|
      ensures IngredientRow(id, back[k].name, back[k].dimension, back[k].amount) in s.ingredients
    {
      assert rows[k] in s.ingredients && rows[k].recipeId == id;
      assert rows[k] == IngredientRow(id, back[k].name, back[k].dimension, back[k].amount);
    }
    forall j: nat, k: nat | j < k < |back| ensures KeyBefore(back[j], back[k]) {
      RowsHaveOwnKeys(s, rows[j], rows[k]);
      hide KeyLe, TextBefore;
      KeysInOrder(IngredientKey(rows[j]), IngredientKey(rows[k]));
    }
  }

  lemma RowsHaveOwnKeys(s: Store, i: IngredientRow, j: IngredientRow)
    requires Consistent(s) && i in s.ingredients && j in s.ingredients && i.recipeId == j.recipeId && i != j
    ensures IngredientKey(i) != IngredientKey(j)
  {
  }

  lemma FetchedRecipeShowsRows(s: Store, id: int)
    requires Consistent(s)
    ensures match RecipeOf(s, id)
            case None => forall r | r in s.recipes :: r.id != id
            case Some(recipe) =>
              && recipe.id == Some(id) && RecipeRow(id, recipe.name) in s.recipes
              && ShowsIngredients(s, id, recipe.ingredients)
  {
    hide Consistent, ShowsIngredients, SortedIngredients;
    if HasRecipe(s, id) {
      var r :| r in s.recipes && r.id == id && RecipeOf(s, id) == Some(ReadRecipe(s, r));
      assert r == RecipeRow(id, r.name);
      IngredientsShown(s, id);
    }
  }

  // ---- Listings ----

  /** Every element is what its id reads as, and names come in strictly increasing order. */
  ghost predicate ListsByName(s: Store, list: seq<Recipe>) {
    && (forall k: nat | k < |list| :: list[k].id.Some? && RecipeOf(s, list[k].id.value) == Some(list[k]))
    && (forall j: nat, k: nat | j < k < |list| ::
          TextBefore(list[j].name, list[k].name) && list[j].id != list[k].id)
  }

  ghost predicate Lists(list: seq<Recipe>, id: int) { exists recipe :: recipe in list && recipe.id == Some(id) }

  lemma AllRecipesByName(s: Store)
    requires Consistent(s)
    ensures ListsByName(s, AllRecipes(s)) && |AllRecipes(s)| == |s.recipes|
    ensures forall id :: Lists(AllRecipes(s), id) <==> RecipeOf(s, id).Some?
  {
    hide TextLe, TextBefore, SortedIngredients;
    AllRecipesShape(s);
    ConsistentRecipes(s);
    hide Consistent, AllRecipes;
    var list := AllRecipes(s);
    forall k: nat | k < |list| ensures list[k].id.Some? && RecipeOf(s, list[k].id.value) == Some(list[k]) {
      assert IsStored(s, list[k]);
      var r :| r in s.recipes && list[k] == ReadRecipe(s, r);
      RecipeOfRow(s, r);
    }
    forall j: nat, k: nat | j < k < |list|
      ensures TextBefore(list[j].name, list[k].name) && list[j].id != list[k].id
    {
      TextOrderMeaning(list[j].name, list[k].name);
      assert RecipeOf(s, list[j].id.value) == Some(list[j]) && RecipeOf(s, list[k].id.value) == Some(list[k]);
    }
    forall id ensures Lists(list, id) <==> RecipeOf(s, id).Some? {
      ListedIsStored(s, list, id);
      if RecipeOf(s, id).Some? {
        var r :| r in s.recipes && r.id == id && RecipeOf(s, id) == Some(ReadRecipe(s, r));
        assert ReadRecipe(s, r) in list;
      }
    }
  }

  lemma ListedIsStored(s: Store, list: seq<Recipe>, id: int)
    requires forall k: nat | k < |list| :: list[k].id.Some? && RecipeOf(s, list[k].id.value) == Some(list[k])
    ensures Lists(list, id) ==> RecipeOf(s, id).Some?
  {
    hide RecipeOf;
    if recipe :| recipe in list && recipe.id == Some(id) {
      var k :| 0 <= k < |list| && list[k] == recipe;
    }
  }

  /** Stock holds at least the amount of this ingredient. */
  predicate StockCovers(s: Store, ingredient: Product) {
    exists q | q in s.products ::
      q.name == ingredient.name && q.dimension == ingredient.dimension && q.amount >= ingredient.amount
  }

  lemma CoveredMeaning(s: Store, recipe: Recipe)
    ensures Covered(s, recipe) <==> forall p | p in recipe.ingredients :: StockCovers(s, p)
  {
    forall p | p in recipe.ingredients ensures StockCovers(s, p) <==> InStock(s, KeyOf(p), p.amount) {
    }
  }

  lemma FilteredByName(s: Store, list: seq<Recipe>, keep: Recipe -> bool)
    requires ListsByName(s, list)
    ensures ListsByName(s, Filter(list, keep))
  {
    hide RecipeOf, TextBefore;
    var kept := Filter(list, keep);
    forall k: nat | k < |kept| ensures kept[k].id.Some? && RecipeOf(s, kept[k].id.value) == Some(kept[k]) {
      assert kept[k] in list;
      var i :| 0 <= i < |list| && list[i] == kept[k];
    }
    FilterPairs(list, keep, (x: Recipe, y: Recipe) => TextBefore(x.name, y.name) && x.id != y.id);
  }

  lemma CookableByName(s: Store)
    requires Consistent(s)
    ensures ListsByName(s, CookableRecipes(s))
    ensures forall id :: Lists(CookableRecipes(s), id) <==>
              RecipeOf(s, id).Some? && forall p | p in RecipeOf(s, id).value.ingredients :: StockCovers(s, p)
  {
    AllRecipesByName(s);
    hide Consistent, AllRecipes, RecipeOf, StockCovers, Covered, TextBefore;
    var all := AllRecipes(s);
    FilteredByName(s, all, recipe => Covered(s, recipe));
    forall id
      ensures Lists(CookableRecipes(s), id) <==>
              RecipeOf(s, id).Some? && forall p | p in RecipeOf(s, id).value.ingredients :: StockCovers(s, p)
    {
      if recipe :| recipe in all && recipe.id == Some(id) {
        var k :| 0 <= k < |all| && all[k] == recipe;
        FilterHolds(all, r => Covered(s, r), recipe);
        CoveredMeaning(s, recipe);
        OnlyOneListed(s, CookableRecipes(s), id, recipe);
      } else {
        NotListed(s, all, id);
      }
    }
  }

  lemma OnlyOneListed(s: Store, list: seq<Recipe>, id: int, recipe: Recipe)
    requires ListsByName(s, list) && RecipeOf(s, id) == Some(recipe) && recipe.id == Some(id)
    ensures Lists(list, id) <==> recipe in list
  {
    hide RecipeOf, TextBefore;
    if other :| other in list && other.id == Some(id) {
      var k :| 0 <= k < |list| && list[k] == other;
    }
  }

  lemma NotListed(s: Store, all: seq<Recipe>, id: int)
    requires !Lists(all, id)
    ensures !Lists(Filter(all, recipe => Covered(s, recipe)), id)
  {
    hide Covered;
  }

  /** Every product once, amounts never falling; equal amounts may come in any order. */
  ghost predicate ListsByAmount(s: Store, list: seq<Product>) {
    && |list| == |s.products|
    && (forall k: nat | k < |list| :: list[k].id.Some? && ProductOf(s, list[k].id.value) == Some(list[k]))
    && (forall j: nat, k: nat | j < k < |list| :: list[j].amount <= list[k].amount && list[j].id != list[k].id)
  }

  lemma ProductsByAmount(s: Store, products: seq<Product>)
    requires Consistent(s) && ProductListing(s, products)
    ensures ListsByAmount(s, products)
    ensures forall q | q in s.products :: exists k: nat :: k < |products| && products[k].id == Some(q.id)
  {
    ConsistentRecipes(s);
    hide Consistent, ProductsConsistent, ReadProduct, ProductOf, ListsByAmount;
    var rows :| Listing(rows, s.products, ByAmount) && products == ReadProducts(rows);
    RowsByAmount(s, rows);
    forall q | q in s.products ensures exists k: nat :: k < |products| && products[k].id == Some(q.id) {
      var k :| 0 <= k < |rows| && rows[k] == q;
      RowFields(q);
      assert products[k].id == Some(q.id);
    }
  }

  lemma RowFields(q: ProductRow)
    ensures ReadProduct(q).id == Some(q.id) && ReadProduct(q).amount == q.amount
  {
  }

  lemma OwnIds(s: Store, p: ProductRow, q: ProductRow)
    requires ProductsConsistent(s) && p in s.products && q in s.products && p != q
    ensures p.id != q.id
  {
  }

  lemma RowsByAmount(s: Store, rows: seq<ProductRow>)
    requires ProductsConsistent(s) && Listing(rows, s.products, ByAmount)
    ensures ListsByAmount(s, ReadProducts(rows))
  {
    hide ProductsConsistent, ReadProduct, ProductOf;
    var products := ReadProducts(rows);
    ListingLength(rows, s.products, ByAmount);
    forall k: nat | k < |products|
      ensures products[k].id.Some? && ProductOf(s, products[k].id.value) == Some(products[k])
    {
      RowFields(rows[k]);
      ProductOfRow(s, rows[k]);
    }
    forall j: nat, k: nat | j < k < |products|
      ensures products[j].amount <= products[k].amount && products[j].id != products[k].id
    {
      RowFields(rows[j]);
      RowFields(rows[k]);
      OwnIds(s, rows[j], rows[k]);
      assert ByAmount(rows[j], rows[k]);
    }
  }
}
