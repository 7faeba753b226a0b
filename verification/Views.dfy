/**
 What a reader sees after a write: a recipe reads back as it was written, with equal ingredients
 collapsed and sorted; everything else reads back as before; the last of equal keys wins in a batch.
 */
module Views {
  import opened Wrappers
  import opened Kitchen
  import opened Ordering
  import opened Tables
  import opened StoreSpec
  import opened Listings
  import Sql
  import SchemaInvariant

  // ---- One recipe ----

  /** An ingredient list as the store gives it back: one entry for each (name, dimension), holding
      the last amount, sorted by name and dimension, without ids or dates. */
  ghost function Normalized(list: seq<Product>): seq<Product> {
    var amounts := Collapsed(list);
    var keys := SortedKeys(amounts);
    seq(|keys|, k requires 0 <= k < |keys| => Product(keys[k].name, amounts[keys[k]], keys[k].dimension, NO_DATES, None))
  }

  ghost function SortedKeys(amounts: map<Key, Amount>): (keys: seq<Key>)
    ensures Listing(keys, amounts.Keys, KeyLe)
  {
    KeysPreordered(amounts.Keys);
    Ordered(amounts.Keys, KeyLe)
  }

  function KeyedRow(id: int, amounts: map<Key, Amount>, key: Key): IngredientRow
    requires key in amounts
  {
    IngredientRow(id, key.name, key.dimension, amounts[key])
  }

  ghost function KeyedRows(id: int, amounts: map<Key, Amount>): (rows: seq<IngredientRow>)
    ensures |rows| == |SortedKeys(amounts)|
    ensures forall k | 0 <= k < |rows| :: rows[k] == KeyedRow(id, amounts, SortedKeys(amounts)[k])
  {
    seq(|SortedKeys(amounts)|, k requires 0 <= k < |SortedKeys(amounts)| => KeyedRow(id, amounts, SortedKeys(amounts)[k]))
  }

  lemma KeyedRowsListing(id: int, amounts: map<Key, Amount>)
    ensures Listing(KeyedRows(id, amounts), RowsOf(id, amounts), ByKey)
  {
    var keys, rows := SortedKeys(amounts), KeyedRows(id, amounts);
    hide KeyLe;
    forall i | i in RowsOf(id, amounts) ensures i in rows {
      var key :| key in amounts && i == KeyedRow(id, amounts, key);
      assert key in keys;
      var k :| 0 <= k < |keys| && keys[k] == key;
      assert rows[k] == i;
    }
    forall j, k | 0 <= j < k < |rows| ensures rows[j] != rows[k] && ByKey(rows[j], rows[k]) {
      assert IngredientKey(rows[j]) == keys[j] && IngredientKey(rows[k]) == keys[k];
    }
  }

  lemma NormalizedReads(s: Store, id: int, list: seq<Product>)
    requires Sql.SelectRecipeIngredientsByRecipeId(s, id) == RowsOf(id, Collapsed(list))
    ensures ReadIngredients(SortedIngredients(s, id)) == Normalized(list)
  {
    var own := RowsOf(id, Collapsed(list));
    KeyedRowsListing(id, Collapsed(list));
    IngredientsPreordered(own);
    forall i, j | i in own && j in own && ByKey(i, j) && ByKey(j, i) ensures i == j {
      KeyLeIsOrder(IngredientKey(i), IngredientKey(j), IngredientKey(i));
    }
    ListingUnique(KeyedRows(id, Collapsed(list)), SortedIngredients(s, id), own, ByKey);
  }

  /** `recipe` under `id`, as it reads back. */
  ghost function AsStored(recipe: Recipe, id: int): Recipe {
    Recipe(recipe.name, Normalized(recipe.ingredients), Some(id))
  }

  lemma RecipeOfRow(s: Store, r: RecipeRow)
    requires RecipesConsistent(s) && r in s.recipes
    ensures RecipeOf(s, r.id) == Some(ReadRecipe(s, r))
  {
  }

  /** Ingredient rows of one recipe decide how it reads, and nothing else does. */
  lemma SameRowsSameRecipe(s: Store, t: Store, id: int)
    requires RecipesConsistent(s) && RecipesConsistent(t)
    requires forall r: RecipeRow | r.id == id :: r in s.recipes <==> r in t.recipes
    requires Sql.SelectRecipeIngredientsByRecipeId(s, id) == Sql.SelectRecipeIngredientsByRecipeId(t, id)
    ensures RecipeOf(s, id) == RecipeOf(t, id)
  {
    hide StoredDate, BindDate;
    if HasRecipe(s, id) {
      var r :| r in s.recipes && r.id == id;
      RecipeOfRow(s, r);
      RecipeOfRow(t, r);
    }
  }

  /** Writing a recipe: it reads back as written, and every other recipe and product is untouched. */
  lemma WithRecipeReads(s: Store, id: int, recipe: Recipe)
    requires Consistent(s) && !NameTaken(s, recipe.name, id)
    requires HasRecipe(s, id) || s.recipeSeq < id
    ensures var t := WithRecipe(s, id, recipe);
            && RecipeOf(t, id) == Some(AsStored(recipe, id))
            && (forall other | other != id :: RecipeOf(t, other) == RecipeOf(s, other))
            && t.products == s.products && t.productSeq == s.productSeq
  {
    hide StoredDate, BindDate;
    var t := WithRecipe(s, id, recipe);
    SchemaInvariant.WithRecipeConsistent(s, id, recipe);
    var row := RecipeRow(id, recipe.name);
    assert Sql.SelectRecipeIngredientsByRecipeId(t, id) == RowsOf(id, Collapsed(recipe.ingredients));
    NormalizedReads(t, id, recipe.ingredients);
    RecipeOfRow(t, row);
    forall other | other != id ensures RecipeOf(t, other) == RecipeOf(s, other) {
      assert Sql.SelectRecipeIngredientsByRecipeId(t, other) == Sql.SelectRecipeIngredientsByRecipeId(s, other);
      SameRowsSameRecipe(s, t, other);
    }
  }

  lemma WithoutRecipeReads(s: Store, id: int)
    requires Consistent(s)
    ensures var t := WithoutRecipe(s, id);
            && RecipeOf(t, id) == None
            && (forall other | other != id :: RecipeOf(t, other) == RecipeOf(s, other))
            && t.products == s.products
  {
    hide StoredDate, BindDate;
    var t := WithoutRecipe(s, id);
    forall other | other != id ensures RecipeOf(t, other) == RecipeOf(s, other) {
      assert Sql.SelectRecipeIngredientsByRecipeId(t, other) == Sql.SelectRecipeIngredientsByRecipeId(s, other);
      SameRowsSameRecipe(s, t, other);
    }
  }

  /** Creating a recipe and reading it back: duplicates collapsed to the last amount, sorted. */
  lemma CreateRecipeReadsBack(s: Store, recipe: Recipe, pick: int -> int)
    requires Consistent(s) && PicksFreshIds(pick)
    ensures match CreateRecipe(s, recipe, pick)
            case Effect(t, Err(_)) => t == s
            case Effect(t, Ok(id)) =>
              && !HasRecipe(s, id) && RecipeOf(t, id) == Some(AsStored(recipe, id))
              && (forall other | other != id :: RecipeOf(t, other) == RecipeOf(s, other))
              && t.products == s.products
  {
    hide StoredDate, BindDate;
    if CreateRecipe(s, recipe, pick).value.Ok? { WithRecipeReads(s, pick(s.recipeSeq), recipe); }
  }

  /** An update keeps the id and replaces name and ingredients together, or changes nothing. */
  lemma UpdateRecipeAtomic(s: Store, id: int, recipe: Recipe)
    requires Consistent(s)
    ensures match UpdateRecipe(s, id, recipe)
            case Effect(t, Ok(true)) =>
              && RecipeOf(t, id) == Some(AsStored(recipe, id))
              && (forall other | other != id :: RecipeOf(t, other) == RecipeOf(s, other))
              && t.products == s.products
            case Effect(t, Ok(false)) => t == s && RecipeOf(s, id) == None
            case Effect(t, Err(UniqueViolation)) => t == s && NameTaken(s, recipe.name, id)
            case Effect(t, Err(_)) => t == s && !NoneNegative(recipe.ingredients)
  {
    hide StoredDate, BindDate;
    if UpdateRecipe(s, id, recipe).value == Ok(true) { WithRecipeReads(s, id, recipe); }
  }

  // ---- Products ----

  lemma ProductOfRow(s: Store, q: ProductRow)
    requires ProductsConsistent(s) && q in s.products
    ensures ProductOf(s, q.id) == Some(ReadProduct(q))
  {
    hide StoredDate, ReadProduct;
  }

  /** Writing a product: every field reads back, dates included, and no other product moves. */
  lemma WithProductReads(s: Store, id: int, p: Product)
    requires Consistent(s) && p.amount >= 0 && !KeyTaken(s, KeyOf(p), id)
    requires HasProduct(s, id) || s.productSeq < id
    ensures var t := WithProduct(s, id, p);
            && ProductOf(t, id) == Some(p.(id := Some(id)))
            && (forall other | other != id :: ProductOf(t, other) == ProductOf(s, other))
            && t.recipes == s.recipes && t.ingredients == s.ingredients
  {
    hide StoredDate, BindDate, ReadProduct;
    var t := WithProduct(s, id, p);
    SchemaInvariant.WithProductConsistent(s, id, p);
    ProductRoundTrip(id, p);
    ProductOfRow(t, BindProduct(id, p));
    forall other | other != id ensures ProductOf(t, other) == ProductOf(s, other) {
      if HasProduct(s, other) {
        var q :| q in s.products && q.id == other;
        ProductOfRow(s, q);
        ProductOfRow(t, q);
      }
    }
  }

  lemma WithoutProductReads(s: Store, id: int)
    requires Consistent(s)
    ensures var t := WithoutProduct(s, id);
            && ProductOf(t, id) == None
            && (forall other | other != id :: ProductOf(t, other) == ProductOf(s, other))
            && t.recipes == s.recipes && t.ingredients == s.ingredients
  {
    hide StoredDate, BindDate, ReadProduct;
    var t := WithoutProduct(s, id);
    forall other | other != id ensures ProductOf(t, other) == ProductOf(s, other) {
      if HasProduct(s, other) {
        var q :| q in s.products && q.id == other;
        assert q in t.products;
        ProductOfRow(s, q);
        ProductOfRow(t, q);
      }
    }
  }

  /** Creating a product and reading it back by its id gives the product that was created. */
  lemma CreateProductReadsBack(s: Store, p: Product, pick: int -> int)
    requires Consistent(s) && PicksFreshIds(pick)
    ensures match CreateProduct(s, p, pick)
            case Effect(t, Err(_)) => t == s
            case Effect(t, Ok(id)) =>
              && !HasProduct(s, id) && ProductOf(t, id) == Some(p.(id := Some(id)))
              && (forall other | other != id :: ProductOf(t, other) == ProductOf(s, other))
  {
    hide StoredDate, BindDate, ReadProduct;
    if CreateProduct(s, p, pick).value.Ok? { WithProductReads(s, pick(s.productSeq), p); }
  }

  // ---- Batches ----

  /** The product holding a name and dimension; an upsert looks for it by this key. */
  ghost function StockOf(s: Store, key: Key): Option<Product> {
    if exists q | q in s.products :: RowKey(q) == key then
      var q :| q in s.products && RowKey(q) == key;
      Some(ReadProduct(q))
    else None
  }

  ghost function RecipeNamed(s: Store, name: string): Option<Recipe> {
    if exists r | r in s.recipes :: r.name == name then
      var r :| r in s.recipes && r.name == name;
      Some(ReadRecipe(s, r))
    else None
  }

  function LastKeyed(products: seq<Product>, key: Key): Option<Product> {
    if products == [] then None
    else if KeyOf(products[|products| - 1]) == key then Some(products[|products| - 1])
    else LastKeyed(products[..|products| - 1], key)
  }

  function LastNamed(recipes: seq<Recipe>, name: string): Option<Recipe> {
    if recipes == [] then None
    else if recipes[|recipes| - 1].name == name then Some(recipes[|recipes| - 1])
    else LastNamed(recipes[..|recipes| - 1], name)
  }

  /** What upserts leave under a key: the new fields, under the old id if there was one, and
      otherwise under an id above every id issued before. */
  ghost predicate Upserted(before: Option<Product>, p: Product, after: Option<Product>, issued: int) {
    && after.Some? && after.value.id.Some? && after.value == p.(id := after.value.id)
    && (if before.Some? then after.value.id == before.value.id else issued < after.value.id.value)
  }

  ghost predicate Replaced(before: Option<Recipe>, recipe: Recipe, after: Option<Recipe>, issued: int) {
    && after.Some? && after.value.id.Some? && after.value == AsStored(recipe, after.value.id.value)
    && (if before.Some? then after.value.id == before.value.id else issued < after.value.id.value)
  }

  lemma StockOfRow(s: Store, q: ProductRow)
    requires ProductsConsistent(s) && q in s.products
    ensures StockOf(s, RowKey(q)) == Some(ReadProduct(q))
  {
    hide StoredDate, ReadProduct;
  }

  lemma RecipeNamedRow(s: Store, r: RecipeRow)
    requires RecipesConsistent(s) && r in s.recipes
    ensures RecipeNamed(s, r.name) == Some(ReadRecipe(s, r)) == RecipeOf(s, r.id)
  {
    hide ReadRecipe;
    RecipeOfRow(s, r);
  }

  lemma InsertProductReads(s: Store, p: Product, pick: int -> int, key: Key)
    requires Consistent(s) && PicksFreshIds(pick) && p.amount >= 0
    ensures var t := InsertProduct(s, p, pick).db;
            if KeyOf(p) == key then Upserted(StockOf(s, key), p, StockOf(t, key), s.productSeq)
            else StockOf(t, key) == StockOf(s, key)
  {
    hide StoredDate, BindDate, ReadDate;
    var id := ProductIdFor(s, KeyOf(p), pick);
    var t := WithProduct(s, id, p);
    SchemaInvariant.WithProductConsistent(s, id, p);
    if KeyOf(p) == key {
      ProductRoundTrip(id, p);
      StockOfRow(t, BindProduct(id, p));
      if q :| q in s.products && RowKey(q) == key { StockOfRow(s, q); }
    } else if q :| q in s.products && RowKey(q) == key {
      StockOfRow(s, q);
      StockOfRow(t, q);
    }
  }

  lemma InsertRecipeReads(s: Store, recipe: Recipe, pick: int -> int, name: string)
    requires Consistent(s) && PicksFreshIds(pick) && NoneNegative(recipe.ingredients)
    ensures var t := InsertRecipe(s, recipe, pick).db;
            && t.products == s.products
            && if recipe.name == name then Replaced(RecipeNamed(s, name), recipe, RecipeNamed(t, name), s.recipeSeq)
               else RecipeNamed(t, name) == RecipeNamed(s, name)
  {
    hide StoredDate, BindDate;
    var id := RecipeIdFor(s, recipe.name, pick);
    var t := WithRecipe(s, id, recipe);
    SchemaInvariant.WithRecipeConsistent(s, id, recipe);
    WithRecipeReads(s, id, recipe);
    hide SortedIngredients, Normalized;
    if recipe.name == name {
      RecipeNamedRow(t, RecipeRow(id, name));
      if r :| r in s.recipes && r.name == name { RecipeNamedRow(s, r); }
    } else if r :| r in s.recipes && r.name == name {
      RecipeNamedRow(s, r);
      RecipeNamedRow(t, r);
    }
  }

  /** A batch of products succeeds exactly when no amount is negative, and leaves each key with the
      last product of the list that has it, under its old id or a fresh one, or as it was. */
  lemma {:induction false} InsertProductsMeaning(s: Store, products: seq<Product>, pick: int -> int, key: Key)
    requires Consistent(s) && PicksFreshIds(pick)
    ensures EachProduct(s, products, pick).value == if NoneNegative(products) then Ok(()) else Err(CheckViolation)
    ensures !NoneNegative(products) ==> InsertProducts(s, products, pick).db == s
    ensures NoneNegative(products) ==>
              var t := InsertProducts(s, products, pick).db;
              match LastKeyed(products, key)
              case None => StockOf(t, key) == StockOf(s, key)
              case Some(p) => Upserted(StockOf(s, key), p, StockOf(t, key), s.productSeq)
  {
    hide Consistent, StockOf, KeyOf;
    if products != [] {
      var front, last := products[..|products| - 1], products[|products| - 1];
      InsertProductsMeaning(s, front, pick, key);
      assert NoneNegative(products) <==> NoneNegative(front) && last.amount >= 0 by {
        assert products == front + [last];
      }
      SchemaInvariant.EachProductSound(s, front, pick);
      var before := EachProduct(s, front, pick);
      if NoneNegative(products) {
        InsertProductReads(before.db, last, pick, key);
      }
    }
  }

  /** The same for recipes; products are never touched. */
  lemma {:induction false} InsertRecipesMeaning(s: Store, recipes: seq<Recipe>, pick: int -> int, name: string)
    requires Consistent(s) && PicksFreshIds(pick)
    ensures EachRecipe(s, recipes, pick).value
            == if forall r | r in recipes :: NoneNegative(r.ingredients) then Ok(()) else Err(CheckViolation)
    ensures InsertRecipes(s, recipes, pick).value.Err? ==> InsertRecipes(s, recipes, pick).db == s
    ensures InsertRecipes(s, recipes, pick).value.Ok? ==>
              var t := InsertRecipes(s, recipes, pick).db;
              && t.products == s.products
              && match LastNamed(recipes, name)
                 case None => RecipeNamed(t, name) == RecipeNamed(s, name)
                 case Some(r) => Replaced(RecipeNamed(s, name), r, RecipeNamed(t, name), s.recipeSeq)
  {
    hide Consistent, RecipeNamed, Normalized;
    if recipes != [] {
      var front, last := recipes[..|recipes| - 1], recipes[|recipes| - 1];
      InsertRecipesMeaning(s, front, pick, name);
      assert recipes == front + [last];
      SchemaInvariant.EachRecipeSound(s, front, pick);
      var before := EachRecipe(s, front, pick);
      if EachRecipe(s, recipes, pick).value.Ok? {
        InsertRecipeReads(before.db, last, pick, name);
      }
    }
  }
}
