/**
 The SQLite access layer: one object holding the database, whose methods execute statements, open
 transactions, and fold result rows into products and recipes. Each method is proved against the
 table-level specification in `StoreSpec`; a thrown exception is an `Err`.
 */
module DBManager {
  import opened Wrappers
  import opened Kitchen
  import opened Ordering
  import opened Tables
  import opened Listings
  import StoreSpec
  import Sql
  import SchemaInvariant

  type Thrown = Violation

  class DBManager {
    var db: Store

    ghost predicate Valid()
      reads this
    {
      StoreSpec.Consistent(db)
    }

    constructor ()
      ensures Valid() && db == EMPTY
      ensures db.products == {} && db.recipes == {} && db.ingredients == {}
    {
      db := EMPTY;
    }

    /** Opens a database that already holds tables. */
    constructor Open(contents: Store)
      requires StoreSpec.Consistent(contents)
      ensures Valid() && db == contents
    {
      db := contents;
    }

    // ---- Products ----

    method InsertProduct(product: Product, pick: int -> int) returns (r: Result<(), Thrown>)
      requires Valid() && PicksFreshIds(pick)
      modifies this
      ensures Valid()
      ensures StoreSpec.Effect(db, r) == StoreSpec.InsertProduct(old(db), product, pick)
    {
      StoreSpec.InsertProductMeetsSpec(db, product, pick);
      SchemaInvariant.InsertProductSound(db, product, pick);
      match Sql.InsertProduct(db, product, pick)
      case Failed(cause) =>
        r := Err(cause);
      case Done(after, _) =>
        db := after;
        r := Ok(());
    }

    method InsertProducts(products: seq<Product>, pick: int -> int) returns (r: Result<(), Thrown>)
      requires Valid() && PicksFreshIds(pick)
      modifies this
      ensures Valid()
      ensures StoreSpec.Effect(db, r) == StoreSpec.InsertProducts(old(db), products, pick)
    {
      hide StoreSpec.Consistent, StoreSpec.EachProduct;
      var transaction := db;
      EachOfNone(db, pick);
      for i := 0 to |products|
        invariant Valid()
        invariant StoreSpec.Effect(db, Ok(())) == StoreSpec.EachProduct(old(db), products[..i], pick)
      {
        OneMoreProduct(old(db), products, i, pick);
        r := InsertProduct(products[i], pick);
        if r.Err? {
          StopAtFirstProduct(old(db), products, i + 1, pick);
          db := transaction;
          return;
        }
      }
      assert products[..|products|] == products;
      r := Ok(());
    }

    method CreateProduct(product: Product, pick: int -> int) returns (r: Result<int, Thrown>)
      requires Valid() && PicksFreshIds(pick)
      modifies this
      ensures Valid()
      ensures StoreSpec.Effect(db, r) == StoreSpec.CreateProduct(old(db), product, pick)
    {
      StoreSpec.CreateProductMeetsSpec(db, product, pick);
      SchemaInvariant.CreateProductSound(db, product, pick);
      match Sql.CreateProduct(db, product, pick)
      case Failed(cause) =>
        r := Err(cause);
      case Done(after, _) =>
        db := after;
        r := Ok(db.productSeq);
    }

    method GetProduct(productId: int) returns (product: Option<Product>)
      requires Valid()
      ensures product == StoreSpec.ProductOf(db, productId)
    {
      var rows := Sql.SelectProductById(db, productId);
      assert forall q | q in db.products && q.id == productId :: q in rows;
      if rows == {} {
        return None;
      }
      var row :| row in rows;
      product := Some(ReadProduct(row));
    }

    method UpdateProduct(productId: int, product: Product) returns (r: Result<bool, Thrown>)
      requires Valid()
      modifies this
      ensures Valid()
      ensures StoreSpec.Effect(db, r) == StoreSpec.UpdateProduct(old(db), productId, product)
    {
      StoreSpec.UpdateProductMeetsSpec(db, product, productId);
      SchemaInvariant.UpdateProductSound(db, productId, product);
      match Sql.UpdateProductById(db, product, productId)
      case Failed(cause) =>
        r := Err(cause);
      case Done(after, changes) =>
        db := after;
        r := Ok(changes == 1);
    }

    method DeleteProduct(productId: int) returns (r: Result<bool, Thrown>)
      requires Valid()
      modifies this
      ensures Valid()
      ensures StoreSpec.Effect(db, r) == StoreSpec.DeleteProduct(old(db), productId)
    {
      StoreSpec.DeleteProductMeetsSpec(db, productId);
      SchemaInvariant.WithoutProductSound(db, productId);
      var outcome := Sql.DeleteProductById(db, productId);
      db := outcome.db;
      r := Ok(outcome.changes == 1);
    }

    /** Every product once, amounts ascending; rows with equal amounts come in any order. */
    method GetAllProducts() returns (products: seq<Product>)
      requires Valid()
      ensures StoreSpec.ProductListing(db, products)
    {
      var rows := OrderBy(db.products, ByAmount);
      products := [];
      for i := 0 to |rows|
        invariant products == StoreSpec.ReadProducts(rows[..i])
      {
        products := products + [ReadProduct(rows[i])];
      }
      assert rows[..|rows|] == rows;
    }

    // ---- Recipes ----

    method GetRecipeIngredients(recipeId: int) returns (ingredients: seq<Product>)
      requires Valid()
      ensures ingredients == ReadIngredients(SortedIngredients(db, recipeId))
    {
      IngredientsPreordered(Sql.SelectRecipeIngredientsByRecipeId(db, recipeId));
      var rows := OrderBy(Sql.SelectRecipeIngredientsByRecipeId(db, recipeId), ByKey);
      ListingIngredientsReads(db, recipeId, rows);
      ingredients := [];
      for i := 0 to |rows|
        invariant ingredients == ReadIngredients(rows[..i])
      {
        ingredients := ingredients + [ReadIngredient(rows[i])];
      }
      assert rows[..|rows|] == rows;
    }

    method InsertRecipe(recipe: Recipe, pick: int -> int) returns (r: Result<(), Thrown>)
      requires Valid() && PicksFreshIds(pick)
      modifies this
      ensures Valid()
      ensures StoreSpec.Effect(db, r) == StoreSpec.InsertRecipe(old(db), recipe, pick)
    {
      hide Sql.InsertRecipeIfAbsent, Sql.SelectRecipeIdByName, StoreSpec.Consistent;
      var transaction := db;
      StoreSpec.InsertRecipeIfAbsentMeetsSpec(db, recipe, pick);
      SchemaInvariant.InsertRecipeSound(db, recipe, pick);
      SchemaInvariant.SoundIsConsistent(db, StoreSpec.InsertRecipe(db, recipe, pick).db);
      db := Sql.InsertRecipeIfAbsent(db, recipe.name, pick).db;
      // The name is in the table now, so the "failed to retrieve" exception is never thrown.
      var ids := Sql.SelectRecipeIdByName(db, recipe.name);
      var recipeId :| recipeId in ids;
      r := ReplaceRecipeIngredients(recipeId, recipe);
      if r.Err? {
        db := transaction;
      }
    }

    method InsertRecipes(recipes: seq<Recipe>, pick: int -> int) returns (r: Result<(), Thrown>)
      requires Valid() && PicksFreshIds(pick)
      modifies this
      ensures Valid()
      ensures StoreSpec.Effect(db, r) == StoreSpec.InsertRecipes(old(db), recipes, pick)
    {
      hide Sql.InsertRecipeIfAbsent, Sql.SelectRecipeIdByName, StoreSpec.Consistent, StoreSpec.EachRecipe;
      var transaction := db;
      EachOfNone(db, pick);
      for i := 0 to |recipes|
        invariant Valid()
        invariant StoreSpec.Effect(db, Ok(())) == StoreSpec.EachRecipe(old(db), recipes[..i], pick)
      {
        OneMoreRecipe(old(db), recipes, i, pick);
        StoreSpec.InsertRecipeIfAbsentMeetsSpec(db, recipes[i], pick);
        SchemaInvariant.InsertRecipeSound(db, recipes[i], pick);
        SchemaInvariant.SoundIsConsistent(db, StoreSpec.InsertRecipe(db, recipes[i], pick).db);
        db := Sql.InsertRecipeIfAbsent(db, recipes[i].name, pick).db;
        var ids := Sql.SelectRecipeIdByName(db, recipes[i].name);
        var recipeId :| recipeId in ids;
        r := ReplaceRecipeIngredients(recipeId, recipes[i]);
        if r.Err? {
          StopAtFirstRecipe(old(db), recipes, i + 1, pick);
          db := transaction;
          return;
        }
      }
      assert recipes[..|recipes|] == recipes;
      r := Ok(());
    }

    method CreateRecipe(recipe: Recipe, pick: int -> int) returns (r: Result<int, Thrown>)
      requires Valid() && PicksFreshIds(pick)
      modifies this
      ensures Valid()
      ensures StoreSpec.Effect(db, r) == StoreSpec.CreateRecipe(old(db), recipe, pick)
    {
      StoreSpec.CreateRecipeMeetsSpec(db, recipe, pick);
      SchemaInvariant.CreateRecipeSound(db, recipe, pick);
      var transaction := db;
      match Sql.CreateRecipe(db, recipe.name, pick)
      case Failed(cause) =>
        r := Err(cause);
      case Done(after, _) =>
        db := after;
        var recipeId := db.recipeSeq;
        var replaced := ReplaceRecipeIngredients(recipeId, recipe);
        if replaced.Err? {
          db := transaction;
          return Err(replaced.error);
        }
        r := Ok(recipeId);
    }

    method GetRecipe(recipeId: int) returns (recipe: Option<Recipe>)
      requires Valid()
      ensures recipe == RecipeOf(db, recipeId)
    {
      var selected := Sql.SelectRecipeByIdWithIngredients(db, recipeId);
      JoinPreordered(selected);
      var rows := OrderBy(selected, ByIngredient);
      ListingByIdReads(db, recipeId, rows);
      var recipes := FetchRecipes(rows);
      recipe := if recipes == [] then None else Some(recipes[0]);
    }

    method UpdateRecipe(recipeId: int, recipe: Recipe) returns (r: Result<bool, Thrown>)
      requires Valid()
      modifies this
      ensures Valid()
      ensures StoreSpec.Effect(db, r) == StoreSpec.UpdateRecipe(old(db), recipeId, recipe)
    {
      StoreSpec.UpdateRecipeNameMeetsSpec(db, recipe, recipeId);
      SchemaInvariant.UpdateRecipeSound(db, recipeId, recipe);
      var transaction := db;
      match Sql.UpdateRecipeNameById(db, recipe.name, recipeId)
      case Failed(cause) =>
        r := Err(cause);
      case Done(after, changes) =>
        db := after;
        if changes != 1 {
          db := transaction;
          return Ok(false);
        }
        var replaced := ReplaceRecipeIngredients(recipeId, recipe);
        if replaced.Err? {
          db := transaction;
          return Err(replaced.error);
        }
        r := Ok(true);
    }

    method DeleteRecipe(recipeId: int) returns (r: Result<bool, Thrown>)
      requires Valid()
      modifies this
      ensures Valid()
      ensures StoreSpec.Effect(db, r) == StoreSpec.DeleteRecipe(old(db), recipeId)
    {
      StoreSpec.DeleteRecipeMeetsSpec(db, recipeId);
      SchemaInvariant.WithoutRecipeSound(db, recipeId);
      var outcome := Sql.DeleteRecipeById(db, recipeId);
      db := outcome.db;
      r := Ok(outcome.changes == 1);
    }

    /** Deletes the recipe's ingredient rows, then inserts the new ones until one is refused. */
    method ReplaceRecipeIngredients(recipeId: int, recipe: Recipe) returns (r: Result<(), Thrown>)
      requires StoreSpec.HasRecipe(db, recipeId)
      modifies this
      ensures r == if StoreSpec.NoneNegative(recipe.ingredients) then Ok(()) else Err(CheckViolation)
      ensures r.Ok? ==> db == StoreSpec.WithIngredients(old(db), recipeId, recipe.ingredients)
      ensures r.Err? ==> exists k | 0 <= k < |recipe.ingredients| ::
                           && StoreSpec.NoneNegative(recipe.ingredients[..k]) && recipe.ingredients[k].amount < 0
                           && db == StoreSpec.WithIngredients(old(db), recipeId, recipe.ingredients[..k])
    {
      var list := recipe.ingredients;
      db := Sql.DeleteRecipeIngredientsByRecipeId(db, recipeId).db;
      StoreSpec.DeleteIngredientsMeetsSpec(old(db), recipeId);
      for i := 0 to |list|
        invariant StoreSpec.NoneNegative(list[..i])
        invariant db == StoreSpec.WithIngredients(old(db), recipeId, list[..i])
      {
        assert list[..i + 1] == list[..i] + [list[i]];
        StoreSpec.InsertIngredientMeetsSpec(old(db), recipeId, list[..i], list[i]);
        match Sql.InsertRecipeIngredient(db, recipeId, list[i].name, list[i].dimension, list[i].amount)
        case Failed(cause) =>
          return Err(cause);
        case Done(after, _) =>
          db := after;
      }
      assert list[..|list|] == list;
      r := Ok(());
    }

    method GetAllRecipes() returns (recipes: seq<Recipe>)
      requires Valid()
      ensures recipes == AllRecipes(db)
    {
      var selected := Sql.SelectAllRecipesWithIngredients(db);
      JoinPreordered(selected);
      var rows := OrderBy(selected, ByNameThenIngredient);
      ListingAllReads(db, rows);
      recipes := FetchRecipes(rows);
    }

    method GetCookableRecipes() returns (recipes: seq<Recipe>)
      requires Valid()
      ensures recipes == CookableRecipes(db)
    {
      var selected := Sql.SelectCookableRecipesWithIngredients(db);
      JoinPreordered(selected);
      var rows := OrderBy(selected, ByNameThenIngredient);
      ListingCookableReads(db, rows);
      recipes := FetchRecipes(rows);
    }

    /** Folds join rows into recipes. The id -1 stands for "no recipe yet", so no row may carry it. */
    static method FetchRecipes(rows: seq<JoinRow>) returns (recipes: seq<Recipe>)
      requires forall row | row in rows :: row.0.id != -1
      ensures recipes == Group(rows)
    {
      hide Group;
      recipes := [];
      GroupEmpty();
      var currentId := -1;
      for i := 0 to |rows|
        invariant recipes == Group(rows[..i])
        invariant currentId == if i == 0 then -1 else rows[i - 1].0.id
      {
        GroupSnoc(rows[..i], rows[i]);
        assert rows[..i + 1] == rows[..i] + [rows[i]];
        assert rows[i] in rows;
        if rows[i].0.id != currentId {
          recipes := recipes + [Recipe(rows[i].0.name, [], Some(rows[i].0.id))];
          currentId := rows[i].0.id;
        }
        if rows[i].1.Some? {
          var back := recipes[|recipes| - 1];
          recipes := recipes[..|recipes| - 1]
                     + [back.(ingredients := back.ingredients + [ReadIngredient(rows[i].1.value)])];
        }
      }
      assert rows[..|rows|] == rows;
    }
  }

  lemma EachOfNone(s: Store, pick: int -> int)
    ensures StoreSpec.EachProduct(s, [], pick) == StoreSpec.EachRecipe(s, [], pick) == StoreSpec.Effect(s, Ok(()))
  {
  }

  lemma OneMoreProduct(s: Store, products: seq<Product>, i: nat, pick: int -> int)
    requires i < |products|
    ensures StoreSpec.EachProduct(s, products[..i], pick).value.Ok? ==>
              StoreSpec.EachProduct(s, products[..i + 1], pick)
              == StoreSpec.InsertProduct(StoreSpec.EachProduct(s, products[..i], pick).db, products[i], pick)
  {
    assert products[..i + 1][..i] == products[..i];
  }

  lemma OneMoreRecipe(s: Store, recipes: seq<Recipe>, i: nat, pick: int -> int)
    requires i < |recipes|
    ensures StoreSpec.EachRecipe(s, recipes[..i], pick).value.Ok? ==>
              StoreSpec.EachRecipe(s, recipes[..i + 1], pick)
              == StoreSpec.InsertRecipe(StoreSpec.EachRecipe(s, recipes[..i], pick).db, recipes[i], pick)
  {
    assert recipes[..i + 1][..i] == recipes[..i];
  }

  lemma {:induction false} StopAtFirstProduct(s: Store, products: seq<Product>, k: nat, pick: int -> int)
    requires k <= |products| && StoreSpec.EachProduct(s, products[..k], pick).value.Err?
    ensures StoreSpec.EachProduct(s, products, pick) == StoreSpec.EachProduct(s, products[..k], pick)
    decreases |products|
  {
    if k == |products| {
      assert products[..k] == products;
    } else {
      assert products[..|products| - 1][..k] == products[..k];
      StopAtFirstProduct(s, products[..|products| - 1], k, pick);
    }
  }

  lemma {:induction false} StopAtFirstRecipe(s: Store, recipes: seq<Recipe>, k: nat, pick: int -> int)
    requires k <= |recipes| && StoreSpec.EachRecipe(s, recipes[..k], pick).value.Err?
    ensures StoreSpec.EachRecipe(s, recipes, pick) == StoreSpec.EachRecipe(s, recipes[..k], pick)
    decreases |recipes|
  {
    if k == |recipes| {
      assert recipes[..k] == recipes;
    } else {
      assert recipes[..|recipes| - 1][..k] == recipes[..k];
      StopAtFirstRecipe(s, recipes[..|recipes| - 1], k, pick);
    }
  }
}
