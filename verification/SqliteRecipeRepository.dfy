/** The repository over SQLite: exceptions become `Storage` errors, and creates read back. */
module SqliteRecipeRepository {
  import opened Wrappers
  import opened Kitchen
  import opened Tables
  import opened Listings
  import opened ServiceSpec
  import StoreSpec
  import Views
  import DBManager

  /** A thrown exception, as the error the repository reports. */
  function Caught<T>(r: Result<T, Violation>): Result<T, Error> {
    match r
    case Ok(value) => Ok(value)
    case Err(cause) => Err(StorageError(cause))
  }

  class SqliteRecipeRepository {
    const dbManager: DBManager.DBManager

    constructor (dbManager: DBManager.DBManager)
      ensures this.dbManager == dbManager
    {
      this.dbManager := dbManager;
    }

    /** The product as read back; the row just inserted is always found. */
    method CreateProduct(product: Product, pick: int -> int) returns (r: Result<Product, Error>)
      requires dbManager.Valid() && PicksFreshIds(pick)
      modifies dbManager
      ensures dbManager.Valid()
      ensures match StoreSpec.CreateProduct(old(dbManager.db), product, pick)
              case Effect(t, Err(cause)) => dbManager.db == t && r == Err(StorageError(cause))
              case Effect(t, Ok(id)) => dbManager.db == t && r == Ok(product.(id := Some(id)))
    {
      Views.CreateProductReadsBack(dbManager.db, product, pick);
      var created := dbManager.CreateProduct(product, pick);
      match created
      case Err(cause) => return Err(StorageError(cause));
      case Ok(productId) =>
        var createdProduct := dbManager.GetProduct(productId);
        if createdProduct.None? {
          return Err(Error(Storage, "Created product was not found"));
        }
        r := Ok(createdProduct.value);
    }

    method GetProduct(productId: int) returns (r: Result<Option<Product>, Error>)
      requires dbManager.Valid()
      ensures r == Ok(StoreSpec.ProductOf(dbManager.db, productId))
    {
      var product := dbManager.GetProduct(productId);
      r := Ok(product);
    }

    method GetProducts() returns (r: Result<seq<Product>, Error>)
      requires dbManager.Valid()
      ensures r.Ok? && StoreSpec.ProductListing(dbManager.db, r.value)
    {
      var products := dbManager.GetAllProducts();
      r := Ok(products);
    }

    method UpdateProduct(productId: int, product: Product) returns (r: Result<bool, Error>)
      requires dbManager.Valid()
      modifies dbManager
      ensures dbManager.Valid()
      ensures var effect := StoreSpec.UpdateProduct(old(dbManager.db), productId, product);
              dbManager.db == effect.db && r == Caught(effect.value)
    {
      var updated := dbManager.UpdateProduct(productId, product);
      r := Caught(updated);
    }

    method DeleteProduct(productId: int) returns (r: Result<bool, Error>)
      requires dbManager.Valid()
      modifies dbManager
      ensures dbManager.Valid()
      ensures var effect := StoreSpec.DeleteProduct(old(dbManager.db), productId);
              dbManager.db == effect.db && r == Caught(effect.value)
    {
      var deleted := dbManager.DeleteProduct(productId);
      r := Caught(deleted);
    }

    /** The recipe as read back: its ingredients collapsed and sorted, its id filled in. */
    method CreateRecipe(recipe: Recipe, pick: int -> int) returns (r: Result<Recipe, Error>)
      requires dbManager.Valid() && PicksFreshIds(pick)
      modifies dbManager
      ensures dbManager.Valid()
      ensures match StoreSpec.CreateRecipe(old(dbManager.db), recipe, pick)
              case Effect(t, Err(cause)) => dbManager.db == t && r == Err(StorageError(cause))
              case Effect(t, Ok(id)) => dbManager.db == t && r == Ok(Views.AsStored(recipe, id))
    {
      Views.CreateRecipeReadsBack(dbManager.db, recipe, pick);
      var created := dbManager.CreateRecipe(recipe, pick);
      match created
      case Err(cause) => return Err(StorageError(cause));
      case Ok(recipeId) =>
        var createdRecipe := dbManager.GetRecipe(recipeId);
        if createdRecipe.None? {
          return Err(Error(Storage, "Created recipe was not found"));
        }
        r := Ok(createdRecipe.value);
    }

    method GetRecipe(recipeId: int) returns (r: Result<Option<Recipe>, Error>)
      requires dbManager.Valid()
      ensures r == Ok(RecipeOf(dbManager.db, recipeId))
    {
      var recipe := dbManager.GetRecipe(recipeId);
      r := Ok(recipe);
    }

    method GetRecipes() returns (r: Result<seq<Recipe>, Error>)
      requires dbManager.Valid()
      ensures r == Ok(AllRecipes(dbManager.db))
    {
      var recipes := dbManager.GetAllRecipes();
      r := Ok(recipes);
    }

    method GetCookableRecipes() returns (r: Result<seq<Recipe>, Error>)
      requires dbManager.Valid()
      ensures r == Ok(CookableRecipes(dbManager.db))
    {
      var recipes := dbManager.GetCookableRecipes();
      r := Ok(recipes);
    }

    method UpdateRecipe(recipeId: int, recipe: Recipe) returns (r: Result<bool, Error>)
      requires dbManager.Valid()
      modifies dbManager
      ensures dbManager.Valid()
      ensures var effect := StoreSpec.UpdateRecipe(old(dbManager.db), recipeId, recipe);
              dbManager.db == effect.db && r == Caught(effect.value)
    {
      var updated := dbManager.UpdateRecipe(recipeId, recipe);
      r := Caught(updated);
    }

    method DeleteRecipe(recipeId: int) returns (r: Result<bool, Error>)
      requires dbManager.Valid()
      modifies dbManager
      ensures dbManager.Valid()
      ensures var effect := StoreSpec.DeleteRecipe(old(dbManager.db), recipeId);
              dbManager.db == effect.db && r == Caught(effect.value)
    {
      var deleted := dbManager.DeleteRecipe(recipeId);
      r := Caught(deleted);
    }
  }
}
