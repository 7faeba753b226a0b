/** Validation and not-found mapping over the repository; each use case is one case of `Serve`. */
module RecipeService {
  import opened Wrappers
  import opened Kitchen
  import opened Tables
  import opened ServiceSpec
  import StoreSpec
  import SqliteRecipeRepository

  function OfProduct(r: Result<Product, Error>): Reply {
    match r
    case Ok(p) => Ok(AProduct(p))
    case Err(e) => Err(e)
  }

  function OfRecipe(r: Result<Recipe, Error>): Reply {
    match r
    case Ok(recipe) => Ok(ARecipe(recipe))
    case Err(e) => Err(e)
  }

  function OfUnit(r: Result<(), Error>): Reply {
    match r
    case Ok(_) => Ok(Nothing)
    case Err(e) => Err(e)
  }

  class RecipeService {
    const repository: SqliteRecipeRepository.SqliteRecipeRepository

    constructor (repository: SqliteRecipeRepository.SqliteRecipeRepository)
      ensures this.repository == repository
    {
      this.repository := repository;
    }

    ghost predicate Valid()
      reads repository.dbManager
    {
      repository.dbManager.Valid()
    }

    ghost function Db(): Store
      reads repository.dbManager
    {
      repository.dbManager.db
    }

    method CreateProduct(product: Product, choice: Choice) returns (r: Result<Product, Error>)
      requires Valid() && LegalChoice(choice)
      modifies repository.dbManager
      ensures Valid()
      ensures (Db(), OfProduct(r)) == Serve(old(Db()), PostProduct(product), choice)
    {
      hide StoreSpec.Consistent, StoreSpec.CreateProduct;
      var fault := ValidateProduct(product);
      if fault.Some? {
        return Err(fault.value);
      }
      r := repository.CreateProduct(product, choice.pick);
    }

    method GetProduct(productId: int, ghost choice: Choice) returns (r: Result<Option<Product>, Error>)
      requires Valid()
      ensures r.Ok? && (Db(), Ok(MaybeProduct(r.value))) == Serve(Db(), FetchProduct(productId), choice)
    {
      r := repository.GetProduct(productId);
    }

    method GetProducts() returns (r: Result<seq<Product>, Error>)
      requires Valid()
      ensures r.Ok? && exists choice :: LegalChoice(choice) && (Db(), Ok(Products(r.value))) == Serve(Db(), ListProducts, choice)
    {
      r := repository.GetProducts();
      EveryListingIsAChoice(Db(), r.value);
    }

    method UpdateProduct(productId: int, product: Product, ghost choice: Choice) returns (r: Result<(), Error>)
      requires Valid()
      modifies repository.dbManager
      ensures Valid()
      ensures (Db(), OfUnit(r)) == Serve(old(Db()), PutProduct(productId, product), choice)
    {
      hide StoreSpec.Consistent, StoreSpec.UpdateProduct;
      var fault := ValidateProduct(product);
      if fault.Some? {
        return Err(fault.value);
      }
      var updated := repository.UpdateProduct(productId, product);
      if updated.Err? {
        return Err(updated.error);
      }
      if !updated.value {
        return Err(Error(NotFound, "Product was not found"));
      }
      r := Ok(());
    }

    method DeleteProduct(productId: int, ghost choice: Choice) returns (r: Result<(), Error>)
      requires Valid()
      modifies repository.dbManager
      ensures Valid()
      ensures (Db(), OfUnit(r)) == Serve(old(Db()), RemoveProduct(productId), choice)
    {
      hide StoreSpec.Consistent, StoreSpec.DeleteProduct;
      var deleted := repository.DeleteProduct(productId);
      match deleted
      case Err(error) => r := Err(error);
      case Ok(found) =>
        if !found {
          return Err(Error(NotFound, "Product was not found"));
        }
        r := Ok(());
    }

    method CreateRecipe(recipe: Recipe, choice: Choice) returns (r: Result<Recipe, Error>)
      requires Valid() && LegalChoice(choice)
      modifies repository.dbManager
      ensures Valid()
      ensures (Db(), OfRecipe(r)) == Serve(old(Db()), PostRecipe(recipe), choice)
    {
      hide StoreSpec.Consistent, StoreSpec.CreateRecipe;
      var fault := ValidateRecipe(recipe);
      if fault.Some? {
        return Err(fault.value);
      }
      r := repository.CreateRecipe(recipe, choice.pick);
    }

    method GetRecipe(recipeId: int, ghost choice: Choice) returns (r: Result<Option<Recipe>, Error>)
      requires Valid()
      ensures r.Ok? && (Db(), Ok(MaybeRecipe(r.value))) == Serve(Db(), FetchRecipe(recipeId), choice)
    {
      r := repository.GetRecipe(recipeId);
    }

    method GetRecipes(ghost choice: Choice) returns (r: Result<seq<Recipe>, Error>)
      requires Valid()
      ensures r.Ok? && (Db(), Ok(Recipes(r.value))) == Serve(Db(), ListRecipes, choice)
    {
      r := repository.GetRecipes();
    }

    method GetCookableRecipes(ghost choice: Choice) returns (r: Result<seq<Recipe>, Error>)
      requires Valid()
      ensures r.Ok? && (Db(), Ok(Recipes(r.value))) == Serve(Db(), ListCookable, choice)
    {
      r := repository.GetCookableRecipes();
    }

    method UpdateRecipe(recipeId: int, recipe: Recipe, ghost choice: Choice) returns (r: Result<(), Error>)
      requires Valid()
      modifies repository.dbManager
      ensures Valid()
      ensures (Db(), OfUnit(r)) == Serve(old(Db()), PutRecipe(recipeId, recipe), choice)
    {
      hide StoreSpec.Consistent, StoreSpec.UpdateRecipe;
      var fault := ValidateRecipe(recipe);
      if fault.Some? {
        return Err(fault.value);
      }
      var updated := repository.UpdateRecipe(recipeId, recipe);
      if updated.Err? {
        return Err(updated.error);
      }
      if !updated.value {
        return Err(Error(NotFound, "Recipe was not found"));
      }
      r := Ok(());
    }

    method DeleteRecipe(recipeId: int, ghost choice: Choice) returns (r: Result<(), Error>)
      requires Valid()
      modifies repository.dbManager
      ensures Valid()
      ensures (Db(), OfUnit(r)) == Serve(old(Db()), RemoveRecipe(recipeId), choice)
    {
      hide StoreSpec.Consistent, StoreSpec.DeleteRecipe;
      var deleted := repository.DeleteRecipe(recipeId);
      match deleted
      case Err(error) => r := Err(error);
      case Ok(found) =>
        if !found {
          return Err(Error(NotFound, "Recipe was not found"));
        }
        r := Ok(());
    }

    static method ValidateProduct(product: Product) returns (fault: Option<Error>)
      ensures fault == ProductFault(product)
      ensures fault.None? <==> ValidProduct(product)
    {
      if product.name == "" {
        return Some(Error(Validation, "Product name must not be empty"));
      }
      if product.amount < 0 {
        return Some(Error(Validation, "Product amount must not be negative"));
      }
      fault := None;
    }

    static method ValidateRecipe(recipe: Recipe) returns (fault: Option<Error>)
      ensures fault == RecipeFault(recipe)
      ensures fault.None? <==> ValidRecipe(recipe)
    {
      IngredientFaultMeaning(recipe.ingredients);
      if recipe.name == "" {
        return Some(Error(Validation, "Recipe name must not be empty"));
      }
      var list := recipe.ingredients;
      for i := 0 to |list|
        invariant IngredientFault(list) == IngredientFault(list[i..])
      {
        var validation := ValidateProduct(list[i]);
        if validation.Some? {
          return validation;
        }
      }
      fault := None;
    }
  }
}
