/**
 What each database operation achieves, stated on whole tables and without statements, loops or
 transactions: the specification the imperative `DBManager` is proved against.
 */
module StoreSpec {
  import opened Wrappers
  import opened Kitchen
  import opened Calendar
  import opened Ordering
  import opened Tables
  import Sql

  /** The new database and the value returned or the exception thrown. */
  datatype Effect<T> = Effect(db: Store, value: Result<T, Violation>)

  // ---- The schema, as an invariant ----

  predicate StoredDate(column: Option<string>) { BindDate(ReadDate(column)) == column }

  ghost predicate ProductsConsistent(s: Store) {
    && (forall q | q in s.products :: 0 < q.id <= s.productSeq && q.amount >= 0)
    && (forall q | q in s.products :: StoredDate(q.manufacture) && StoredDate(q.expiration))
    && (forall p, q | p in s.products && q in s.products :: p.id == q.id ==> p == q)
    && (forall p, q | p in s.products && q in s.products :: RowKey(p) == RowKey(q) ==> p == q)
  }

  ghost predicate RecipesConsistent(s: Store) {
    && (forall r | r in s.recipes :: 0 < r.id <= s.recipeSeq)
    && (forall r, t | r in s.recipes && t in s.recipes :: r.id == t.id ==> r == t)
    && (forall r, t | r in s.recipes && t in s.recipes :: r.name == t.name ==> r == t)
  }

  ghost predicate IngredientsConsistent(s: Store) {
    && (forall i | i in s.ingredients :: i.required >= 0 && HasRecipe(s, i.recipeId))
    && (forall i, j | i in s.ingredients && j in s.ingredients ::
          i.recipeId == j.recipeId && IngredientKey(i) == IngredientKey(j) ==> i == j)
  }

  /** UNIQUE, PRIMARY KEY, CHECK and FOREIGN KEY, together with ids never above the largest issued. */
  ghost predicate Consistent(s: Store) {
    && 0 <= s.productSeq && 0 <= s.recipeSeq
    && ProductsConsistent(s) && RecipesConsistent(s) && IngredientsConsistent(s)
  }

  // ---- Looking things up ----

  predicate HasProduct(s: Store, id: int) { exists q | q in s.products :: q.id == id }

  predicate HasRecipe(s: Store, id: int) { exists r | r in s.recipes :: r.id == id }

  /** Some other row, not `id`, already holds this name and dimension. */
  predicate KeyTaken(s: Store, key: Key, id: int) { exists q | q in s.products :: RowKey(q) == key && q.id != id }

  predicate NameTaken(s: Store, name: string, id: int) { exists r | r in s.recipes :: r.name == name && r.id != id }

  ghost function ProductOf(s: Store, id: int): Option<Product> {
    if HasProduct(s, id) then
      var q :| q in s.products && q.id == id;
      Some(ReadProduct(q))
    else None
  }

  function ReadProducts(rows: seq<ProductRow>): seq<Product> {
    seq(|rows|, k requires 0 <= k < |rows| => ReadProduct(rows[k]))
  }

  /** A listing of all products by ascending amount, in any order among equal amounts. */
  ghost predicate ProductListing(s: Store, products: seq<Product>) {
    exists rows :: Listing(rows, s.products, ByAmount) && products == ReadProducts(rows)
  }

  ghost function ProductIdFor(s: Store, key: Key, pick: int -> int): int {
    if exists q | q in s.products :: RowKey(q) == key then
      var q :| q in s.products && RowKey(q) == key;
      q.id
    else pick(s.productSeq)
  }

  ghost function RecipeIdFor(s: Store, name: string, pick: int -> int): int {
    if exists r | r in s.recipes :: r.name == name then
      var r :| r in s.recipes && r.name == name;
      r.id
    else pick(s.recipeSeq)
  }

  // ---- Ingredient lists ----

  function NoneNegative(list: seq<Product>): bool { forall p | p in list :: p.amount >= 0 }

  /** One amount for each (name, dimension): the last one in the list. */
  function Collapsed(list: seq<Product>): map<Key, Amount> {
    if list == [] then map[]
    else Collapsed(list[..|list| - 1])[KeyOf(list[|list| - 1]) := list[|list| - 1].amount]
  }

  function RowsOf(id: int, amounts: map<Key, Amount>): set<IngredientRow> {
    set k | k in amounts :: IngredientRow(id, k.name, k.dimension, amounts[k])
  }

  function WithIngredients(s: Store, id: int, list: seq<Product>): Store {
    s.(ingredients := (set i | i in s.ingredients && i.recipeId != id) + RowsOf(id, Collapsed(list)))
  }

  function Max(a: int, b: int): int { if a < b then b else a }

  function WithProduct(s: Store, id: int, p: Product): Store {
    s.(products := (set q | q in s.products && q.id != id) + {BindProduct(id, p)},
       productSeq := Max(s.productSeq, id))
  }

  function WithoutProduct(s: Store, id: int): Store {
    s.(products := set q | q in s.products && q.id != id)
  }

  function WithRecipe(s: Store, id: int, recipe: Recipe): Store {
    WithIngredients(s.(recipes := (set r | r in s.recipes && r.id != id) + {RecipeRow(id, recipe.name)},
                       recipeSeq := Max(s.recipeSeq, id)),
                    id, recipe.ingredients)
  }

  function WithoutRecipe(s: Store, id: int): Store {
    s.(recipes := (set r | r in s.recipes && r.id != id),
       ingredients := (set i | i in s.ingredients && i.recipeId != id))
  }

  // ---- The operations ----

  ghost function InsertProduct(s: Store, p: Product, pick: int -> int): Effect<()> {
    if p.amount < 0 then Effect(s, Err(CheckViolation))
    else Effect(WithProduct(s, ProductIdFor(s, KeyOf(p), pick), p), Ok(()))
  }

  function CreateProduct(s: Store, p: Product, pick: int -> int): Effect<int> {
    var id := pick(s.productSeq);
    if p.amount < 0 then Effect(s, Err(CheckViolation))
    else if KeyTaken(s, KeyOf(p), id) then Effect(s, Err(UniqueViolation))
    else Effect(WithProduct(s, id, p), Ok(id))
  }

  function UpdateProduct(s: Store, id: int, p: Product): Effect<bool> {
    if !HasProduct(s, id) then Effect(s, Ok(false))
    else if p.amount < 0 then Effect(s, Err(CheckViolation))
    else if KeyTaken(s, KeyOf(p), id) then Effect(s, Err(UniqueViolation))
    else Effect(WithProduct(s, id, p), Ok(true))
  }

  function DeleteProduct(s: Store, id: int): Effect<bool> {
    Effect(WithoutProduct(s, id), Ok(HasProduct(s, id)))
  }

  ghost function InsertRecipe(s: Store, recipe: Recipe, pick: int -> int): Effect<()> {
    if !NoneNegative(recipe.ingredients) then Effect(s, Err(CheckViolation))
    else Effect(WithRecipe(s, RecipeIdFor(s, recipe.name, pick), recipe), Ok(()))
  }

  function CreateRecipe(s: Store, recipe: Recipe, pick: int -> int): Effect<int> {
    var id := pick(s.recipeSeq);
    if NameTaken(s, recipe.name, id) then Effect(s, Err(UniqueViolation))
    else if !NoneNegative(recipe.ingredients) then Effect(s, Err(CheckViolation))
    else Effect(WithRecipe(s, id, recipe), Ok(id))
  }

  function UpdateRecipe(s: Store, id: int, recipe: Recipe): Effect<bool> {
    if !HasRecipe(s, id) then Effect(s, Ok(false))
    else if NameTaken(s, recipe.name, id) then Effect(s, Err(UniqueViolation))
    else if !NoneNegative(recipe.ingredients) then Effect(s, Err(CheckViolation))
    else Effect(WithRecipe(s, id, recipe), Ok(true))
  }

  function DeleteRecipe(s: Store, id: int): Effect<bool> {
    Effect(WithoutRecipe(s, id), Ok(HasRecipe(s, id)))
  }

  /** Applying a single-element operation to each element in turn, until one throws. */
  ghost function EachProduct(s: Store, products: seq<Product>, pick: int -> int): Effect<()> {
    if products == [] then Effect(s, Ok(()))
    else
      var before := EachProduct(s, products[..|products| - 1], pick);
      if before.value.Err? then before else InsertProduct(before.db, products[|products| - 1], pick)
  }

  ghost function EachRecipe(s: Store, recipes: seq<Recipe>, pick: int -> int): Effect<()> {
    if recipes == [] then Effect(s, Ok(()))
    else
      var before := EachRecipe(s, recipes[..|recipes| - 1], pick);
      if before.value.Err? then before else InsertRecipe(before.db, recipes[|recipes| - 1], pick)
  }

  /** A transaction around the same: the whole list takes effect, or none of it. */
  ghost function InsertProducts(s: Store, products: seq<Product>, pick: int -> int): Effect<()> {
    var all := EachProduct(s, products, pick);
    if all.value.Err? then all.(db := s) else all
  }

  ghost function InsertRecipes(s: Store, recipes: seq<Recipe>, pick: int -> int): Effect<()> {
    var all := EachRecipe(s, recipes, pick);
    if all.value.Err? then all.(db := s) else all
  }

  /** A bound date column holds the text its own date prints as. */
  lemma BoundDateStored(date: Option<Day>)
    ensures StoredDate(BindDate(date))
  {
    DateColumnRoundTrip(date);
  }

  // ---- The statements meet their specification ----

  lemma InsertProductMeetsSpec(s: Store, p: Product, pick: int -> int)
    requires Consistent(s) && PicksFreshIds(pick)
    ensures match Sql.InsertProduct(s, p, pick)
            case Failed(cause) => InsertProduct(s, p, pick) == Effect(s, Err(cause))
            case Done(db, _) => InsertProduct(s, p, pick) == Effect(db, Ok(()))
  {
    hide StoredDate, BindDate;
    if p.amount >= 0 {
      var id := ProductIdFor(s, KeyOf(p), pick);
      var db := Sql.InsertProduct(s, p, pick).db;
      assert db.products == WithProduct(s, id, p).products;
    }
  }

  lemma CreateProductMeetsSpec(s: Store, p: Product, pick: int -> int)
    requires Consistent(s) && PicksFreshIds(pick)
    ensures match Sql.CreateProduct(s, p, pick)
            case Failed(cause) => CreateProduct(s, p, pick) == Effect(s, Err(cause))
            case Done(db, _) => CreateProduct(s, p, pick) == Effect(db, Ok(pick(s.productSeq)))
  {
    hide StoredDate, BindDate;
    var id := pick(s.productSeq);
    assert (set q | q in s.products && q.id != id) == s.products;
  }

  lemma SingleHit<T>(hit: set<T>, x: T)
    requires x in hit && forall y | y in hit :: y == x
    ensures |hit| == 1
  {
    assert hit == {x};
  }

  lemma ProductHits(s: Store, id: int)
    requires Consistent(s)
    ensures |set q | q in s.products && q.id == id| == if HasProduct(s, id) then 1 else 0
  {
    var hit := set q | q in s.products && q.id == id;
    if HasProduct(s, id) {
      var q :| q in s.products && q.id == id;
      SingleHit(hit, q);
    } else {
      assert hit == {};
    }
  }

  lemma RecipeHits(s: Store, id: int)
    requires Consistent(s)
    ensures |set r | r in s.recipes && r.id == id| == if HasRecipe(s, id) then 1 else 0
  {
    var hit := set r | r in s.recipes && r.id == id;
    if HasRecipe(s, id) {
      var r :| r in s.recipes && r.id == id;
      SingleHit(hit, r);
    } else {
      assert hit == {};
    }
  }

  lemma UpdateProductMeetsSpec(s: Store, p: Product, id: int)
    requires Consistent(s)
    ensures match Sql.UpdateProductById(s, p, id)
            case Failed(cause) => UpdateProduct(s, id, p) == Effect(s, Err(cause))
            case Done(db, changes) => UpdateProduct(s, id, p) == Effect(db, Ok(changes == 1))
  {
    hide StoredDate, BindDate;
    ProductHits(s, id);
    match Sql.UpdateProductById(s, p, id)
    case Failed(_) =>
    case Done(db, _) =>
      if HasProduct(s, id) {
        var hit := set q | q in s.products && q.id == id;
        assert hit != {};
        var q :| q in s.products && q.id == id;
        assert db.products == WithProduct(s, id, p).products;
      }
  }

  lemma DeleteProductMeetsSpec(s: Store, id: int)
    requires Consistent(s)
    ensures DeleteProduct(s, id)
            == Effect(Sql.DeleteProductById(s, id).db, Ok(Sql.DeleteProductById(s, id).changes == 1))
  {
    hide StoredDate, BindDate;
    ProductHits(s, id);
    assert Sql.DeleteProductById(s, id).db.products == WithoutProduct(s, id).products;
  }

  lemma DeleteRecipeMeetsSpec(s: Store, id: int)
    requires Consistent(s)
    ensures DeleteRecipe(s, id)
            == Effect(Sql.DeleteRecipeById(s, id).db, Ok(Sql.DeleteRecipeById(s, id).changes == 1))
  {
    hide StoredDate, BindDate;
    RecipeHits(s, id);
    var db := Sql.DeleteRecipeById(s, id).db;
    assert db.recipes == WithoutRecipe(s, id).recipes;
    if !HasRecipe(s, id) {
      assert forall i | i in s.ingredients :: i.recipeId != id;
    } else {
      var hit := set r | r in s.recipes && r.id == id;
      assert hit != {};
    }
    assert db.ingredients == WithoutRecipe(s, id).ingredients;
  }

  lemma InsertRecipeIfAbsentMeetsSpec(s: Store, recipe: Recipe, pick: int -> int)
    requires Consistent(s) && PicksFreshIds(pick)
    ensures var id := RecipeIdFor(s, recipe.name, pick);
            var outcome := Sql.InsertRecipeIfAbsent(s, recipe.name, pick);
            && outcome.Done?
            && Sql.SelectRecipeIdByName(outcome.db, recipe.name) == {id}
            && HasRecipe(outcome.db, id)
            && WithIngredients(outcome.db, id, recipe.ingredients) == WithRecipe(s, id, recipe)
  {
    hide StoredDate, BindDate;
    var id := RecipeIdFor(s, recipe.name, pick);
    var db := Sql.InsertRecipeIfAbsent(s, recipe.name, pick).db;
    assert RecipeRow(id, recipe.name) in db.recipes;
    assert db.recipes == (set r | r in s.recipes && r.id != id) + {RecipeRow(id, recipe.name)};
    assert db.recipeSeq == Max(s.recipeSeq, id);
  }

  lemma CreateRecipeMeetsSpec(s: Store, recipe: Recipe, pick: int -> int)
    requires Consistent(s) && PicksFreshIds(pick)
    ensures var id := pick(s.recipeSeq);
            match Sql.CreateRecipe(s, recipe.name, pick)
            case Failed(cause) => CreateRecipe(s, recipe, pick) == Effect(s, Err(cause))
            case Done(db, _) =>
              && !NameTaken(s, recipe.name, id) && HasRecipe(db, id) && db.recipeSeq == id
              && WithIngredients(db, id, recipe.ingredients) == WithRecipe(s, id, recipe)
  {
    hide StoredDate, BindDate;
    var id := pick(s.recipeSeq);
    match Sql.CreateRecipe(s, recipe.name, pick)
    case Failed(_) =>
    case Done(db, _) =>
      assert RecipeRow(id, recipe.name) in db.recipes;
      assert db.recipes == (set r | r in s.recipes && r.id != id) + {RecipeRow(id, recipe.name)};
  }

  lemma UpdateRecipeNameMeetsSpec(s: Store, recipe: Recipe, id: int)
    requires Consistent(s)
    ensures match Sql.UpdateRecipeNameById(s, recipe.name, id)
            case Failed(cause) => UpdateRecipe(s, id, recipe) == Effect(s, Err(cause))
            case Done(db, changes) =>
              && (changes == 1 <==> HasRecipe(s, id))
              && (changes == 1 ==> !NameTaken(s, recipe.name, id) && HasRecipe(db, id)
                                   && WithIngredients(db, id, recipe.ingredients) == WithRecipe(s, id, recipe))
  {
    hide StoredDate, BindDate;
    RecipeHits(s, id);
    if HasRecipe(s, id) {
      var row :| row in s.recipes && row.id == id;
      assert (set r | r in s.recipes && r.id == id) != {};
      match Sql.UpdateRecipeNameById(s, recipe.name, id)
      case Failed(_) =>
      case Done(db, _) =>
        assert row.(name := recipe.name) in db.recipes;
        assert db.recipes == (set r | r in s.recipes && r.id != id) + {RecipeRow(id, recipe.name)};
    }
  }

  lemma DeleteIngredientsMeetsSpec(s: Store, id: int)
    ensures Sql.DeleteRecipeIngredientsByRecipeId(s, id).db == WithIngredients(s, id, [])
  {
    assert RowsOf(id, Collapsed([])) == {};
    assert Sql.DeleteRecipeIngredientsByRecipeId(s, id).db.ingredients == WithIngredients(s, id, []).ingredients;
  }

  /** One more ingredient inserted is one more element of the list taken into account. */
  lemma InsertIngredientMeetsSpec(s: Store, id: int, list: seq<Product>, p: Product)
    requires HasRecipe(s, id)
    ensures Sql.InsertRecipeIngredient(WithIngredients(s, id, list), id, p.name, p.dimension, p.amount)
            == if p.amount < 0 then Sql.Failed(CheckViolation) else Sql.Done(WithIngredients(s, id, list + [p]), 1)
  {
    var t := WithIngredients(s, id, list);
    var u := Sql.InsertRecipeIngredient(t, id, p.name, p.dimension, p.amount);
    assert (list + [p])[..|list|] == list;
    assert Collapsed(list + [p]) == Collapsed(list)[KeyOf(p) := p.amount];
    if p.amount >= 0 {
      if KeyOf(p) in Collapsed(list) {
        assert IngredientRow(id, p.name, p.dimension, Collapsed(list)[KeyOf(p)]) in t.ingredients;
      }
      assert u.Done?;
      assert u.db.ingredients == WithIngredients(s, id, list + [p]).ingredients;
    }
  }
}
