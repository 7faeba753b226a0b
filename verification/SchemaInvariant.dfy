/** The schema invariant over every sequence of operations, and ids that are never issued twice. */
module SchemaInvariant {
  import opened Wrappers
  import opened Kitchen
  import opened Tables
  import opened StoreSpec

  datatype Command =
    | InsertingProduct(product: Product)
    | InsertingProducts(products: seq<Product>)
    | CreatingProduct(product: Product)
    | UpdatingProduct(id: int, product: Product)
    | DeletingProduct(id: int)
    | InsertingRecipe(recipe: Recipe)
    | InsertingRecipes(recipes: seq<Recipe>)
    | CreatingRecipe(recipe: Recipe)
    | UpdatingRecipe(id: int, recipe: Recipe)
    | DeletingRecipe(id: int)

  /** A command, and the way AUTOINCREMENT happened to choose ids while it ran. */
  datatype Step = Step(command: Command, pick: int -> int)

  ghost predicate Legal(steps: seq<Step>) { forall i | 0 <= i < |steps| :: PicksFreshIds(steps[i].pick) }

  ghost function Perform(s: Store, step: Step): Store {
    match step.command
    case InsertingProduct(p) => InsertProduct(s, p, step.pick).db
    case InsertingProducts(ps) => InsertProducts(s, ps, step.pick).db
    case CreatingProduct(p) => CreateProduct(s, p, step.pick).db
    case UpdatingProduct(id, p) => UpdateProduct(s, id, p).db
    case DeletingProduct(id) => DeleteProduct(s, id).db
    case InsertingRecipe(r) => InsertRecipe(s, r, step.pick).db
    case InsertingRecipes(rs) => InsertRecipes(s, rs, step.pick).db
    case CreatingRecipe(r) => CreateRecipe(s, r, step.pick).db
    case UpdatingRecipe(id, r) => UpdateRecipe(s, id, r).db
    case DeletingRecipe(id) => DeleteRecipe(s, id).db
  }

  ghost function After(s: Store, steps: seq<Step>): Store {
    if steps == [] then s else Perform(After(s, steps[..|steps| - 1]), steps[|steps| - 1])
  }

  /** What every operation keeps: the schema, and that ids appear only above the old maximum. */
  ghost predicate Sound(s: Store, t: Store) {
    && Consistent(t)
    && s.productSeq <= t.productSeq && s.recipeSeq <= t.recipeSeq
    && (forall q | q in t.products :: HasProduct(s, q.id) || s.productSeq < q.id)
    && (forall r | r in t.recipes :: HasRecipe(s, r.id) || s.recipeSeq < r.id)
  }

  lemma SoundTransitive(s: Store, t: Store, u: Store)
    requires Sound(s, t) && Sound(t, u)
    ensures Sound(s, u)
  {
    hide StoredDate, BindDate;
    forall q | q in u.products ensures HasProduct(s, q.id) || s.productSeq < q.id {
      if HasProduct(t, q.id) { var p :| p in t.products && p.id == q.id; }
    }
    forall r | r in u.recipes ensures HasRecipe(s, r.id) || s.recipeSeq < r.id {
      if HasRecipe(t, r.id) { var p :| p in t.recipes && p.id == r.id; }
    }
  }

  lemma SoundIsConsistent(s: Store, t: Store)
    requires Sound(s, t)
    ensures Consistent(t)
  {
  }

  lemma SoundReflexive(s: Store)
    requires Consistent(s)
    ensures Sound(s, s)
  {
    hide StoredDate, BindDate;
  }

  lemma WithProductConsistent(s: Store, id: int, p: Product)
    requires Consistent(s) && p.amount >= 0 && !KeyTaken(s, KeyOf(p), id)
    requires HasProduct(s, id) || s.productSeq < id
    ensures ProductsConsistent(WithProduct(s, id, p))
  {
    hide StoredDate, BindDate;
    BoundDateStored(p.dates.manufacture);
    BoundDateStored(p.dates.expiration);
    var t, row := WithProduct(s, id, p), BindProduct(id, p);
    forall q | q in t.products ensures 0 < q.id <= t.productSeq && q.amount >= 0 {
      if q != row { assert q in s.products; }
      else if HasProduct(s, id) { var was :| was in s.products && was.id == id; }
    }
  }

  lemma WithProductSound(s: Store, id: int, p: Product)
    requires Consistent(s) && p.amount >= 0 && !KeyTaken(s, KeyOf(p), id)
    requires HasProduct(s, id) || s.productSeq < id
    ensures Sound(s, WithProduct(s, id, p))
  {
    hide StoredDate, BindDate;
    WithProductConsistent(s, id, p);
    var t := WithProduct(s, id, p);
    hide ProductsConsistent;
    assert forall i | i in t.ingredients :: HasRecipe(t, i.recipeId);
    forall q | q in t.products ensures HasProduct(s, q.id) || s.productSeq < q.id {
      if q.id != id { assert q in s.products; }
    }
  }

  lemma WithoutProductSound(s: Store, id: int)
    requires Consistent(s)
    ensures Sound(s, WithoutProduct(s, id))
  {
    hide StoredDate, BindDate;
    assert forall i | i in s.ingredients :: HasRecipe(WithoutProduct(s, id), i.recipeId);
  }

  lemma {:induction false} CollapsedNonNegative(list: seq<Product>)
    requires NoneNegative(list)
    ensures forall k | k in Collapsed(list) :: Collapsed(list)[k] >= 0
  {
    if list != [] {
      CollapsedNonNegative(list[..|list| - 1]);
      assert list[|list| - 1] in list;
    }
  }

  lemma WithRecipeConsistent(s: Store, id: int, recipe: Recipe)
    requires Consistent(s) && !NameTaken(s, recipe.name, id)
    requires HasRecipe(s, id) || s.recipeSeq < id
    ensures RecipesConsistent(WithRecipe(s, id, recipe))
  {
    hide StoredDate, BindDate;
    if HasRecipe(s, id) { var r :| r in s.recipes && r.id == id; }
  }

  lemma WithRecipeIngredients(s: Store, id: int, recipe: Recipe)
    requires Consistent(s) && NoneNegative(recipe.ingredients)
    ensures IngredientsConsistent(WithRecipe(s, id, recipe))
  {
    hide StoredDate, BindDate;
    var t := WithRecipe(s, id, recipe);
    CollapsedNonNegative(recipe.ingredients);
    assert RecipeRow(id, recipe.name) in t.recipes;
    forall i | i in t.ingredients ensures i.required >= 0 && HasRecipe(t, i.recipeId) {
      if i.recipeId != id {
        assert i in s.ingredients;
        var r :| r in s.recipes && r.id == i.recipeId;
        assert r in t.recipes;
      }
    }
  }

  lemma WithRecipeSound(s: Store, id: int, recipe: Recipe)
    requires Consistent(s) && NoneNegative(recipe.ingredients) && !NameTaken(s, recipe.name, id)
    requires HasRecipe(s, id) || s.recipeSeq < id
    ensures Sound(s, WithRecipe(s, id, recipe))
  {
    hide StoredDate, BindDate;
    WithRecipeConsistent(s, id, recipe);
    WithRecipeIngredients(s, id, recipe);
    hide RecipesConsistent, IngredientsConsistent;
    forall r | r in WithRecipe(s, id, recipe).recipes ensures HasRecipe(s, r.id) || s.recipeSeq < r.id {
      if r.id != id { assert r in s.recipes; }
    }
  }

  lemma WithoutRecipeSound(s: Store, id: int)
    requires Consistent(s)
    ensures Sound(s, WithoutRecipe(s, id))
  {
    hide StoredDate, BindDate;
    var t := WithoutRecipe(s, id);
    forall i | i in t.ingredients ensures HasRecipe(t, i.recipeId) {
      var r :| r in s.recipes && r.id == i.recipeId;
      assert r in t.recipes;
    }
  }

  lemma InsertProductSound(s: Store, p: Product, pick: int -> int)
    requires Consistent(s) && PicksFreshIds(pick)
    ensures Sound(s, InsertProduct(s, p, pick).db)
  {
    hide StoredDate, BindDate;
    if p.amount >= 0 { WithProductSound(s, ProductIdFor(s, KeyOf(p), pick), p); }
  }

  lemma InsertRecipeSound(s: Store, recipe: Recipe, pick: int -> int)
    requires Consistent(s) && PicksFreshIds(pick)
    ensures Sound(s, InsertRecipe(s, recipe, pick).db)
  {
    hide StoredDate, BindDate;
    if NoneNegative(recipe.ingredients) { WithRecipeSound(s, RecipeIdFor(s, recipe.name, pick), recipe); }
  }

  lemma {:induction false} EachProductSound(s: Store, products: seq<Product>, pick: int -> int)
    requires Consistent(s) && PicksFreshIds(pick)
    ensures Sound(s, EachProduct(s, products, pick).db)
  {
    hide StoredDate, BindDate;
    if products != [] {
      EachProductSound(s, products[..|products| - 1], pick);
      var before := EachProduct(s, products[..|products| - 1], pick);
      InsertProductSound(before.db, products[|products| - 1], pick);
      SoundTransitive(s, before.db, InsertProduct(before.db, products[|products| - 1], pick).db);
    }
  }

  lemma {:induction false} EachRecipeSound(s: Store, recipes: seq<Recipe>, pick: int -> int)
    requires Consistent(s) && PicksFreshIds(pick)
    ensures Sound(s, EachRecipe(s, recipes, pick).db)
  {
    hide StoredDate, BindDate;
    if recipes != [] {
      EachRecipeSound(s, recipes[..|recipes| - 1], pick);
      var before := EachRecipe(s, recipes[..|recipes| - 1], pick);
      InsertRecipeSound(before.db, recipes[|recipes| - 1], pick);
      SoundTransitive(s, before.db, InsertRecipe(before.db, recipes[|recipes| - 1], pick).db);
    }
  }

  lemma InsertProductsSound(s: Store, products: seq<Product>, pick: int -> int)
    requires Consistent(s) && PicksFreshIds(pick)
    ensures Sound(s, InsertProducts(s, products, pick).db)
  {
    hide StoredDate, BindDate, Sound;
    SoundReflexive(s);
    EachProductSound(s, products, pick);
  }

  lemma InsertRecipesSound(s: Store, recipes: seq<Recipe>, pick: int -> int)
    requires Consistent(s) && PicksFreshIds(pick)
    ensures Sound(s, InsertRecipes(s, recipes, pick).db)
  {
    hide StoredDate, BindDate, Sound;
    SoundReflexive(s);
    EachRecipeSound(s, recipes, pick);
  }

  lemma CreateProductSound(s: Store, p: Product, pick: int -> int)
    requires Consistent(s) && PicksFreshIds(pick)
    ensures Sound(s, CreateProduct(s, p, pick).db)
  {
    hide StoredDate, BindDate, Sound;
    SoundReflexive(s);
    if CreateProduct(s, p, pick).value.Ok? { WithProductSound(s, pick(s.productSeq), p); }
  }

  lemma UpdateProductSound(s: Store, id: int, p: Product)
    requires Consistent(s)
    ensures Sound(s, UpdateProduct(s, id, p).db)
  {
    hide StoredDate, BindDate, Sound;
    SoundReflexive(s);
    if UpdateProduct(s, id, p).value == Ok(true) { WithProductSound(s, id, p); }
  }

  lemma CreateRecipeSound(s: Store, recipe: Recipe, pick: int -> int)
    requires Consistent(s) && PicksFreshIds(pick)
    ensures Sound(s, CreateRecipe(s, recipe, pick).db)
  {
    hide StoredDate, BindDate, Sound;
    SoundReflexive(s);
    if CreateRecipe(s, recipe, pick).value.Ok? { WithRecipeSound(s, pick(s.recipeSeq), recipe); }
  }

  lemma UpdateRecipeSound(s: Store, id: int, recipe: Recipe)
    requires Consistent(s)
    ensures Sound(s, UpdateRecipe(s, id, recipe).db)
  {
    hide StoredDate, BindDate, Sound;
    SoundReflexive(s);
    if UpdateRecipe(s, id, recipe).value == Ok(true) { WithRecipeSound(s, id, recipe); }
  }

  lemma PerformSound(s: Store, step: Step)
    requires Consistent(s) && PicksFreshIds(step.pick)
    ensures Sound(s, Perform(s, step))
  {
    hide Sound, Consistent, PicksFreshIds;
    hide InsertProduct, InsertProducts, CreateProduct, UpdateProduct;
    hide InsertRecipe, InsertRecipes, CreateRecipe, UpdateRecipe, WithoutProduct, WithoutRecipe;
    match step.command
    case InsertingProduct(p) => InsertProductSound(s, p, step.pick);
    case InsertingProducts(ps) => InsertProductsSound(s, ps, step.pick);
    case CreatingProduct(p) => CreateProductSound(s, p, step.pick);
    case UpdatingProduct(id, p) => UpdateProductSound(s, id, p);
    case DeletingProduct(id) => WithoutProductSound(s, id);
    case InsertingRecipe(r) => InsertRecipeSound(s, r, step.pick);
    case InsertingRecipes(rs) => InsertRecipesSound(s, rs, step.pick);
    case CreatingRecipe(r) => CreateRecipeSound(s, r, step.pick);
    case UpdatingRecipe(id, r) => UpdateRecipeSound(s, id, r);
    case DeletingRecipe(id) => WithoutRecipeSound(s, id);
  }

  /** Whatever operations run, in whatever order, the schema holds afterwards. */
  lemma {:induction false} EveryRunConsistent(s: Store, steps: seq<Step>)
    requires Consistent(s) && Legal(steps)
    ensures Sound(s, After(s, steps))
  {
    hide StoredDate, BindDate;
    if steps != [] {
      EveryRunConsistent(s, steps[..|steps| - 1]);
      PerformSound(After(s, steps[..|steps| - 1]), steps[|steps| - 1]);
      SoundTransitive(s, After(s, steps[..|steps| - 1]), After(s, steps));
    }
  }

  lemma {:induction false} AfterSplit(s: Store, steps: seq<Step>, k: nat)
    requires k <= |steps|
    ensures After(s, steps) == After(After(s, steps[..k]), steps[k..])
  {
    if k < |steps| {
      AfterSplit(s, steps[..|steps| - 1], k);
      assert steps[..|steps| - 1][..k] == steps[..k];
      assert steps[k..][..|steps[k..]| - 1] == steps[..|steps| - 1][k..];
    } else {
      assert steps[..k] == steps;
    }
  }

  /** An id once committed and then gone is gone for good: no later product or recipe gets it. */
  lemma NoIdReissued(s: Store, steps: seq<Step>, i: nat, j: nat, id: int)
    requires Consistent(s) && Legal(steps) && i <= j <= |steps|
    ensures HasProduct(After(s, steps[..i]), id) && !HasProduct(After(s, steps[..j]), id)
            ==> !HasProduct(After(s, steps), id)
    ensures HasRecipe(After(s, steps[..i]), id) && !HasRecipe(After(s, steps[..j]), id)
            ==> !HasRecipe(After(s, steps), id)
  {
    hide StoredDate, BindDate;
    var early, middle := After(s, steps[..i]), After(s, steps[..j]);
    EveryRunConsistent(s, steps[..i]);
    AfterSplit(s, steps[..j], i);
    assert steps[..j][..i] == steps[..i];
    EveryRunConsistent(early, steps[..j][i..]);
    AfterSplit(s, steps, j);
    EveryRunConsistent(middle, steps[j..]);
  }
}
