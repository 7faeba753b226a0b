/**
 The prepared statements over the three tables. Every statement is a function from the database
 to an outcome, with the constraints of the schema written out where SQLite enforces them.
 */
module Sql {
  import opened Wrappers
  import opened Kitchen
  import opened Tables

  /** What executing a statement does: a new database and the number of rows changed, or an
      exception that leaves the database as it was. */
  datatype Outcome = Done(db: Store, changes: nat) | Failed(cause: Violation)

  // ---- INSERT, UPDATE and DELETE on products ----

  function InsertProduct(s: Store, p: Product, pick: int -> int): Outcome {
    if p.amount < 0 then Failed(CheckViolation)
    else if exists q | q in s.products :: RowKey(q) == KeyOf(p) then
      var row := BindProduct(0, p);
      Done(s.(products := set q | q in s.products ::
                            if RowKey(q) == KeyOf(p)
                            then q.(amount := row.amount, manufacture := row.manufacture,
                                    expiration := row.expiration)
                            else q), 1)
    else
      var id := pick(s.productSeq);
      Done(s.(products := s.products + {BindProduct(id, p)}, productSeq := id), 1)
  }

  function CreateProduct(s: Store, p: Product, pick: int -> int): Outcome {
    if p.amount < 0 then Failed(CheckViolation)
    else if exists q | q in s.products :: RowKey(q) == KeyOf(p) then Failed(UniqueViolation)
    else
      var id := pick(s.productSeq);
      Done(s.(products := s.products + {BindProduct(id, p)}, productSeq := id), 1)
  }

  function UpdateProductById(s: Store, p: Product, id: int): Outcome {
    var hit := set q | q in s.products && q.id == id;
    if hit == {} then Done(s, 0)
    else if p.amount < 0 then Failed(CheckViolation)
    else if exists q | q in s.products :: q.id != id && RowKey(q) == KeyOf(p) then Failed(UniqueViolation)
    else Done(s.(products := set q | q in s.products ::
                               if q.id == id then BindProduct(id, p) else q), |hit|)
  }

  function DeleteProductById(s: Store, id: int): Outcome {
    var hit := set q | q in s.products && q.id == id;
    Done(s.(products := s.products - hit), |hit|)
  }

  // ---- INSERT, UPDATE and DELETE on recipes and their ingredients ----

  function InsertRecipeIfAbsent(s: Store, name: string, pick: int -> int): Outcome {
    if exists r | r in s.recipes :: r.name == name then Done(s, 0)
    else
      var id := pick(s.recipeSeq);
      Done(s.(recipes := s.recipes + {RecipeRow(id, name)}, recipeSeq := id), 1)
  }

  function CreateRecipe(s: Store, name: string, pick: int -> int): Outcome {
    if exists r | r in s.recipes :: r.name == name then Failed(UniqueViolation)
    else
      var id := pick(s.recipeSeq);
      Done(s.(recipes := s.recipes + {RecipeRow(id, name)}, recipeSeq := id), 1)
  }

  function UpdateRecipeNameById(s: Store, name: string, id: int): Outcome {
    var hit := set r | r in s.recipes && r.id == id;
    if hit == {} then Done(s, 0)
    else if exists r | r in s.recipes :: r.id != id && r.name == name then Failed(UniqueViolation)
    else Done(s.(recipes := set r | r in s.recipes :: if r.id == id then r.(name := name) else r), |hit|)
  }

  /** Deleting a recipe takes its ingredient rows with it: ON DELETE CASCADE. */
  function DeleteRecipeById(s: Store, id: int): Outcome {
    var hit := set r | r in s.recipes && r.id == id;
    var orphans := set i | i in s.ingredients && hit != {} && i.recipeId == id;
    Done(s.(recipes := s.recipes - hit, ingredients := s.ingredients - orphans), |hit|)
  }

  function DeleteRecipeIngredientsByRecipeId(s: Store, id: int): Outcome {
    var hit := set i | i in s.ingredients && i.recipeId == id;
    Done(s.(ingredients := s.ingredients - hit), |hit|)
  }

  function InsertRecipeIngredient(s: Store, id: int, name: string, dimension: Dimension, amount: Amount): Outcome {
    if amount < 0 then Failed(CheckViolation)
    else if exists i | i in s.ingredients :: i.recipeId == id && IngredientKey(i) == Key(name, dimension) then
      Done(s.(ingredients := set i | i in s.ingredients ::
                               if i.recipeId == id && IngredientKey(i) == Key(name, dimension)
                               then i.(required := amount) else i), 1)
    else if forall r | r in s.recipes :: r.id != id then Failed(ForeignKeyViolation)
    else Done(s.(ingredients := s.ingredients + {IngredientRow(id, name, dimension, amount)}), 1)
  }

  // ---- SELECT ----

  function LeftJoin<L, R>(left: set<L>, right: set<R>, on: (L, R) -> bool): set<(L, Option<R>)> {
    (set l, r | l in left && r in right && on(l, r) :: (l, Some(r)))
    + (set l | l in left && (forall r | r in right :: !on(l, r)) :: (l, None))
  }

  function SelectProductById(s: Store, id: int): set<ProductRow> {
    set q | q in s.products && q.id == id
  }

  function SelectRecipeIdByName(s: Store, name: string): set<int> {
    set r | r in s.recipes && r.name == name :: r.id
  }

  function SelectRecipeIngredientsByRecipeId(s: Store, id: int): set<IngredientRow> {
    set i | i in s.ingredients && i.recipeId == id
  }

  function SelectAllRecipesWithIngredients(s: Store): set<JoinRow> {
    LeftJoin(s.recipes, s.ingredients, (r: RecipeRow, i: IngredientRow) => i.recipeId == r.id)
  }

  function SelectRecipeByIdWithIngredients(s: Store, id: int): set<JoinRow> {
    set row | row in SelectAllRecipesWithIngredients(s) && row.0.id == id
  }

  /** The inner query of NOT EXISTS: an ingredient of the recipe that stock does not cover. */
  predicate Shortfall(s: Store, recipeId: int) {
    exists row | row in LeftJoin(s.ingredients, s.products,
                                 (i: IngredientRow, p: ProductRow) =>
                                   p.name == i.productName && p.dimension == i.dimension) ::
      row.0.recipeId == recipeId && (row.1.None? || row.1.value.amount < row.0.required)
  }

  function SelectCookableRecipesWithIngredients(s: Store): set<JoinRow> {
    set row | row in SelectAllRecipesWithIngredients(s) && !Shortfall(s, row.0.id)
  }
}
