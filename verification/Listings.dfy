/**
 Recipe listings. The join rows that come back in ORDER BY order are folded into nested recipes;
 this module says what that fold returns, in terms of the tables alone.
 */
module Listings {
  import opened Wrappers
  import opened Kitchen
  import opened Ordering
  import opened Tables
  import opened StoreSpec
  import Sql

  // ---- What a recipe in the store reads as ----

  function ReadIngredient(i: IngredientRow): Product {
    Product(i.productName, i.required, i.dimension, NO_DATES, None)
  }

  function ReadIngredients(rows: seq<IngredientRow>): seq<Product> {
    seq(|rows|, k requires 0 <= k < |rows| => ReadIngredient(rows[k]))
  }

  ghost function SortedIngredients(s: Store, id: int): (rows: seq<IngredientRow>)
    ensures Listing(rows, Sql.SelectRecipeIngredientsByRecipeId(s, id), ByKey)
  {
    IngredientsPreordered(Sql.SelectRecipeIngredientsByRecipeId(s, id));
    Ordered(Sql.SelectRecipeIngredientsByRecipeId(s, id), ByKey)
  }

  ghost function SortedRecipes(recipes: set<RecipeRow>): (rows: seq<RecipeRow>)
    ensures Listing(rows, recipes, ByName)
  {
    NamesPreordered(recipes);
    Ordered(recipes, ByName)
  }

  ghost function ReadRecipe(s: Store, r: RecipeRow): Recipe {
    Recipe(r.name, ReadIngredients(SortedIngredients(s, r.id)), Some(r.id))
  }

  ghost function ReadRecipes(s: Store, rows: seq<RecipeRow>): seq<Recipe> {
    seq(|rows|, k requires 0 <= k < |rows| => ReadRecipe(s, rows[k]))
  }

  /** Every recipe once, by name, each with its own ingredients by name and dimension. */
  ghost function AllRecipes(s: Store): seq<Recipe> { ReadRecipes(s, SortedRecipes(s.recipes)) }

  ghost function RecipeOf(s: Store, id: int): Option<Recipe> {
    if HasRecipe(s, id) then
      var r :| r in s.recipes && r.id == id;
      Some(ReadRecipe(s, r))
    else None
  }

  // ---- Grouping join rows ----

  function AddIngredient(recipe: Recipe, ingredient: Option<IngredientRow>): Recipe {
    match ingredient
    case None => recipe
    case Some(i) => recipe.(ingredients := recipe.ingredients + [ReadIngredient(i)])
  }

  /** The recipes after one more join row: it extends the last recipe, or starts a new one. */
  function Extend(recipes: seq<Recipe>, row: JoinRow, same: bool): (extended: seq<Recipe>)
    requires same ==> recipes != []
    ensures extended != []
  {
    if same then
      recipes[..|recipes| - 1] + [AddIngredient(recipes[|recipes| - 1], row.1)]
    else
      recipes + [AddIngredient(Recipe(row.0.name, [], Some(row.0.id)), row.1)]
  }

  predicate Continues(rows: seq<JoinRow>, row: JoinRow) {
    rows != [] && rows[|rows| - 1].0.id == row.0.id
  }

  /** Rows with the same recipe id next to each other make one recipe. */
  function Group(rows: seq<JoinRow>): (recipes: seq<Recipe>)
    ensures rows != [] ==> recipes != []
  {
    if rows == [] then []
    else
      var n := |rows| - 1;
      Extend(Group(rows[..n]), rows[n], Continues(rows[..n], rows[n]))
  }

  /** The join rows of one recipe, in order. */
  ghost function Block(s: Store, r: RecipeRow): (rows: seq<JoinRow>)
    ensures rows != [] && forall row | row in rows :: row.0 == r
  {
    var sorted := SortedIngredients(s, r.id);
    if sorted == [] then [(r, None)] else Tagged(r, sorted)
  }

  function Tagged(r: RecipeRow, sorted: seq<IngredientRow>): seq<JoinRow> {
    seq(|sorted|, k requires 0 <= k < |sorted| => (r, Some(sorted[k])))
  }

  ghost function Blocks(s: Store, recipes: seq<RecipeRow>): seq<JoinRow> {
    if recipes == [] then []
    else Blocks(s, recipes[..|recipes| - 1]) + Block(s, recipes[|recipes| - 1])
  }

  lemma GroupEmpty()
    ensures Group([]) == []
  {
  }

  lemma GroupSnoc(rows: seq<JoinRow>, row: JoinRow)
    ensures Group(rows + [row]) == Extend(Group(rows), row, Continues(rows, row))
  {
    assert (rows + [row])[..|rows|] == rows;
  }

  lemma ReadSnoc(rows: seq<IngredientRow>, i: IngredientRow)
    ensures ReadIngredients(rows + [i]) == ReadIngredients(rows) + [ReadIngredient(i)]
  {
  }

  /** Rows of one recipe after rows of others: the first starts a recipe, the rest extend it. */
  lemma {:induction false} GroupBlockPrefix(s: Store, before: seq<JoinRow>, r: RecipeRow, sorted: seq<IngredientRow>)
    requires before == [] || before[|before| - 1].0.id != r.id
    requires sorted != []
    ensures Group(before + Tagged(r, sorted))
            == Group(before) + [Recipe(r.name, ReadIngredients(sorted), Some(r.id))]
    decreases |sorted|
  {
    hide Group;
    var n := |sorted| - 1;
    var rows := before + Tagged(r, sorted[..n]);
    var last: JoinRow := (r, Some(sorted[n]));
    assert before + Tagged(r, sorted) == rows + [last];
    GroupSnoc(rows, last);
    assert sorted == sorted[..n] + [sorted[n]];
    ReadSnoc(sorted[..n], sorted[n]);
    if n == 0 {
      assert rows == before;
    } else {
      GroupBlockPrefix(s, before, r, sorted[..n]);
      assert rows[|rows| - 1].0 == r;
    }
  }

  lemma {:induction false} GroupBlock(s: Store, before: seq<JoinRow>, r: RecipeRow)
    requires before == [] || before[|before| - 1].0.id != r.id
    ensures Group(before + Block(s, r)) == Group(before) + [ReadRecipe(s, r)]
  {
    var sorted := SortedIngredients(s, r.id);
    if sorted == [] {
      var row: JoinRow := (r, None);
      assert Block(s, r) == [row];
      GroupSnoc(before, row);
      assert ReadIngredients(sorted) == [];
    } else {
      GroupBlockPrefix(s, before, r, sorted);
    }
  }

  lemma BlocksEnd(s: Store, recipes: seq<RecipeRow>)
    requires recipes != []
    ensures Blocks(s, recipes) != []
    ensures Blocks(s, recipes)[|Blocks(s, recipes)| - 1].0 == recipes[|recipes| - 1]
  {
    var block := Block(s, recipes[|recipes| - 1]);
    assert block[|block| - 1] in block;
  }

  lemma ReadRecipesSnoc(s: Store, recipes: seq<RecipeRow>, r: RecipeRow)
    ensures ReadRecipes(s, recipes + [r]) == ReadRecipes(s, recipes) + [ReadRecipe(s, r)]
  {
  }

  lemma BlocksSnoc(s: Store, recipes: seq<RecipeRow>, r: RecipeRow)
    ensures Blocks(s, recipes + [r]) == Blocks(s, recipes) + Block(s, r)
  {
    assert (recipes + [r])[..|recipes|] == recipes;
  }

  lemma GroupOneMore(s: Store, recipes: seq<RecipeRow>, r: RecipeRow)
    requires forall t | t in recipes :: t.id != r.id
    requires Group(Blocks(s, recipes)) == ReadRecipes(s, recipes)
    ensures Group(Blocks(s, recipes + [r])) == ReadRecipes(s, recipes + [r])
  {
    hide Group, Block;
    if recipes != [] { BlocksEnd(s, recipes); }
    BlocksSnoc(s, recipes, r);
    GroupBlock(s, Blocks(s, recipes), r);
    ReadRecipesSnoc(s, recipes, r);
  }

  lemma GroupNothing(s: Store)
    ensures Group(Blocks(s, [])) == ReadRecipes(s, [])
  {
  }

  lemma {:induction false} GroupBlocks(s: Store, recipes: seq<RecipeRow>)
    requires forall i, j | 0 <= i < j < |recipes| :: recipes[i].id != recipes[j].id
    ensures Group(Blocks(s, recipes)) == ReadRecipes(s, recipes)
  {
    hide *;
    if recipes == [] {
      GroupNothing(s);
    } else {
      var front, last := recipes[..|recipes| - 1], recipes[|recipes| - 1];
      GroupBlocks(s, front);
      GroupOneMore(s, front, last);
      assert recipes == front + [last];
    }
  }

  // ---- The ordered join is the blocks of the recipes, one after another ----

  ghost function JoinOf(s: Store, keep: set<RecipeRow>): set<JoinRow> {
    set row | row in Sql.SelectAllRecipesWithIngredients(s) && row.0 in keep
  }

  lemma BlockListing(s: Store, r: RecipeRow)
    requires r in s.recipes
    ensures Listing(Block(s, r), JoinOf(s, {r}), ByNameThenIngredient)
  {
    var sorted, block := SortedIngredients(s, r.id), Block(s, r);
    forall row | row in JoinOf(s, {r}) ensures row in block {
      match row.1
      case None =>
        assert Sql.SelectRecipeIngredientsByRecipeId(s, r.id) == {};
        ListingLength(sorted, Sql.SelectRecipeIngredientsByRecipeId(s, r.id), ByKey);
      case Some(i) =>
        assert i in Sql.SelectRecipeIngredientsByRecipeId(s, r.id);
        var k :| 0 <= k < |sorted| && sorted[k] == i;
        assert block[k] == row;
    }
    forall k | 0 <= k < |block| ensures block[k] in JoinOf(s, {r}) {
      if sorted == [] {
        assert Sql.SelectRecipeIngredientsByRecipeId(s, r.id) == {};
        assert forall i | i in s.ingredients :: i.recipeId != r.id by {
          forall i | i in s.ingredients
            ensures i.recipeId == r.id ==> i in Sql.SelectRecipeIngredientsByRecipeId(s, r.id)
          {
          }
        }
      } else {
        assert sorted[k] in Sql.SelectRecipeIngredientsByRecipeId(s, r.id);
      }
    }
  }

  lemma {:induction false} BlocksListing(s: Store, recipes: seq<RecipeRow>, keep: set<RecipeRow>)
    requires Consistent(s) && keep <= s.recipes && Listing(recipes, keep, ByName)
    ensures Listing(Blocks(s, recipes), JoinOf(s, keep), ByNameThenIngredient)
    decreases |recipes|
  {
    if recipes == [] {
      assert keep == {};
    } else {
      var last := recipes[|recipes| - 1];
      ListingInit(recipes, keep, ByName);
      BlocksListing(s, recipes[..|recipes| - 1], keep - {last});
      BlockListing(s, last);
      forall x, y | x in JoinOf(s, keep - {last}) && y in JoinOf(s, {last})
        ensures x != y && ByNameThenIngredient(x, y)
      {
        var i :| 0 <= i < |recipes| && recipes[i] == x.0;
        assert ByName(x.0, last) && x.0.name != last.name;
      }
      ListingConcat(Blocks(s, recipes[..|recipes| - 1]), Block(s, last),
                    JoinOf(s, keep - {last}), JoinOf(s, {last}), ByNameThenIngredient);
      assert JoinOf(s, keep) == JoinOf(s, keep - {last}) + JoinOf(s, {last});
    }
  }

  /** No two join rows tie: recipe names are unique, and so are ingredient keys within a recipe. */
  lemma JoinAntisymmetric(s: Store, keep: set<RecipeRow>)
    requires Consistent(s)
    ensures Antisymmetric(JoinOf(s, keep), ByNameThenIngredient)
  {
    forall x, y | x in JoinOf(s, keep) && y in JoinOf(s, keep)
                  && ByNameThenIngredient(x, y) && ByNameThenIngredient(y, x)
      ensures x == y
    {
      TextTotal(x.0.name, y.0.name);
      assert x.0 == y.0;
      if x.1.Some? && y.1.Some? {
        KeyLeIsOrder(IngredientKey(x.1.value), IngredientKey(y.1.value), IngredientKey(x.1.value));
      }
    }
  }

  /** Whatever rows the database returns for the kept recipes, grouping them reads those recipes. */
  lemma SelectionReads(s: Store, keep: set<RecipeRow>, rows: seq<JoinRow>)
    requires Consistent(s) && keep <= s.recipes
    requires Listing(rows, JoinOf(s, keep), ByNameThenIngredient)
    ensures Group(rows) == ReadRecipes(s, SortedRecipes(keep))
  {
    var recipes := SortedRecipes(keep);
    BlocksListing(s, recipes, keep);
    JoinAntisymmetric(s, keep);
    JoinPreordered(JoinOf(s, keep));
    ListingUnique(rows, Blocks(s, recipes), JoinOf(s, keep), ByNameThenIngredient);
    forall i, j | 0 <= i < j < |recipes| ensures recipes[i].id != recipes[j].id {
      assert recipes[i] in s.recipes && recipes[j] in s.recipes;
    }
    GroupBlocks(s, recipes);
  }

  lemma ListingAllReads(s: Store, rows: seq<JoinRow>)
    requires Consistent(s)
    requires Listing(rows, Sql.SelectAllRecipesWithIngredients(s), ByNameThenIngredient)
    ensures Group(rows) == AllRecipes(s)
  {
    assert JoinOf(s, s.recipes) == Sql.SelectAllRecipesWithIngredients(s);
    SelectionReads(s, s.recipes, rows);
  }

  /** The recipe is what some stored row reads as. */
  ghost predicate IsStored(s: Store, recipe: Recipe) {
    exists r | r in s.recipes :: recipe == ReadRecipe(s, r)
  }

  /** The listing names each stored recipe exactly once, in strictly increasing name order. */
  lemma AllRecipesShape(s: Store)
    requires Consistent(s)
    ensures forall i, j | 0 <= i < j < |AllRecipes(s)| ::
              TextLe(AllRecipes(s)[i].name, AllRecipes(s)[j].name)
              && AllRecipes(s)[i].name != AllRecipes(s)[j].name
    ensures forall r | r in s.recipes :: ReadRecipe(s, r) in AllRecipes(s)
    ensures forall k | 0 <= k < |AllRecipes(s)| :: IsStored(s, AllRecipes(s)[k])
    ensures |AllRecipes(s)| == |s.recipes|
  {
    var rows := SortedRecipes(s.recipes);
    forall i, j | 0 <= i < j < |rows| ensures ByName(rows[i], rows[j]) && rows[i].name != rows[j].name {
      assert rows[i] in s.recipes && rows[j] in s.recipes;
    }
    forall r | r in s.recipes ensures ReadRecipe(s, r) in AllRecipes(s) {
      var k :| 0 <= k < |rows| && rows[k] == r;
      assert AllRecipes(s)[k] == ReadRecipe(s, r);
    }
    forall k | 0 <= k < |AllRecipes(s)| ensures IsStored(s, AllRecipes(s)[k]) {
      assert rows[k] in s.recipes && AllRecipes(s)[k] == ReadRecipe(s, rows[k]);
    }
    ListingLength(rows, s.recipes, ByName);
  }

  lemma ListingByIdReads(s: Store, id: int, rows: seq<JoinRow>)
    requires Consistent(s)
    requires Listing(rows, Sql.SelectRecipeByIdWithIngredients(s, id), ByIngredient)
    ensures Group(rows) == match RecipeOf(s, id) case None => [] case Some(recipe) => [recipe]
  {
    var keep := set r | r in s.recipes && r.id == id;
    assert JoinOf(s, keep) == Sql.SelectRecipeByIdWithIngredients(s, id);
    forall i, j | 0 <= i < j < |rows| ensures ByNameThenIngredient(rows[i], rows[j]) {
      assert rows[i] in JoinOf(s, keep) && rows[j] in JoinOf(s, keep);
    }
    SelectionReads(s, keep, rows);
    var recipes := SortedRecipes(keep);
    if HasRecipe(s, id) {
      var r :| r in s.recipes && r.id == id && RecipeOf(s, id) == Some(ReadRecipe(s, r));
      assert keep == {r};
      ListingLength(recipes, keep, ByName);
      assert recipes[0] in keep;
    } else {
      assert keep == {};
      ListingLength(recipes, keep, ByName);
    }
  }

  lemma ListingIngredientsReads(s: Store, id: int, rows: seq<IngredientRow>)
    requires Consistent(s)
    requires Listing(rows, Sql.SelectRecipeIngredientsByRecipeId(s, id), ByKey)
    ensures rows == SortedIngredients(s, id)
  {
    var own := Sql.SelectRecipeIngredientsByRecipeId(s, id);
    IngredientsPreordered(own);
    forall i, j | i in own && j in own && ByKey(i, j) && ByKey(j, i) ensures i == j {
      KeyLeIsOrder(IngredientKey(i), IngredientKey(j), IngredientKey(i));
    }
    ListingUnique(rows, SortedIngredients(s, id), own, ByKey);
  }

  // ---- Cookable recipes ----

  /** Stock holds at least this much of a product with this name and dimension. */
  predicate InStock(s: Store, key: Key, amount: int) {
    exists p | p in s.products :: RowKey(p) == key && p.amount >= amount
  }

  /** Every ingredient of the recipe, as read back, is in stock. */
  predicate Covered(s: Store, recipe: Recipe) {
    forall ingredient | ingredient in recipe.ingredients :: InStock(s, KeyOf(ingredient), ingredient.amount)
  }

  ghost function CookableRecipes(s: Store): seq<Recipe> {
    Filter(AllRecipes(s), recipe => Covered(s, recipe))
  }

  /** What the anti-join says on any tables at all: a match exists, and every match is enough. */
  lemma AntiJoinMeaning(s: Store, id: int)
    ensures !Sql.Shortfall(s, id) <==>
            forall i | i in s.ingredients && i.recipeId == id ::
              && (exists p | p in s.products :: RowKey(p) == IngredientKey(i))
              && (forall p | p in s.products && RowKey(p) == IngredientKey(i) :: p.amount >= i.required)
  {
    var pairs := Sql.LeftJoin(s.ingredients, s.products,
                              (i: IngredientRow, p: ProductRow) =>
                                p.name == i.productName && p.dimension == i.dimension);
    forall i | i in s.ingredients && i.recipeId == id
      ensures (exists p | p in s.products :: RowKey(p) == IngredientKey(i)) || Sql.Shortfall(s, id)
      ensures (forall p | p in s.products && RowKey(p) == IngredientKey(i) :: p.amount >= i.required)
              || Sql.Shortfall(s, id)
    {
      if !exists p | p in s.products :: RowKey(p) == IngredientKey(i) {
        assert (i, None) in pairs;
      }
      forall p | p in s.products && RowKey(p) == IngredientKey(i)
        ensures p.amount >= i.required || Sql.Shortfall(s, id)
      {
        assert (i, Some(p)) in pairs;
      }
    }
  }

  /** Two stock rows for one key, one of them too small, would hide a recipe that stock covers:
      UNIQUE(name, dimension) is what makes the query mean what it says. */
  lemma AntiJoinNeedsUniqueStock()
    ensures exists s: Store, r ::
              RecipesConsistent(s) && IngredientsConsistent(s) && r in s.recipes
              && Covered(s, ReadRecipe(s, r)) && Sql.Shortfall(s, r.id)
  {
    var r := RecipeRow(1, "Tea");
    var i := IngredientRow(1, "Water", Liter, 2);
    var enough := ProductRow(1, "Water", Liter, 3, None, None);
    var scarce := ProductRow(2, "Water", Liter, 1, None, None);
    var s := Store({enough, scarce}, {r}, {i}, 2, 1);
    assert Sql.Shortfall(s, 1) by {
      AntiJoinMeaning(s, 1);
      assert i in s.ingredients && scarce in s.products && RowKey(scarce) == IngredientKey(i);
    }
    assert InStock(s, IngredientKey(i), 2) by { assert enough in s.products; }
    assert IngredientsConsistent(s) by { assert r in s.recipes && HasRecipe(s, 1); }
    CoveredByRows(s, r);
  }

  lemma CoveredByRows(s: Store, r: RecipeRow)
    requires forall i | i in s.ingredients && i.recipeId == r.id :: InStock(s, IngredientKey(i), i.required)
    ensures Covered(s, ReadRecipe(s, r))
  {
    var sorted := SortedIngredients(s, r.id);
    forall ingredient | ingredient in ReadRecipe(s, r).ingredients
      ensures InStock(s, KeyOf(ingredient), ingredient.amount)
    {
      var k :| 0 <= k < |sorted| && ingredient == ReadIngredient(sorted[k]);
      assert sorted[k] in Sql.SelectRecipeIngredientsByRecipeId(s, r.id);
    }
  }

  lemma CookableMeaning(s: Store, r: RecipeRow)
    requires Consistent(s)
    ensures !Sql.Shortfall(s, r.id) <==> Covered(s, ReadRecipe(s, r))
  {
    AntiJoinMeaning(s, r.id);
    var sorted := SortedIngredients(s, r.id);
    var own := Sql.SelectRecipeIngredientsByRecipeId(s, r.id);
    if Covered(s, ReadRecipe(s, r)) {
      forall i | i in s.ingredients && i.recipeId == r.id
        ensures exists p | p in s.products :: RowKey(p) == IngredientKey(i)
        ensures forall p | p in s.products && RowKey(p) == IngredientKey(i) :: p.amount >= i.required
      {
        assert i in own;
        var k :| 0 <= k < |sorted| && sorted[k] == i;
        assert ReadRecipe(s, r).ingredients[k] == ReadIngredient(i);
        assert InStock(s, IngredientKey(i), i.required);
      }
    }
    if !Sql.Shortfall(s, r.id) { CoveredByRows(s, r); }
  }

  /** The cookable listing is the full listing, in the same order, with the recipes that stock
      does not cover left out; a recipe without ingredients always stays in. */
  lemma ListingCookableReads(s: Store, rows: seq<JoinRow>)
    requires Consistent(s)
    requires Listing(rows, Sql.SelectCookableRecipesWithIngredients(s), ByNameThenIngredient)
    ensures Group(rows) == CookableRecipes(s)
  {
    var keep := set r | r in s.recipes && !Sql.Shortfall(s, r.id);
    assert JoinOf(s, keep) == Sql.SelectCookableRecipesWithIngredients(s);
    SelectionReads(s, keep, rows);
    var all := SortedRecipes(s.recipes);
    FilterListing(all, s.recipes, ByName, (r: RecipeRow) => !Sql.Shortfall(s, r.id));
    assert keep == set r | r in s.recipes && ((r: RecipeRow) => !Sql.Shortfall(s, r.id))(r);
    var kept := Filter(all, (r: RecipeRow) => !Sql.Shortfall(s, r.id));
    NamesPreordered(keep);
    forall r, t | r in keep && t in keep && ByName(r, t) && ByName(t, r) ensures r == t {
      TextTotal(r.name, t.name);
    }
    ListingUnique(SortedRecipes(keep), kept, keep, ByName);
    FilterReads(s, all, (r: RecipeRow) => !Sql.Shortfall(s, r.id), recipe => Covered(s, recipe));
  }

  lemma {:induction false} FilterReads(s: Store, rows: seq<RecipeRow>, stocked: RecipeRow -> bool, covered: Recipe -> bool)
    requires Consistent(s)
    requires forall r :: stocked(r) <==> !Sql.Shortfall(s, r.id)
    requires forall recipe :: covered(recipe) <==> Covered(s, recipe)
    ensures ReadRecipes(s, Filter(rows, stocked)) == Filter(ReadRecipes(s, rows), covered)
  {
    hide Consistent, ReadRecipe, ReadRecipes, Sql.Shortfall, Covered;
    if rows == [] {
      assert ReadRecipes(s, []) == [] by { EmptyReads(s); }
    } else {
      var n := |rows| - 1;
      FilterReads(s, rows[..n], stocked, covered);
      CookableMeaning(s, rows[n]);
      assert rows == rows[..n] + [rows[n]];
      ReadRecipesSnoc(s, rows[..n], rows[n]);
      ReadRecipesSnoc(s, Filter(rows[..n], stocked), rows[n]);
      FilterSnoc(rows[..n], rows[n], stocked);
      FilterSnoc(ReadRecipes(s, rows[..n]), ReadRecipe(s, rows[n]), covered);
      if !stocked(rows[n]) {
        assert Filter(rows[..n], stocked) + [] == Filter(rows[..n], stocked);
      }
    }
  }

  lemma EmptyReads(s: Store)
    ensures ReadRecipes(s, []) == []
  {
  }
}
