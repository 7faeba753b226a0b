/** The rows of the three tables, how a product is bound to a row and read back, and row order. */
module Tables {
  import opened Wrappers
  import opened Calendar
  import opened Kitchen
  import opened Ordering

  datatype ProductRow = ProductRow(id: int, name: string, dimension: Dimension, amount: Amount,
                                   manufacture: Option<string>, expiration: Option<string>)

  datatype RecipeRow = RecipeRow(id: int, name: string)

  datatype IngredientRow =
    IngredientRow(recipeId: int, productName: string, dimension: Dimension, required: Amount)

  /** The tables, and for each AUTOINCREMENT table the largest id it has ever committed. */
  datatype Store = Store(products: set<ProductRow>, recipes: set<RecipeRow>,
                         ingredients: set<IngredientRow>, productSeq: int, recipeSeq: int)

  const EMPTY := Store({}, {}, {}, 0, 0)

  /** A row of a recipe listing: a recipe joined with one ingredient, or with NULL. */
  type JoinRow = (RecipeRow, Option<IngredientRow>)

  datatype Violation = UniqueViolation | CheckViolation | ForeignKeyViolation

  /** How AUTOINCREMENT chooses: any id above the largest one so far. */
  ghost predicate PicksFreshIds(pick: int -> int) { forall highest :: highest < pick(highest) }

  function RowKey(q: ProductRow): Key { Key(q.name, q.dimension) }

  function IngredientKey(i: IngredientRow): Key { Key(i.productName, i.dimension) }

  // ---- Binding and reading a product ----

  function BindDate(date: Option<Day>): Option<string> {
    match date
    case None => None
    case Some(day) => Some(ToDateString(day))
  }

  function ReadDate(column: Option<string>): Option<Day> {
    match column
    case None => None
    case Some(text) => FromDateString(text)
  }

  function BindProduct(id: int, p: Product): ProductRow {
    ProductRow(id, p.name, p.dimension, p.amount,
               BindDate(p.dates.manufacture), BindDate(p.dates.expiration))
  }

  function ReadProduct(q: ProductRow): Product {
    Product(q.name, q.amount, q.dimension,
            Dates(ReadDate(q.manufacture), ReadDate(q.expiration)), Some(q.id))
  }

  lemma DateColumnRoundTrip(date: Option<Day>)
    ensures ReadDate(BindDate(date)) == date
  {
    if date.Some? { DateRoundTrip(date.value); }
  }

  /** Every field of a product, both optional dates included, survives being stored. */
  lemma ProductRoundTrip(id: int, p: Product)
    ensures ReadProduct(BindProduct(id, p)) == p.(id := Some(id))
  {
    DateColumnRoundTrip(p.dates.manufacture);
    DateColumnRoundTrip(p.dates.expiration);
  }

  // ---- ORDER BY ----

  predicate ByAmount(p: ProductRow, q: ProductRow) { p.amount <= q.amount }

  predicate ByName(r: RecipeRow, t: RecipeRow) { TextLe(r.name, t.name) }

  predicate KeyLe(a: Key, b: Key) {
    if a.name != b.name then TextLe(a.name, b.name) else Code(a.dimension) <= Code(b.dimension)
  }

  predicate ByKey(i: IngredientRow, j: IngredientRow) { KeyLe(IngredientKey(i), IngredientKey(j)) }

  /** NULL sorts before every value. */
  predicate ByIngredient(x: JoinRow, y: JoinRow) {
    match (x.1, y.1)
    case (None, _) => true
    case (Some(_), None) => false
    case (Some(i), Some(j)) => ByKey(i, j)
  }

  predicate ByNameThenIngredient(x: JoinRow, y: JoinRow) {
    if x.0.name != y.0.name then TextLe(x.0.name, y.0.name) else ByIngredient(x, y)
  }

  lemma KeyLeIsOrder(a: Key, b: Key, c: Key)
    ensures KeyLe(a, b) || KeyLe(b, a)
    ensures KeyLe(a, b) && KeyLe(b, a) ==> a == b
    ensures KeyLe(a, b) && KeyLe(b, c) ==> KeyLe(a, c)
  {
    TextTotal(a.name, b.name);
    TextTotal(b.name, c.name);
    if TextLe(a.name, b.name) && TextLe(b.name, c.name) { TextTransitive(a.name, b.name, c.name); }
  }

  lemma JoinOrder(x: JoinRow, y: JoinRow, z: JoinRow)
    ensures ByIngredient(x, y) || ByIngredient(y, x)
    ensures ByIngredient(x, y) && ByIngredient(y, z) ==> ByIngredient(x, z)
    ensures ByNameThenIngredient(x, y) || ByNameThenIngredient(y, x)
    ensures ByNameThenIngredient(x, y) && ByNameThenIngredient(y, z) ==> ByNameThenIngredient(x, z)
  {
    if x.1.Some? && y.1.Some? {
      var k := if z.1.Some? then IngredientKey(z.1.value) else IngredientKey(y.1.value);
      KeyLeIsOrder(IngredientKey(x.1.value), IngredientKey(y.1.value), k);
    }
    TextTotal(x.0.name, y.0.name);
    TextTotal(y.0.name, z.0.name);
    if TextLe(x.0.name, y.0.name) && TextLe(y.0.name, z.0.name) {
      TextTransitive(x.0.name, y.0.name, z.0.name);
    }
  }

  lemma KeysPreordered(s: set<Key>)
    ensures TotalPreorder(s, KeyLe) && Antisymmetric(s, KeyLe)
  {
    forall a, b, c | a in s && b in s && c in s
      ensures (KeyLe(a, b) || KeyLe(b, a)) && (KeyLe(a, b) && KeyLe(b, a) ==> a == b)
      ensures KeyLe(a, b) && KeyLe(b, c) ==> KeyLe(a, c)
    {
      KeyLeIsOrder(a, b, c);
    }
  }

  lemma IngredientsPreordered(s: set<IngredientRow>)
    ensures TotalPreorder(s, ByKey)
  {
    forall a, b, c | a in s && b in s && c in s
      ensures ByKey(a, b) || ByKey(b, a)
      ensures ByKey(a, b) && ByKey(b, c) ==> ByKey(a, c)
    {
      KeyLeIsOrder(IngredientKey(a), IngredientKey(b), IngredientKey(c));
    }
  }

  lemma NamesPreordered(s: set<RecipeRow>)
    ensures TotalPreorder(s, ByName)
  {
    forall a, b, c | a in s && b in s && c in s
      ensures ByName(a, b) || ByName(b, a)
      ensures ByName(a, b) && ByName(b, c) ==> ByName(a, c)
    {
      TextTotal(a.name, b.name);
      if ByName(a, b) && ByName(b, c) { TextTransitive(a.name, b.name, c.name); }
    }
  }

  lemma JoinPreordered(s: set<JoinRow>)
    ensures TotalPreorder(s, ByIngredient) && TotalPreorder(s, ByNameThenIngredient)
  {
    forall x, y, z | x in s && y in s && z in s
      ensures ByIngredient(x, y) || ByIngredient(y, x)
      ensures ByIngredient(x, y) && ByIngredient(y, z) ==> ByIngredient(x, z)
      ensures ByNameThenIngredient(x, y) || ByNameThenIngredient(y, x)
      ensures ByNameThenIngredient(x, y) && ByNameThenIngredient(y, z) ==> ByNameThenIngredient(x, z)
    {
      JoinOrder(x, y, z);
    }
  }
}
