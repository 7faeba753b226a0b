/** Request dispatch: ids in targets, the handlers' route decisions, and the table they amount to. */
module Router {
  import opened Wrappers
  import opened Decimal

  const INT64_MAX: int := 0x7FFF_FFFF_FFFF_FFFF
  const INT64_MIN: int := -0x8000_0000_0000_0000

  const PRODUCTS: string := "/v1/products/"
  const RECIPES: string := "/v1/recipes/"
  const COOKABLE: string := "/v1/recipes/cookable"

  // ---- Ids ----

  datatype CharsResult = InvalidArgument | OutOfRange | Number(value: int, rest: string)

  /** `std::from_chars` for a 64-bit integer: an optional minus sign and as many digits as follow. */
  function FromChars(text: string): CharsResult {
    var negative := text != "" && text[0] == '-';
    var digits := if negative then text[1..] else text;
    var k := DigitRun(digits, |digits|);
    if k == 0 then InvalidArgument
    else
      var magnitude: int := Value(digits[..k]);
      var value := if negative then -magnitude else magnitude;
      if INT64_MIN <= value <= INT64_MAX then Number(value, digits[k..]) else OutOfRange
  }

  function ParseIdAfter(prefix: string, target: string): Option<int> {
    if !(prefix <= target) || |target| == |prefix| then None
    else
      match FromChars(target[|prefix|..])
      case Number(value, rest) => if rest != "" || value <= 0 then None else Some(value)
      case _ => None
  }

  function ParseProductId(target: string): Option<int> { ParseIdAfter(PRODUCTS, target) }

  function ParseRecipeId(target: string): Option<int> {
    if target == COOKABLE then None else ParseIdAfter(RECIPES, target)
  }

  lemma {:induction false} DigitRunFull(s: string)
    ensures DigitRun(s, |s|) == |s| <==> AllDigits(s)
  {
    if s != [] && IsDigit(s[0]) {
      DigitRunFull(s[1..]);
      assert AllDigits(s) <==> AllDigits(s[1..]) by {
        assert forall i | 0 <= i < |s| - 1 :: s[1..][i] == s[i + 1];
        assert forall i | 1 <= i < |s| :: s[i] == s[1..][i - 1];
      }
    }
  }

  /** A target names an id exactly when its suffix is all digits with a value from 1 to 2^63 - 1. */
  lemma IdAccepted(prefix: string, target: string, id: int)
    ensures ParseIdAfter(prefix, target) == Some(id) <==>
              && prefix < target
              && AllDigits(target[|prefix|..]) && Value(target[|prefix|..]) == id && 1 <= id <= INT64_MAX
  {
    if prefix < target {
      var text := target[|prefix|..];
      DigitRunFull(text);
      if AllDigits(text) {
        assert text[..|text|] == text && text[|text|..] == "";
      }
    }
  }

  lemma CookableHasNoId()
    ensures ParseIdAfter(RECIPES, COOKABLE) == None
    ensures ParseProductId(COOKABLE) == None
  {
    IdAccepted(RECIPES, COOKABLE, 0);
    assert COOKABLE[|RECIPES|..][0] == 'c';
    assert COOKABLE[4] == 'r' && PRODUCTS[4] == 'p';
  }

  /** Printing an id after the prefix and parsing the target gives the id back. */
  lemma IdRoundTrip(id: int)
    requires 1 <= id <= INT64_MAX
    ensures ParseProductId(PRODUCTS + Print(id)) == Some(id)
    ensures ParseRecipeId(RECIPES + Print(id)) == Some(id)
  {
    ValueOfPrint(id);
    IdAccepted(PRODUCTS, PRODUCTS + Print(id), id);
    IdAccepted(RECIPES, RECIPES + Print(id), id);
    assert (PRODUCTS + Print(id))[|PRODUCTS|..] == Print(id);
    assert (RECIPES + Print(id))[|RECIPES|..] == Print(id);
    CookableHasNoId();
  }

  // ---- Dispatch as the handlers decide it ----

  datatype Verb = Get | Post | Put | Delete | OtherVerb

  datatype Action =
    | Health
    | CreateProduct | ListProducts | GetProduct(id: int) | UpdateProduct(id: int) | DeleteProduct(id: int)
    | CreateRecipe | ListRecipes | ListCookable | GetRecipe(id: int) | UpdateRecipe(id: int) | DeleteRecipe(id: int)
    | HealthNotAllowed               // 405 without an Allow header
    | NotAllowed(allow: string)      // 405
    | NotFound                       // 404
    | EmptyOptional                  // `value()` called on an id that is not there

  function Handle(target: string, verb: Verb): Action {
    if target == "/healthz" then (if verb != Get then HealthNotAllowed else Health)
    else if target == "/v1/products" && verb != Get && verb != Post then NotAllowed("GET, POST")
    else if target == "/v1/recipes" && verb != Get && verb != Post then NotAllowed("GET, POST")
    else if target == COOKABLE && verb != Get then NotAllowed("GET")
    else if ParseProductId(target).Some? && verb != Get && verb != Put && verb != Delete then
      NotAllowed("GET, PUT, DELETE")
    else if ParseRecipeId(target).Some? && verb != Get && verb != Put && verb != Delete then
      NotAllowed("GET, PUT, DELETE")
    else NotFound
  }

  function HandleProducts(target: string, verb: Verb, productId: Option<int>): Action {
    match verb
    case Post => CreateProduct
    case Put => if productId.Some? then UpdateProduct(productId.value) else EmptyOptional
    case Delete => if productId.Some? then DeleteProduct(productId.value) else EmptyOptional
    case Get => if productId.Some? then GetProduct(productId.value) else ListProducts
    case OtherVerb => Handle(target, verb)
  }

  function HandleAsync(target: string, verb: Verb): Action {
    var productCollection := target == "/v1/products";
    var productId := ParseProductId(target);
    var recipeCollection := target == "/v1/recipes";
    var cookable := target == COOKABLE;
    var recipeId := ParseRecipeId(target);
    var collectionMethod := productCollection && (verb == Get || verb == Post);
    var itemMethod := productId.Some? && (verb == Get || verb == Put || verb == Delete);
    if (productCollection || productId.Some?) && (collectionMethod || itemMethod) then
      HandleProducts(target, verb, productId)
    else if (recipeCollection || cookable) && recipeCollection && verb == Post then CreateRecipe
    else if (recipeCollection || cookable) && verb == Get then (if cookable then ListCookable else ListRecipes)
    else if recipeId.Some? && verb == Get then GetRecipe(recipeId.value)
    else if recipeId.Some? && verb == Put then UpdateRecipe(recipeId.value)
    else if recipeId.Some? && verb == Delete then DeleteRecipe(recipeId.value)
    else Handle(target, verb)
  }

  // ---- The route table ----

  datatype Resource =
    | HealthCheck | ProductCollection | ProductItem(id: int)
    | RecipeCollection | CookableCollection | RecipeItem(id: int) | NoResource

  function ResourceOf(target: string): Resource {
    if target == "/healthz" then HealthCheck
    else if target == "/v1/products" then ProductCollection
    else if target == "/v1/recipes" then RecipeCollection
    else if target == COOKABLE then CookableCollection
    else if ParseIdAfter(PRODUCTS, target).Some? then ProductItem(ParseIdAfter(PRODUCTS, target).value)
    else if ParseIdAfter(RECIPES, target).Some? then RecipeItem(ParseIdAfter(RECIPES, target).value)
    else NoResource
  }

  /** The handler for a method on a resource, if it has one. */
  function HandlerFor(resource: Resource, verb: Verb): Option<Action> {
    match (resource, verb)
    case (HealthCheck, Get) => Some(Health)
    case (ProductCollection, Get) => Some(ListProducts)
    case (ProductCollection, Post) => Some(CreateProduct)
    case (ProductItem(id), Get) => Some(GetProduct(id))
    case (ProductItem(id), Put) => Some(UpdateProduct(id))
    case (ProductItem(id), Delete) => Some(DeleteProduct(id))
    case (RecipeCollection, Get) => Some(ListRecipes)
    case (RecipeCollection, Post) => Some(CreateRecipe)
    case (CookableCollection, Get) => Some(ListCookable)
    case (RecipeItem(id), Get) => Some(GetRecipe(id))
    case (RecipeItem(id), Put) => Some(UpdateRecipe(id))
    case (RecipeItem(id), Delete) => Some(DeleteRecipe(id))
    case _ => None
  }

  function Join(names: seq<string>): string {
    if names == [] then "" else if |names| == 1 then names[0] else names[0] + ", " + Join(names[1..])
  }

  /** The Allow header for a resource: the names of the methods that have a handler. */
  function AllowOf(resource: Resource): string {
    Join((if HandlerFor(resource, Get).Some? then ["GET"] else [])
         + (if HandlerFor(resource, Post).Some? then ["POST"] else [])
         + (if HandlerFor(resource, Put).Some? then ["PUT"] else [])
         + (if HandlerFor(resource, Delete).Some? then ["DELETE"] else []))
  }

  function Routed(target: string, verb: Verb): Action {
    var resource := ResourceOf(target);
    match HandlerFor(resource, verb)
    case Some(action) => action
    case None =>
      if resource == NoResource then NotFound
      else if resource == HealthCheck then HealthNotAllowed
      else NotAllowed(AllowOf(resource))
  }

  /** The literal targets lie outside both id spaces, and the id spaces are disjoint. */
  lemma TargetsDisjoint(target: string)
    ensures ParseIdAfter(PRODUCTS, target).Some? ==>
              && ParseIdAfter(RECIPES, target).None?
              && target != "/healthz" && target != "/v1/products" && target != "/v1/recipes" && target != COOKABLE
    ensures ParseIdAfter(RECIPES, target).Some? ==>
              target != "/healthz" && target != "/v1/products" && target != "/v1/recipes" && target != COOKABLE
  {
    CookableHasNoId();
    assert PRODUCTS[4] == 'p' && RECIPES[4] == 'r';
  }

  lemma JoinOne(a: string)
    ensures Join([a]) == a
  {
  }

  lemma JoinTwo(a: string, b: string)
    ensures Join([a, b]) == a + ", " + b
  {
    assert [a, b][1..] == [b];
    JoinOne(b);
  }

  lemma JoinThree(a: string, b: string, c: string)
    ensures Join([a, b, c]) == a + ", " + (b + ", " + c)
  {
    assert [a, b, c][1..] == [b, c];
    JoinTwo(b, c);
  }

  lemma AllowTexts(id: int)
    ensures AllowOf(ProductCollection) == AllowOf(RecipeCollection) == "GET, POST"
    ensures AllowOf(CookableCollection) == "GET"
    ensures AllowOf(ProductItem(id)) == AllowOf(RecipeItem(id)) == "GET, PUT, DELETE"
  {
    hide Join;
    JoinOne("GET");
    JoinTwo("GET", "POST");
    JoinThree("GET", "PUT", "DELETE");
    assert ["GET"] + ["POST"] + [] + [] == ["GET", "POST"];
    assert ["GET"] + [] + ["PUT"] + ["DELETE"] == ["GET", "PUT", "DELETE"];
    assert ["GET"] + [] + [] + [] == ["GET"];
  }

  /** For every target and method the handlers decide what the table says; in particular no id is
      ever taken from an empty optional, and each 405 on a product or recipe resource lists in its
      Allow header exactly the methods with a handler. */
  lemma DispatchIsTable(target: string, verb: Verb)
    ensures HandleAsync(target, verb) == Routed(target, verb)
    ensures HandleAsync(target, verb) != EmptyOptional
  {
    TargetsDisjoint(target);
    AllowTexts(match ResourceOf(target) case ProductItem(id) => id case RecipeItem(id) => id case _ => 0);
    hide AllowOf, ParseIdAfter;
    match ResourceOf(target)
    case HealthCheck =>
    case ProductCollection =>
    case RecipeCollection =>
    case CookableCollection =>
    case ProductItem(_) =>
    case RecipeItem(_) =>
    case NoResource =>
  }

  // ---- Dispatch in text ----

  /** The handler, or 405 with this Allow header. */
  function Routes(resource: Resource, verb: Verb): Action {
    match (resource, verb)
    case (ProductItem(id), Get) => GetProduct(id)
    case (ProductItem(id), Put) => UpdateProduct(id)
    case (ProductItem(id), Delete) => DeleteProduct(id)
    case (RecipeItem(id), Get) => GetRecipe(id)
    case (RecipeItem(id), Put) => UpdateRecipe(id)
    case (RecipeItem(id), Delete) => DeleteRecipe(id)
    case _ => NotAllowed("GET, PUT, DELETE")
  }

  lemma ItemRouted(target: string, verb: Verb, id: int)
    requires ResourceOf(target) == ProductItem(id) || ResourceOf(target) == RecipeItem(id)
    ensures HandleAsync(target, verb) == Routes(ResourceOf(target), verb)
  {
    hide ResourceOf, HandleAsync, AllowOf;
    DispatchIsTable(target, verb);
    AllowTexts(id);
  }

  lemma ItemResources(id: int)
    requires 1 <= id <= INT64_MAX
    ensures ResourceOf(PRODUCTS + Print(id)) == ProductItem(id)
    ensures ResourceOf(RECIPES + Print(id)) == RecipeItem(id)
  {
    IdRoundTrip(id);
    TargetsDisjoint(PRODUCTS + Print(id));
    TargetsDisjoint(RECIPES + Print(id));
    CookableHasNoId();
    hide ParseIdAfter, Print;
  }

  /** Requests for one product or one recipe, for every id there can be. */
  lemma ItemRoutes(id: int)
    requires 1 <= id <= 9223372036854775807
    ensures var target := "/v1/products/" + Print(id);
            && HandleAsync(target, Get) == GetProduct(id)
            && HandleAsync(target, Put) == UpdateProduct(id)
            && HandleAsync(target, Delete) == DeleteProduct(id)
            && HandleAsync(target, Post) == NotAllowed("GET, PUT, DELETE")
            && HandleAsync(target, OtherVerb) == NotAllowed("GET, PUT, DELETE")
    ensures var target := "/v1/recipes/" + Print(id);
            && HandleAsync(target, Get) == GetRecipe(id)
            && HandleAsync(target, Put) == UpdateRecipe(id)
            && HandleAsync(target, Delete) == DeleteRecipe(id)
            && HandleAsync(target, Post) == NotAllowed("GET, PUT, DELETE")
            && HandleAsync(target, OtherVerb) == NotAllowed("GET, PUT, DELETE")
  {
    hide ResourceOf, HandleAsync, Print;
    ItemResources(id);
    forall verb ensures HandleAsync(PRODUCTS + Print(id), verb) == Routes(ProductItem(id), verb) {
      ItemRouted(PRODUCTS + Print(id), verb, id);
    }
    forall verb ensures HandleAsync(RECIPES + Print(id), verb) == Routes(RecipeItem(id), verb) {
      ItemRouted(RECIPES + Print(id), verb, id);
    }
  }

  /** Requests for the collections and the health check. */
  lemma CollectionRoutes()
    ensures HandleAsync("/v1/products", Get) == ListProducts && HandleAsync("/v1/products", Post) == CreateProduct
    ensures forall verb | verb != Get && verb != Post :: HandleAsync("/v1/products", verb) == NotAllowed("GET, POST")
    ensures HandleAsync("/v1/recipes", Get) == ListRecipes && HandleAsync("/v1/recipes", Post) == CreateRecipe
    ensures forall verb | verb != Get && verb != Post :: HandleAsync("/v1/recipes", verb) == NotAllowed("GET, POST")
    ensures HandleAsync("/v1/recipes/cookable", Get) == ListCookable
    ensures forall verb | verb != Get :: HandleAsync("/v1/recipes/cookable", verb) == NotAllowed("GET")
    ensures HandleAsync("/healthz", Get) == Health
    ensures forall verb | verb != Get :: HandleAsync("/healthz", verb) == HealthNotAllowed
  {
    TargetsDisjoint("/v1/products");
    TargetsDisjoint("/v1/recipes");
    TargetsDisjoint("/healthz");
    CookableHasNoId();
    hide ParseIdAfter;
  }

  /** Every other target is not found, whatever the method. */
  lemma OtherTargets(target: string, verb: Verb)
    requires target != "/v1/products" && target != "/v1/recipes" && target != "/v1/recipes/cookable" && target != "/healthz"
    requires ParseIdAfter("/v1/products/", target) == ParseIdAfter("/v1/recipes/", target) == None
    ensures HandleAsync(target, verb) == NotFound
  {
    hide ParseIdAfter;
  }
}
