/** HTTP replies: how service results and application errors become a status and a body. */
module Http {
  import opened Wrappers
  import opened Kitchen
  import opened ServiceSpec

  function DimensionText(d: Dimension): string {
    match d
    case Gramm => "gr"
    case Kilogramm => "kg"
    case Milliliter => "ml"
    case Liter => "l"
    case Piece => "pc"
  }

  function ParseDimension(text: string): Option<Dimension> {
    if text == "gr" then Some(Gramm)
    else if text == "kg" then Some(Kilogramm)
    else if text == "ml" then Some(Milliliter)
    else if text == "l" then Some(Liter)
    else if text == "pc" then Some(Piece)
    else None
  }

  /** The JSON form of a product; dates are never sent. */
  datatype ProductView = ProductView(id: int, name: string, amount: Amount, dimension: string)

  datatype RecipeView = RecipeView(id: int, name: string, ingredients: seq<ProductView>)

  function IdOr0(id: Option<int>): int { if id.Some? then id.value else 0 }

  function ToProductView(p: Product): ProductView {
    ProductView(IdOr0(p.id), p.name, p.amount, DimensionText(p.dimension))
  }

  function ToRecipeView(r: Recipe): RecipeView {
    RecipeView(IdOr0(r.id), r.name,
               seq(|r.ingredients|, k requires 0 <= k < |r.ingredients| => ToProductView(r.ingredients[k])))
  }

  /** The loop that fills the ingredients of a reply. */
  method ToRecipeResponse(recipe: Recipe) returns (response: RecipeView)
    ensures response == ToRecipeView(recipe)
  {
    var ingredients: seq<ProductView> := [];
    for i := 0 to |recipe.ingredients|
      invariant |ingredients| == i
      invariant forall k | 0 <= k < i :: ingredients[k] == ToProductView(recipe.ingredients[k])
    {
      ingredients := ingredients + [ToProductView(recipe.ingredients[i])];
    }
    response := RecipeView(IdOr0(recipe.id), recipe.name, ingredients);
    assert response.ingredients == ToRecipeView(recipe).ingredients;
  }

  datatype ProductRequest = ProductRequest(name: string, amount: Amount, dimension: string)

  datatype RecipeRequest = RecipeRequest(name: string, ingredients: seq<ProductRequest>)

  /** `body` is what the JSON reader makes of the request body. A body it cannot read is refused with
      400, a request with an unknown ingredient dimension with 422; otherwise the recipe, shown to a
      client, is the request again. */
  method ParseRecipe(body: Result<RecipeRequest, string>) returns (r: Result<Recipe, HttpReply>)
    ensures match body
            case Err(message) => r == Err(HttpReply(400, ErrorBody("invalid_json", message)))
            case Ok(request) =>
              if exists q | q in request.ingredients :: ParseDimension(q.dimension).None? then
                r == Err(HttpReply(422, ErrorBody("invalid_json", "Invalid recipe ingredient dimension")))
              else
                && r.Ok?
                && r.value.id == None && (forall p | p in r.value.ingredients :: p.id == None && p.dates == NO_DATES)
                && ToRecipeView(r.value) == RequestView(request)
                && r.value.name == request.name && |r.value.ingredients| == |request.ingredients|
                && (forall k | 0 <= k < |request.ingredients| ::
                      && r.value.ingredients[k].name == request.ingredients[k].name
                      && r.value.ingredients[k].amount == request.ingredients[k].amount
                      && ParseDimension(request.ingredients[k].dimension) == Some(r.value.ingredients[k].dimension))
  {
    hide ParseDimension, DimensionText;
    if body.Err? {
      return Err(HttpReply(400, ErrorBody("invalid_json", body.error)));
    }
    var request := body.value;
    var ingredients: seq<Product> := [];
    for i := 0 to |request.ingredients|
      invariant |ingredients| == i
      invariant forall k | 0 <= k < i :: ParseDimension(request.ingredients[k].dimension).Some?
      invariant forall k | 0 <= k < i :: ingredients[k].id == None && ingredients[k].dates == NO_DATES
      invariant forall k | 0 <= k < i :: ToProductView(ingredients[k]) == RequestedView(request.ingredients[k])
      invariant forall k | 0 <= k < i ::
                  && ingredients[k].name == request.ingredients[k].name
                  && ingredients[k].amount == request.ingredients[k].amount
                  && ParseDimension(request.ingredients[k].dimension) == Some(ingredients[k].dimension)
    {
      var asked := request.ingredients[i];
      var dimension := ParseDimension(asked.dimension);
      if dimension.None? {
        return Err(HttpReply(422, ErrorBody("invalid_json", "Invalid recipe ingredient dimension")));
      }
      DimensionRoundTrip(dimension.value, asked.dimension);
      ingredients := ingredients + [Product(asked.name, asked.amount, dimension.value, NO_DATES, None)];
    }
    r := Ok(Recipe(request.name, ingredients, None));
    assert ToRecipeView(r.value).ingredients == RequestView(request).ingredients;
  }

  /** A request as a client would see it before it has an id. */
  function RequestedView(q: ProductRequest): ProductView { ProductView(0, q.name, q.amount, q.dimension) }

  function RequestView(request: RecipeRequest): RecipeView {
    RecipeView(0, request.name,
               seq(|request.ingredients|, k requires 0 <= k < |request.ingredients| => RequestedView(request.ingredients[k])))
  }

  datatype Body = ErrorBody(code: string, message: string) | ProductBody(product: ProductView) | RecipeBody(recipe: RecipeView)

  datatype HttpReply = HttpReply(status: nat, body: Body)

  function AppError(error: Error): HttpReply {
    match error.code
    case Validation => HttpReply(422, ErrorBody("validation_error", error.message))
    case NotFound => HttpReply(404, ErrorBody("not_found", error.message))
    case Conflict => HttpReply(409, ErrorBody("conflict", error.message))
    case Overloaded => HttpReply(503, ErrorBody("overloaded", error.message))
    case Storage => HttpReply(500, ErrorBody("internal_error", "Storage operation failed"))
  }

  /** A GET by id, from the reply of the executor. */
  function GetProductReply(fetched: Reply): HttpReply {
    match fetched
    case Err(error) => AppError(error)
    case Ok(MaybeProduct(Some(p))) => HttpReply(200, ProductBody(ToProductView(p)))
    case Ok(_) => HttpReply(404, ErrorBody("not_found", "Product was not found"))
  }

  function GetRecipeReply(fetched: Reply): HttpReply {
    match fetched
    case Err(error) => AppError(error)
    case Ok(MaybeRecipe(Some(r))) => HttpReply(200, RecipeBody(ToRecipeView(r)))
    case Ok(_) => HttpReply(404, ErrorBody("not_found", "Recipe was not found"))
  }

  /** A PUT makes two submissions: the update, and if that succeeds a fetch for the body. */
  function PutProductReply(updated: Reply, fetched: Reply): HttpReply {
    if updated.Err? then AppError(updated.error) else GetProductReply(fetched)
  }

  function PutRecipeReply(updated: Reply, fetched: Reply): HttpReply {
    if updated.Err? then AppError(updated.error) else GetRecipeReply(fetched)
  }

  /** What is written for a dimension is what is read back for it. */
  lemma DimensionRoundTrip(d: Dimension, text: string)
    ensures ParseDimension(DimensionText(d)) == Some(d)
    ensures ParseDimension(text) == Some(d) <==> text == DimensionText(d)
  {
  }
}
