# A verified model of the recipes service

The program keeps a stock of products and a book of recipes in SQLite, answers HTTP requests about
them, and runs every database operation on one worker thread behind a bounded queue. This project
models the logic of those parts in Dafny and proves what they promise together:

- **The store.** Three tables with their keys, checks and foreign key; every statement as an
  operation on the tables; `DBManager` as a class whose methods execute the statements, open
  transactions and fold joined rows back into recipes. Each method is proved against a declarative
  specification of the whole operation (`StoreSpec`), and about those specifications: the schema
  holds after every run, no id is issued twice, what is written reads back, a batch is a fold and is
  all-or-nothing, the listings are exact, and the cookable query means "every ingredient is in stock".
- **The executor.** A transition system of callers, one worker and the stopper over a mutex, a
  condition variable (release-and-sleep in one step, `notify_one`, spurious wakeups), a bounded
  queue and a stop flag. In every reachable state of every interleaving: one sequential order
  explains the store and all replies, each submission is in exactly one place and is answered at
  most once, no wakeup is lost, a run left alone ends with everything answered, and once stopping the
  worker has a fixed number of steps left before it exits, drained, however many calls still arrive.
- **The service on top.** Exactly when each request fails and with which error, what each success
  changes and leaves alone, the two-step PUT under interleaving, the cookable set over a run.
- **The edges.** Calendar dates through `YYYY-MM-DD` text, ids in request targets, the dispatch of
  requests, and command-line arguments.

What the environment is free to choose stays free: the id AUTOINCREMENT hands out is any number above
every id the table has ever committed, and a query returns any order its ORDER BY allows.

## How the files fit together

| files | subject |
|---|---|
| `Wrappers`, `Ordering`, `Decimal`, `Calendar`, `Kitchen` | results, ORDER BY, decimal text, dates, products and recipes |
| `Tables`, `Sql` | table rows and statements |
| `StoreSpec`, `SchemaInvariant`, `Listings`, `Views`, `Readings` | what each operation does to the store, what every run keeps, what readers see |
| `DBManager`, `SqliteRecipeRepository`, `RecipeService` | the three layers as classes |
| `ServiceSpec`, `Replies` | the use cases as one function, and their exact outcomes request by request |
| `Executor`, `ExecutorTheorems`, `Admission`, `Scenarios` | the concurrent executor, what decides a call, and stretches of runs |
| `Http`, `ServiceRuns`, `PutReplies`, `PutOutcomes`, `Cooking`, `Router`, `Args` | replies, requests on the executor, the fate of a PUT, cookability, dispatch, arguments |

`dafny verify dfyconfig.toml` checks the project.

## Findings

- Storing a date and reading it back is the identity exactly up to 9999-12-31 (`Calendar.DateRoundTrip`).
  A later date is written with five year digits, of which the reader takes four.
- The cookable query is right only because stock has one row for each name and dimension
  (`Listings.AntiJoinNeedsUniqueStock` gives tables where it is wrong).
- A PUT that answers 404, 500 or 503 may have been applied. Runs that do this exist for every capacity,
  every consistent store and every update the store accepts (`PutReplies.AppliedProductPutAnswers`,
  `PutReplies.AppliedRecipePutAnswers`). After an applied update the reply is 503 exactly when the fetch
  was decided at a full queue before any stop, 500 exactly when it was decided under the stop flag
  (`PutReplies.PutProductOtherReplies`, `PutReplies.PutRecipeOtherReplies`), and 404 exactly when a delete
  of the same id succeeded in between (`PutReplies.PutProductMissesExactly`,
  `PutReplies.PutRecipeMissesExactly`).
- Swapping the two output paths on the command line is refused although the final paths differ
  (`Args.TransientClash`). Parsing succeeds exactly when every token is valid and no value flag leaves
  the paths equal at that point (`Args.ParseArgs`).
- `README.md` of the program lists `--db-path <path>` and `--full`; the code accepts only
  `--db-path=<path>` and `--full-info`. The model follows the code. The code also accepts a switch
  with an empty value, as in `--json=`.
- `ErrorCode::Conflict` is never produced; a taken name or key is reported as `Storage`
  (`ServiceSpec.OutcomeExactly`).

## Model

| member | source | states |
|---|---|---|
| `Calendar.YearStartStep` | src/db/DBManager.cpp:38-43 | The closed form for days before a year counts exactly the Gregorian leap years: each year adds 365 or 366 days |
| `Calendar.CivilOfDay` | src/db/DBManager.cpp:38-43 | Every day number from 0000-01-01 on is some real calendar date with that day number |
| `Calendar.DayNumberInjective` | src/db/DBManager.cpp:38-51 | Two real calendar dates with the same day number are the same date |
| `Calendar.CivilRoundTrip` | src/db/DBManager.cpp:38-51 | Day numbers and real calendar dates correspond one to one |
| `Calendar.EpochAnchor` | src/db/DBManager.cpp:38-51 | Day 0 is 1970-01-01 |
| `Calendar.FirstDayAnchor` | src/db/DBManager.cpp:38-51 | The first day of a date column is 0000-01-01 |
| `Calendar.LastDayAnchor` | src/db/DBManager.cpp:38-51 | The last day of a date column is 9999-12-31 |
| `Calendar.DateTextReadsBack` | src/db/DBManager.cpp:45-51 | `YYYY-MM-DD` text of any real date up to year 9999 parses to that date's day number |
| `Calendar.LongYearFails` | src/db/DBManager.cpp:45-51 | Text of a year with five or more digits never parses |
| `Calendar.DateRoundTrip` | src/db/DBManager.cpp:38-51 | Storing a day as text and reading it gives the day back if and only if it is at most 9999-12-31, and fails otherwise; this holds for every later day, so in particular for all that `std::chrono::year` can hold |
| `Calendar.MonthsInFigures` | src/db/DBManager.cpp:38-51 | In every year, from the first of each month to the first of the next are 31, 28 or 29, 31, 30, 31, 30, 31, 31, 30, 31, 30 and 31 days, 29 exactly by the Gregorian rule |
| `Calendar.DaysInARow` | src/db/DBManager.cpp:38-51 | Within a month each day has the number after that of the day before |
| `Calendar.FieldsRead` | src/db/DBManager.cpp:45-51 | A text of four, two and two digits is read as the date its fields spell when that is a date, and not at all otherwise |
| `Calendar.DayExists` | src/db/DBManager.cpp:45-51 | A text `YYYY-MM-DD` is accepted if and only if its month is 1 to 12 and its day at most the last day of that month, written out in figures |
| `Calendar.TextRoundTrip` | src/db/DBManager.cpp:38-51 | A text in this form that is read as a day is also how that day is written |
| `Calendar.MayDay` | src/db/DBManager.cpp:38-51 | Day 120 is written and read as 1970-05-01 |
| `Decimal.ValueIsPositional` | src/db/DBManager.cpp:38-51 | Digits count in tens, most significant first |
| `Decimal.ValueOfDigit` | src/db/DBManager.cpp:38-51 | A single digit has its own value |
| `Decimal.PrintOfValue` | src/db/DBManager.cpp:38-43 | Reading digits and printing the number padded to as many places gives the same digits |
| `Tables.DateColumnRoundTrip` | src/db/DBManager.cpp:53-92 | An optional date column reads back as bound, NULL included |
| `Tables.ProductRoundTrip` | src/db/DBManager.cpp:53-92 | Name, amount, dimension and both optional dates of a product survive being bound to a row and read from it |
| `Ordering.OrderBy` | include/types/SQL/Types.hpp:55-59 | An ordered SELECT returns every row of the set exactly once, never out of order, ties in any order |
| `Ordering.ListingUnique` | include/types/SQL/Types.hpp:110-115 | When no two rows tie, ORDER BY leaves only one possible result |
| `Ordering.FilterListing` | include/types/SQL/Types.hpp:133-148 | Keeping some rows of an ordered result is the ordered result of the kept set |
| `Ordering.TextTotal` | include/types/SQL/Types.hpp:110-115 | Text order is total, and only equal texts tie |
| `Ordering.TextTransitive` | include/types/SQL/Types.hpp:110-115 | Text order is transitive |
| `Ordering.TextOrderMeaning` | include/types/SQL/Types.hpp:110-115 | Text order character by character: a text comes before its extensions, and by the smaller character at the first place where two texts differ |
| `StoreSpec.InsertProductMeetsSpec` | include/types/SQL/Types.hpp:41-48 | The upsert is refused exactly for a negative amount; otherwise the row holding the key, or a fresh one, gets all fields of the product |
| `StoreSpec.CreateProductMeetsSpec` | include/types/SQL/Types.hpp:50-53 | The plain insert is refused exactly for a negative amount or a taken (name, dimension); otherwise a fresh id gets the product |
| `StoreSpec.UpdateProductMeetsSpec` | include/types/SQL/Types.hpp:67-71 | The update changes one row exactly when the id exists and neither the CHECK nor the key of another row refuses it |
| `StoreSpec.DeleteProductMeetsSpec` | include/types/SQL/Types.hpp:73-75 | One row counts as changed exactly when the id existed, and nothing else moves |
| `StoreSpec.DeleteRecipeMeetsSpec` | include/types/SQL/Types.hpp:129-131 | Deleting a recipe cascades to exactly its own ingredient rows |
| `StoreSpec.InsertRecipeIfAbsentMeetsSpec` | include/types/SQL/Types.hpp:77-87 | INSERT OR IGNORE and the SELECT by name that follows it find exactly one id, old or fresh, under that name |
| `StoreSpec.CreateRecipeMeetsSpec` | include/types/SQL/Types.hpp:81-83 | A recipe insert is refused exactly when the name is taken; otherwise its fresh id becomes the largest issued |
| `StoreSpec.UpdateRecipeNameMeetsSpec` | include/types/SQL/Types.hpp:125-127 | Renaming changes one row exactly when the id exists and no other recipe has the name |
| `StoreSpec.DeleteIngredientsMeetsSpec` | include/types/SQL/Types.hpp:89-92 | Deleting by recipe id leaves the recipe with no ingredients and every other row in place |
| `StoreSpec.InsertIngredientMeetsSpec` | include/types/SQL/Types.hpp:94-100 | Inserting one more ingredient equals taking one more list element into account, the last amount of a key winning |
| `SchemaInvariant.WithProductSound` | include/types/SQL/Types.hpp:11-21 | Writing a product under an old or a fresh id keeps every constraint when its amount is not negative and no other row has its key |
| `SchemaInvariant.WithRecipeSound` | include/types/SQL/Types.hpp:23-39 | Writing a recipe with its ingredient rows keeps every constraint when the name is free and no amount is negative |
| `SchemaInvariant.WithoutRecipeSound` | include/types/SQL/Types.hpp:30-39 | After a cascading delete no ingredient row is left without its recipe |
| `SchemaInvariant.PerformSound` | src/db/DBManager.cpp:160-325 | Every operation of the store keeps uniqueness, checks and references, and new ids lie above every id ever committed |
| `SchemaInvariant.EveryRunConsistent` | include/types/SQL/Types.hpp:11-39 | The schema holds after every sequence of operations |
| `SchemaInvariant.NoIdReissued` | include/types/SQL/Types.hpp:11-28 | Over every run, an id that was committed and is gone at some later time is never used again |
| `Listings.GroupBlocks` | src/db/DBManager.cpp:337-366 | Folding the blocks of recipes with distinct ids gives one recipe for each block, in order, with exactly its ingredients |
| `Listings.BlocksListing` | include/types/SQL/Types.hpp:110-115 | The LEFT JOIN ordered by recipe name and ingredient is the blocks of the recipes in name order, an empty recipe as one NULL row |
| `Listings.JoinAntisymmetric` | include/types/SQL/Types.hpp:110-123 | Unique names and ingredient keys leave no ties among join rows |
| `Listings.SelectionReads` | src/db/DBManager.cpp:337-366 | For any kept set of recipes, any rows the database may return group to those recipes |
| `Listings.ListingAllReads` | include/types/SQL/Types.hpp:110-115 | Whatever permitted row order the full listing has, the fold of its rows is all recipes by name |
| `Listings.AllRecipesShape` | include/types/SQL/Types.hpp:110-115 | The full listing has one entry for each stored id and no other, names strictly increasing |
| `Listings.ListingByIdReads` | include/types/SQL/Types.hpp:117-123 | The listing of one id folds to that recipe, or to nothing when the id is absent |
| `Listings.ListingIngredientsReads` | include/types/SQL/Types.hpp:102-108 | The ingredients of one recipe can come back in only one order |
| `Listings.AntiJoinMeaning` | include/types/SQL/Types.hpp:133-148 | On any tables, NOT EXISTS over LEFT JOIN with IS NULL OR < holds exactly when each ingredient has a matching product and every match is enough |
| `Listings.AntiJoinNeedsUniqueStock` | include/types/SQL/Types.hpp:19 | Without UNIQUE(name, dimension) there are tables where the query hides a recipe that stock covers |
| `Listings.CookableMeaning` | include/types/SQL/Types.hpp:133-148 | On consistent tables the anti-join selects a recipe if and only if every ingredient, as read back, is in stock; a recipe without ingredients qualifies |
| `Listings.ListingCookableReads` | include/types/SQL/Types.hpp:133-148 | The cookable listing is the full listing filtered by stock coverage, in the same order |
| `Views.KeyedRowsListing` | include/types/SQL/Types.hpp:102-108 | Reading the stored rows of one recipe lists its distinct ingredient keys in key order |
| `Views.WithRecipeReads` | src/db/DBManager.cpp:268-325 | A written recipe reads back normalized; every other recipe and all products read back unchanged |
| `Views.WithoutRecipeReads` | src/db/DBManager.cpp:303-308 | A deleted recipe reads as absent; every other recipe and all products read back unchanged |
| `Views.CreateRecipeReadsBack` | src/db/DBManager.cpp:268-286 | After a create, the new id, unused before, reads as the given name with duplicates collapsed to the last amount, sorted, without ids and dates |
| `Views.UpdateRecipeAtomic` | src/db/DBManager.cpp:288-325 | An update replaces name and whole ingredient list under the same id, or leaves the store as it was for an absent id, a taken name or a bad amount; other recipes and products are untouched either way |
| `Views.WithProductReads` | src/db/DBManager.cpp:174-196 | A written product reads back with every field and both dates; no other product and no recipe changes |
| `Views.WithoutProductReads` | src/db/DBManager.cpp:198-203 | A deleted product reads as absent; nothing else changes |
| `Views.CreateProductReadsBack` | src/db/DBManager.cpp:174-188 | After a create, the new id, unused before, reads as the product that was given, and every other product as before |
| `Views.InsertProductsMeaning` | src/db/DBManager.cpp:160-172 | A product batch succeeds if and only if no amount is negative; then each key holds the last product of the list with that key, under its old id or one above every id issued before the batch, and other keys are untouched; a failed batch changes nothing |
| `Views.InsertRecipesMeaning` | src/db/DBManager.cpp:232-266 | A recipe batch succeeds if and only if no amount is negative; then each name holds the last recipe with that name, under its old id or one above every id issued before the batch; a failed batch changes nothing, and products never change |
| `Readings.DimensionOrder` | include/types/kitchen/Types.hpp:20 | Dimensions are stored and ordered as gramm, kilogramm, milliliter, liter, piece |
| `Readings.NormalizedKeepsLast` | include/types/SQL/Types.hpp:94-108 | Of each (name, dimension) in a written list exactly the element with no later one of that key comes back, once, in order, without id and dates, and nothing else |
| `Readings.CreatedRecipeKeepsLast` | src/db/DBManager.cpp:268-286 | After a create the new id reads back with the given name and, of each key, the last amount in the list; a refused create changes nothing |
| `Readings.UpdatedRecipeKeepsLast` | src/db/DBManager.cpp:288-325 | After an update the id reads back with the given name and, of each key, the last amount in the list; otherwise nothing changes |
| `Readings.RecipeBatchKeepsLast` | src/db/DBManager.cpp:249-266 | After a batch the last recipe of each name reads back with its last amounts, under the id that name had |
| `Readings.ProductBatchKeepsLast` | src/db/DBManager.cpp:166-172 | After a batch the last product of each key reads back with all its fields, under the id that key had |
| `Readings.ProductCommands` | src/db/DBManager.cpp:160-203 | What each product command of a run makes readable, from its arguments and the rows it meets; recipe commands leave every product as it was |
| `Readings.RecipeCommands` | src/db/DBManager.cpp:232-308 | What each recipe command of a run makes readable, with the last amount of each key; product commands leave every recipe as it was |
| `Readings.FetchedProductShowsRow` | src/db/DBManager.cpp:72-92 | A fetched product is the row of its id, column by column, and absent exactly when there is no such row |
| `Readings.FetchedRecipeShowsRows` | src/db/DBManager.cpp:279-286 | A fetched recipe is the row of its id with every ingredient row of that id once, by name and dimension, and absent exactly when there is no such row |
| `Readings.AllRecipesByName` | include/types/SQL/Types.hpp:110-115 | The full listing shows each stored id once as it reads by itself, names strictly increasing character by character |
| `Readings.CookableByName` | include/types/SQL/Types.hpp:133-148 | The cookable listing shows an id if and only if each of its ingredients has a product row with its name and dimension and at least its amount; names strictly increasing |
| `Readings.ProductsByAmount` | include/types/SQL/Types.hpp:55-59 | A product listing shows every product once with amounts that never fall |
| `DBManager.DBManager.constructor` | include/types/SQL/Types.hpp:11-39 | A new database is empty and consistent |
| `DBManager.DBManager.InsertProduct` | src/db/DBManager.cpp:160-164 | New database and thrown exception are those of the upsert's specification |
| `DBManager.DBManager.InsertProducts` | src/db/DBManager.cpp:166-172 | The loop in a transaction equals the fold of single upserts, rolled back as a whole at the first refusal |
| `DBManager.DBManager.CreateProduct` | src/db/DBManager.cpp:174-179 | Returns the fresh id, or throws and changes nothing when the key is taken or the amount negative |
| `DBManager.DBManager.GetProduct` | src/db/DBManager.cpp:181-188 | Returns the product stored under the id if there is one |
| `DBManager.DBManager.UpdateProduct` | src/db/DBManager.cpp:190-196 | True exactly when the id was there and is now rewritten; throws and changes nothing on a violated constraint |
| `DBManager.DBManager.DeleteProduct` | src/db/DBManager.cpp:198-203 | True exactly when the id was there; only that product goes |
| `DBManager.DBManager.GetAllProducts` | src/db/DBManager.cpp:205-213 | Every product exactly once, amounts ascending, equal amounts in any order |
| `DBManager.DBManager.GetRecipeIngredients` | src/db/DBManager.cpp:215-230 | The ingredients of the recipe in (name, dimension) order |
| `DBManager.DBManager.InsertRecipe` | src/db/DBManager.cpp:232-247 | The transaction gives the whole effect of the recipe upsert or none |
| `DBManager.DBManager.InsertRecipes` | src/db/DBManager.cpp:249-266 | The loop in a transaction equals the fold of single recipe upserts, rolled back as a whole at the first refusal |
| `DBManager.DBManager.CreateRecipe` | src/db/DBManager.cpp:268-277 | Returns the fresh id with recipe and ingredients stored, or throws and changes nothing |
| `DBManager.DBManager.GetRecipe` | src/db/DBManager.cpp:279-286 | The recipe stored under the id with its sorted ingredients, or nothing |
| `DBManager.DBManager.UpdateRecipe` | src/db/DBManager.cpp:288-301 | Name and ingredients change together under the same id or the database is unchanged; false exactly for an absent id |
| `DBManager.DBManager.DeleteRecipe` | src/db/DBManager.cpp:303-308 | True exactly when the id was there; the recipe goes with its ingredient rows and nothing else |
| `DBManager.DBManager.ReplaceRecipeIngredients` | src/db/DBManager.cpp:310-325 | Succeeds exactly when no amount is negative, leaving the list collapsed to last amounts; otherwise it stops at the first negative amount, with exactly the ingredients before it written |
| `DBManager.DBManager.GetAllRecipes` | src/db/DBManager.cpp:327-329 | Every recipe once, by name, with its own sorted ingredients |
| `DBManager.DBManager.GetCookableRecipes` | src/db/DBManager.cpp:331-333 | The full listing filtered by "every ingredient is in stock" |
| `DBManager.DBManager.FetchRecipes` | src/db/DBManager.cpp:337-366 | The loop with the sentinel -1 groups neighbouring rows with the same id, for rows that never carry the sentinel |
| `SqliteRecipeRepository.SqliteRecipeRepository.CreateProduct` | src/app/SqliteRecipeRepository.cpp:33-46 | Succeeds with the product as given plus its new id; "Created product was not found" is never returned |
| `SqliteRecipeRepository.SqliteRecipeRepository.GetProducts` | src/app/SqliteRecipeRepository.cpp:57-64 | Always succeeds with a listing of all products by amount |
| `SqliteRecipeRepository.SqliteRecipeRepository.UpdateProduct` | src/app/SqliteRecipeRepository.cpp:66-73 | A thrown constraint violation becomes a Storage error, everything else passes through |
| `SqliteRecipeRepository.SqliteRecipeRepository.DeleteProduct` | src/app/SqliteRecipeRepository.cpp:75-82 | Passes on whether the product was there; the store changes as specified |
| `SqliteRecipeRepository.SqliteRecipeRepository.CreateRecipe` | src/app/SqliteRecipeRepository.cpp:84-97 | Succeeds with the recipe normalized under its new id; "Created recipe was not found" is never returned |
| `SqliteRecipeRepository.SqliteRecipeRepository.UpdateRecipe` | src/app/SqliteRecipeRepository.cpp:125-132 | A thrown constraint violation becomes a Storage error, everything else passes through |
| `SqliteRecipeRepository.SqliteRecipeRepository.DeleteRecipe` | src/app/SqliteRecipeRepository.cpp:134-141 | Passes on whether the recipe was there; the store changes as specified |
| `RecipeService.RecipeService.CreateProduct` | src/app/RecipeService.cpp:21-27 | New store and reply are those of the POST product use case |
| `RecipeService.RecipeService.GetProduct` | src/app/RecipeService.cpp:29-32 | Reply is that of the GET product use case, which changes nothing |
| `RecipeService.RecipeService.GetProducts` | src/app/RecipeService.cpp:34-36 | Reply is that of the list use case for some permitted order of equal amounts |
| `RecipeService.RecipeService.UpdateProduct` | src/app/RecipeService.cpp:38-52 | New store and reply are those of the PUT product use case |
| `RecipeService.RecipeService.DeleteProduct` | src/app/RecipeService.cpp:54-64 | New store and reply are those of the DELETE product use case |
| `RecipeService.RecipeService.CreateRecipe` | src/app/RecipeService.cpp:66-71 | New store and reply are those of the POST recipe use case |
| `RecipeService.RecipeService.GetRecipe` | src/app/RecipeService.cpp:73-76 | Reply is that of the GET recipe use case |
| `RecipeService.RecipeService.GetRecipes` | src/app/RecipeService.cpp:78-80 | Reply is the full listing |
| `RecipeService.RecipeService.GetCookableRecipes` | src/app/RecipeService.cpp:82-84 | Reply is the cookable listing |
| `RecipeService.RecipeService.UpdateRecipe` | src/app/RecipeService.cpp:86-100 | New store and reply are those of the PUT recipe use case |
| `RecipeService.RecipeService.DeleteRecipe` | src/app/RecipeService.cpp:102-112 | New store and reply are those of the DELETE recipe use case |
| `RecipeService.RecipeService.ValidateProduct` | src/app/RecipeService.cpp:114-125 | No fault exactly when the name is not empty and the amount not negative; the name is checked first |
| `RecipeService.RecipeService.ValidateRecipe` | src/app/RecipeService.cpp:127-138 | No fault exactly when the name is not empty and every ingredient is valid; the fault is that of the first faulty ingredient |
| `ServiceSpec.IngredientFaultMeaning` | src/app/RecipeService.cpp:127-138 | A list has a fault exactly when some ingredient is invalid, and it is a validation error |
| `ServiceSpec.OutcomeExactly` | src/app/RecipeService.cpp:21-138 | For every request: Validation if and only if a name is empty or an amount negative, else NotFound if and only if the target is absent, else Storage if and only if another row holds the unique key; Conflict and Overloaded never; a failed request leaves the store unchanged |
| `ServiceSpec.SuccessExactly` | src/app/RecipeService.cpp:21-112 | What a successful request makes readable under its id, that a created id was never issued before, and that every other product and recipe reads as before |
| `ServiceSpec.ServeSound` | src/app/RecipeService.cpp:21-112 | Every request keeps the schema and issues only ids above all earlier ones |
| `ServiceSpec.EveryListingIsAChoice` | include/types/SQL/Types.hpp:55-59 | Every product order that ORDER BY amount allows is a reply the list use case may give |
| `Replies.ReadsReply` | src/app/RecipeService.cpp:29-84 | What each read replies, from the tables: the row fetched or nothing, every product by amount, every recipe by name, the recipes that stock covers; the store stays |
| `Replies.ProductWritesDecide` | src/app/RecipeService.cpp:21-64 | Each product write is refused as invalid if and only if the name is empty or the amount negative, else as not found if and only if no row has the id, else as a storage error if and only if another row has the name and dimension; a refusal changes nothing |
| `Replies.RecipeWritesDecide` | src/app/RecipeService.cpp:66-112 | Each recipe write is refused as invalid if and only if a name is empty or an amount negative, else as not found if and only if no row has the id, else as a storage error if and only if another row has the name; a refusal changes nothing |
| `Replies.CreateReplies` | src/app/RecipeService.cpp:21-71 | A create replies what a later fetch of the new id shows: the product with all its fields, the recipe with the last amount of each key |
| `Replies.RefusalTexts` | src/app/RecipeService.cpp:38-138 | The messages of refusals, an empty name being reported before a negative amount |
| `Replies.FirstFaulty` | src/app/RecipeService.cpp:127-138 | A recipe with a name is refused with the message about its first faulty ingredient |
| `Replies.SchemaAfterRun` | include/types/SQL/Types.hpp:11-39 | After every sequence of operations, row by row: positive ids, unique ids, keys and names, no negative amounts, one row for each ingredient key, and no ingredient without its recipe |
| `Executor.LockKept` | include/app/DatabaseExecutor.hpp:110-136 | Every step keeps mutual exclusion: a thread is inside its critical section exactly while it is the mutex owner |
| `Executor.QueueKept` | src/app/DatabaseExecutor.cpp:30-43 | Every step keeps the queue within its capacity and equal to the accepted operations not yet started |
| `Executor.WakeKept` | src/app/DatabaseExecutor.cpp:33-52 | Every step keeps: a worker asleep with work or a stop request before it has its notify still to come |
| `Executor.StoreKept` | src/app/DatabaseExecutor.cpp:39-42 | Every step keeps the store equal to the fold of the operations applied so far |
| `Executor.CallKept` | include/app/DatabaseExecutor.hpp:110-135 | Every step keeps: a call that was not accepted has a reply exactly from its rejection on, and only "stopping" or "queue is full" |
| `Executor.AnswerKeptByDeliver` | include/app/DatabaseExecutor.hpp:122-133 | When the worker sets a promise it was not set before, and it gets the fold's reply |
| `Executor.ReplyPrefix` | include/app/DatabaseExecutor.hpp:122-133 | What an operation answers does not depend on operations accepted after it |
| `Executor.InvKept` | include/app/DatabaseExecutor.hpp:96-192 | Every step of every thread keeps all invariants |
| `Executor.Reachable` | src/app/DatabaseExecutor.cpp:15-52 | All invariants hold in every state any interleaving can reach from a start with positive capacity |
| `ExecutorTheorems.ConcurrentRunsLinearize` | include/app/DatabaseExecutor.hpp:98-192 | The store is the fold of a prefix of the accepted operations, each accepted call has the reply of its place in that order, the place lies within its call interval, real-time order is respected, and any other reply is a rejection |
| `ExecutorTheorems.StoreKeepsProperty` | src/app/DatabaseExecutor.cpp:29-44 | A property that every submitted operation keeps holds of the store in every reachable state |
| `ExecutorTheorems.Conservation` | include/app/DatabaseExecutor.hpp:110-135 | Each call is in exactly one of: undecided, rejected, queued, in progress, completed; pending work never exceeds the capacity |
| `ExecutorTheorems.RepliesAreFinal` | include/app/DatabaseExecutor.hpp:105-133 | A promise is set at most once: no step changes or removes a reply |
| `ExecutorTheorems.StartsInOrder` | src/app/DatabaseExecutor.cpp:39-42 | Operations start one at a time, in acceptance order, each only after the reply of the one before |
| `ExecutorTheorems.NoneAdmittedAfterStop` | include/app/DatabaseExecutor.hpp:111-115 | Once the stop flag is set it stays set, and no later step admits an operation |
| `ExecutorTheorems.NoLostWakeup` | src/app/DatabaseExecutor.cpp:33-52 | If the worker sleeps while there is work or a stop request, the caller holding the mutex or the stopper can still notify it |
| `ExecutorTheorems.QuietMeansDone` | src/app/DatabaseExecutor.cpp:29-52 | No deadlock, and draining on shutdown: when no thread can move, every call has its reply, every accepted operation has run, and the worker has exited if told to stop |
| `ExecutorTheorems.WorkFalls` | src/app/DatabaseExecutor.cpp:29-52 | Every internal step lowers the work left; a new call, a stop and a spurious wakeup add a fixed amount |
| `ExecutorTheorems.RunsEnd` | src/app/DatabaseExecutor.cpp:29-52 | In every run all threads together take at most as many steps as the work there was plus a fixed amount for each new call, stop and spurious wakeup, so a run left alone ends |
| `ExecutorTheorems.DrainFalls` | src/app/DatabaseExecutor.cpp:29-52 | Under the stop flag no step of any thread, new calls and spurious wakeups included, raises the number of steps the worker has left, and each worker step lowers it |
| `ExecutorTheorems.WorkerDrains` | src/app/DatabaseExecutor.cpp:29-52 | However many calls keep arriving after the stop flag is set, the worker takes at most a number of steps fixed when it was set |
| `ExecutorTheorems.StoppingWorkerNotStuck` | src/app/DatabaseExecutor.cpp:33-52 | Until it has exited, a stopping worker can step, or the holder of the mutex can, or the notify of `Stop` is enabled |
| `ExecutorTheorems.ExitedMeansDrained` | src/app/DatabaseExecutor.cpp:36-43 | When the worker has exited, the queue is empty, every accepted operation has run in order, and every accepted call has its reply |
| `Admission.DecisionStands` | include/app/DatabaseExecutor.hpp:110-136 | What the stop flag and the queue decide for a call under the mutex is its outcome in every later state of the run |
| `Admission.AdmissionExactly` | include/app/DatabaseExecutor.hpp:110-135 | In every run a call past its decision was refused as full if and only if it was decided at a queue at capacity before any stop, refused as stopping if and only if it was decided under the stop flag, and accepted if and only if neither |
| `Scenarios.Refusing` | include/app/DatabaseExecutor.hpp:110-120 | From every reachable state with the mutex free and the queue full or the stop flag set, a call can be refused at once, with store and accepted operations as they were |
| `ServiceRuns.RequestsKeepSchema` | include/app/DatabaseExecutor.hpp:122-133 | Every submitted request is an operation that keeps the schema from any consistent store |
| `ServiceRuns.ConcurrentRunsConsistent` | include/types/SQL/Types.hpp:11-39 | The schema holds in every reachable state of every interleaving |
| `ServiceRuns.OtherRequestsLeaveProduct` | src/app/RecipeService.cpp:21-112 | A request other than an update or delete of a product never changes how that product reads |
| `ServiceRuns.OtherRequestsLeaveRecipe` | src/app/RecipeService.cpp:21-112 | A request other than an update or delete of a recipe never changes how that recipe reads |
| `ServiceRuns.PutProductInterleaved` | src/server/Router.cpp:369-397 | A PUT whose update succeeded took effect at its place i; a 200 body shows the product at a later place j, and shows what was written if nothing accepted in between touches that product |
| `ServiceRuns.PutRecipeInterleaved` | src/server/Router.cpp:541-570 | The same for recipes, the body showing the normalized recipe |
| `PutReplies.PutProductOtherReplies` | src/server/Router.cpp:387-397 | After an applied update of a product the reply is 503 if and only if the fetch was decided at a full queue before any stop, 500 if and only if it was decided under the stop flag, 404 if and only if the product is gone at the place of the fetch, and 200 otherwise |
| `PutReplies.PutProductMissesExactly` | src/server/Router.cpp:387-397 | When every call is a request, the reply after an applied update is 404 if and only if a delete of that product succeeded at a place strictly between the update and the fetch |
| `PutReplies.GoneProductWasDeleted` | src/server/Router.cpp:416-441 | A product that is there at one place and gone at a later one was deleted by a successful request in between |
| `PutReplies.DeleteProductBetween` | src/server/Router.cpp:416-441 | A delete that succeeded makes every later fetch of that product 404, whatever is accepted afterwards |
| `PutReplies.AppliedProductPutAnswers` | src/server/Router.cpp:369-397 | For every capacity, consistent store and update of a product that the store accepts, there are runs of requests in which it is applied and answered 200, 404, 500 and 503 |
| `PutReplies.PutRecipeOtherReplies` | src/server/Router.cpp:560-570 | After an applied update of a recipe the reply is 503 if and only if the fetch was decided at a full queue before any stop, 500 if and only if it was decided under the stop flag, 404 if and only if the recipe is gone at the place of the fetch, and 200 otherwise |
| `PutReplies.PutRecipeMissesExactly` | src/server/Router.cpp:560-570 | When every call is a request, the reply after an applied update is 404 if and only if a delete of that recipe succeeded at a place strictly between the update and the fetch |
| `PutReplies.GoneRecipeWasDeleted` | src/server/Router.cpp:589-614 | A recipe that is there at one place and gone at a later one was deleted by a successful request in between |
| `PutReplies.DeleteRecipeBetween` | src/server/Router.cpp:589-614 | A delete that succeeded makes every later fetch of that recipe 404, whatever is accepted afterwards |
| `PutReplies.AppliedRecipePutAnswers` | src/server/Router.cpp:541-570 | For every capacity, consistent store and update of a recipe that the store accepts, there are runs of requests in which it is applied and answered 200, 404, 500 and 503 |
| `PutOutcomes.ErrorStatuses` | src/server/Router.cpp:152-183 | Validation is 422, not found 404, conflict 409, storage 500, overloaded 503, each with its code, for both resources |
| `PutOutcomes.ErrorMessages` | src/server/Router.cpp:178-183 | A client sees the message of the error, except that a storage error is not passed on |
| `PutOutcomes.PutProductFirstStep` | src/server/Router.cpp:387-397 | In every run the first step of a product PUT replies 503 if it met a full queue, 500 if it met the stop flag, and otherwise 422, 404 or 500 exactly as name, amount, id and key decide against the store at its place; a refused update changes nothing |
| `PutOutcomes.PutRecipeFirstStep` | src/server/Router.cpp:560-570 | The same for a recipe PUT, with the names and amounts of the recipe and its ingredients |
| `PutOutcomes.DimensionTexts` | include/types/kitchen/Types.hpp:68-83 | Dimensions are shown as gr, kg, ml, l and pc |
| `PutOutcomes.FetchProductBody` | src/server/Router.cpp:416-441 | A GET of a product is 404 if and only if no row has the id; else 200 with that id and the name, amount and dimension of the row |
| `PutOutcomes.FetchRecipeBody` | src/server/Router.cpp:589-614 | A GET of a recipe is 404 if and only if no row has the id; else 200 with that id, the name, and every ingredient in its place |
| `PutOutcomes.WrittenProductBody` | src/server/Router.cpp:369-397 | A 200 reply to a PUT that nothing touched shows the id of the target and the fields that were written |
| `PutOutcomes.WrittenRecipeBody` | src/server/Router.cpp:541-570 | A 200 reply to a PUT that nothing touched shows the id of the target, the name, and of each ingredient key the last amount that was written |
| `PutOutcomes.ThrownIsStorageError` | include/app/DatabaseExecutor.hpp:124-132 | An accepted operation that throws in its turn is answered with a storage error holding the text of the exception, or a fixed text for an unknown one |
| `Cooking.CookableIsListed` | include/types/SQL/Types.hpp:133-148 | A recipe id is cookable if and only if the cookable listing contains it |
| `Cooking.MoreStockCooksMore` | include/types/SQL/Types.hpp:133-148 | If recipes stay and no (name, dimension) has less in stock, no cookable recipe is lost |
| `Cooking.CookableGrows` | include/types/SQL/Types.hpp:133-148 | Over any accepted sequence of which no operation lowers stock or changes recipes, the cookable set only grows |
| `Cooking.CookableGrowsInRuns` | include/types/SQL/Types.hpp:133-148 | In every reachable state of every interleaving: if each operation applied is a read, a product create, or a PUT that in its turn keeps its product's key and does not lower its amount, every recipe cookable at the start still is |
| `Cooking.UpsertSetsAmount` | include/types/SQL/Types.hpp:41-48 | An upsert replaces the amount: it never lowers stock if and only if the new amount is at least the one held under that key |
| `Cooking.UpdateKeepsStock` | include/types/SQL/Types.hpp:67-71 | An update by id keeps stock if and only if the key stays and the amount does not fall |
| `Cooking.RequestsThatKeepStock` | src/app/RecipeService.cpp:21-36 | Creating products and every read keep stock |
| `Http.DimensionRoundTrip` | src/server/Router.cpp:76-94 | Exactly the text written for a dimension is read back as that dimension |
| `Http.ToRecipeResponse` | src/server/Router.cpp:141-150 | The loop fills one ingredient view for each ingredient, in order |
| `Http.ParseRecipe` | src/server/Router.cpp:219-242 | Refused with 400 and the reader's message when the body cannot be read, with 422 exactly when some ingredient has an unknown dimension; otherwise the name and, place by place, each ingredient's name, amount and dimension are those of the request, without ids and dates |
| `Router.IdAccepted` | src/server/Router.cpp:45-74 | A target names an id if and only if its suffix is all digits with a value from 1 to 2^63 - 1 |
| `Router.IdRoundTrip` | src/server/Router.cpp:45-74 | For all ids from 1 to 2^63 - 1, printing after the prefix and parsing gives the id back |
| `Router.CookableHasNoId` | src/server/Router.cpp:60-65 | The cookable target never names a recipe or product id |
| `Router.AllowTexts` | src/server/Router.cpp:267-295 | The Allow texts in the code are the lists of methods that have a handler |
| `Router.DispatchIsTable` | src/server/Router.cpp:616-676 | For every target and method the handlers decide what a plain route table says; no id is taken from an empty optional, and each 405 on a product or recipe resource lists exactly the methods with a handler |
| `Router.ItemRoutes` | src/server/Router.cpp:616-676 | For every id from 1 to 2^63 - 1, in literal targets: GET, PUT and DELETE of a product or recipe reach their handlers with that id, any other method is 405 with `GET, PUT, DELETE` |
| `Router.CollectionRoutes` | src/server/Router.cpp:251-300 | In literal targets: the methods of the collections, of the cookable listing and of the health check, and 405 with the matching Allow list for every other method |
| `Router.OtherTargets` | src/server/Router.cpp:296-300 | Every other target is not found, whatever the method |
| `Args.FlagNamed` | src/io/args/Args.cpp:65-72 | An option names at most one flag, and exactly the one with that name |
| `Args.SplitJoined` | src/io/args/Args.cpp:74-81 | Splitting at the first `=` is the inverse of joining an option without `=` and a value |
| `Args.JoinedNamesFlag` | src/io/args/Args.cpp:83-102 | Name, `=` and a non-empty value always make a valid token for that value flag with that value |
| `Args.FormsValid` | src/io/args/Args.cpp:83-102 | For every flag: a switch or command is valid alone or followed by `=`, and invalid with a value; a value flag is valid exactly with a value |
| `Args.ValidExactly` | src/io/args/Args.cpp:83-102 | A token is valid if and only if it is one of these forms of some flag |
| `Args.MustStartWithDash` | src/io/args/Args.cpp:84-86 | A token that does not start with `-` is invalid |
| `Args.NamesInText` | src/io/args/Args.cpp:40-63 | The names of all flags |
| `Args.SwitchEffects` | src/io/args/Args.cpp:104-138 | What each switch and each command does alone, by its text: the one setting it sets, every other setting as before |
| `Args.ValueEffects` | src/io/args/Args.cpp:140-163 | What each value flag does alone, by its text: its path takes the value, and parsing fails if and only if the two output paths are then the same |
| `Args.NoArguments` | include/io/args/Args.hpp:33-46 | Without arguments every setting has its default |
| `Args.SamePathMeaning` | src/io/args/Args.cpp:156-161 | Writing a slash twice does not change a path, and between paths without doubled slashes every difference counts |
| `Args.Args.SetBoolFlag` | src/io/args/Args.cpp:104-138 | Each switch ends on or off as the flag says, and every other setting stays |
| `Args.Args.SetValueFlag` | src/io/args/Args.cpp:140-163 | The named path takes the value, the others stay; an error exactly when the two output paths are then equal |
| `Args.LastSettingsSnoc` | src/io/args/Args.cpp:189-220 | Taking one more token into account equals updating the settings with its flag |
| `Args.ParseArgs` | src/io/args/Args.cpp:185-223 | Succeeds if and only if every token is valid and no value flag leaves the output paths equal at that point; then each setting is that of its last setting flag or the default; otherwise the error is about the first token that stops the parse |
| `Args.DefaultPathsDiffer` | include/io/args/Args.hpp:38-45 | The default output paths are different paths for any output directory |
| `Args.SuccessKeepsPathsApart` | src/io/args/Args.cpp:156-161 | After every successful parse the two output paths differ |
| `Args.TransientClash` | src/io/args/Args.cpp:156-161 | Exchanging the two output paths by flags is always refused at the first flag, though both tokens are valid and the final paths differ |

## Left out

- Executor: modelled as a transition system on values, not as a class; a class method cannot be interrupted between two of its own steps, and interleaving is what the model is about.
- One call of `Stop`: the destructor is its only caller, so no second stopper is modelled.
- Exceptions thrown by allocation, by setting a promise or by posting a completion; delivering a reply always succeeds.
- SQLite itself: locks, disk failures, statement objects and their state after an error; a statement is atomic, and a transaction that is not committed leaves no trace.
- Running out of 64-bit row ids, and ids above 2^63 - 1 inside the store: ids there are unbounded integers.
- The text of SQLite's exceptions beyond the kind of constraint that was violated.
- `Calendar.DateRoundTrip`: its days go on past 32767-12-31, the last date `std::chrono::year` holds; for later days the code's own conversion has no specified year.
- Fairness of the mutex: that a waiting worker gets it in the end is up to the platform; proved is that it, the holder, or the pending notify can always step.
- Dates before 0000-01-01, and a failed date parse, whose result the code never assigns; stored text always comes from the program itself.
- Text order: SQLite compares UTF-8 bytes, the model compares characters one by one, which is the same order for Unicode scalar values.
- Dates over HTTP: the request parser and the reply drop them, so replies are stated without dates.
- HTTP replies to creates, deletes and listings beyond their service result; replies are modelled for a GET by id and for a PUT.
- Server, sockets, TLS, coroutines, timeouts, and reading the configuration file.
- JSON and YAML reading and writing, content types, reports and console output; what the JSON reader makes of a body is the input of `Http.ParseRecipe`.
- Replies of a router that has no executor, and the missing Allow header of `/healthz`, beyond the dispatch decision.
- `Args.Flag`: the flag table is an enumeration with names, looked up once for each token, where the code compares the option text again.
- `Args.SamePath`: path equality cuts runs of slashes to one; no other difference between equal paths exists on POSIX.
- `Args.Args.constructor`: the product and recipe lists of the parsed arguments are not modelled, no flag sets them.
- The usage text, and quantities with units, which the store does not use.
