# Movie controller cache layer, modelled in Dafny

This project models the read-through cache of the movie database's movie
controller (`src/controllers/movie.controller.ts`). The five handlers are
`getAllMovies`, `getLimitedMovies`, `getMovieId`, `postMovie` and
`deleteMovies`. Each becomes a pure step function. It takes a `State` and a
logical time `now`; the state is the Redis cache plus the ORM's movie table.
It returns the reply the client receives and the state afterwards.

## Modules

- `Wrappers`: `Option` and `Result`.
- `JsNumbers`: the JavaScript conversions the handlers rely on:
  - `parseInt` without a radix, used on the `page` and `limit` query parameters;
  - `Number`, used on the `movie_id` route parameter;
  - the decimal text a template literal gives an integer, used in cache keys.
  NaN is `None`.
- `Store`: the `movies` table.
  - Records are keyed by id, and an autoincrement counter hands out new ids.
  - The queries the controller issues are: the ascending listing, a skip/take
    window, `findUnique`, `create` and `delete`.
- `Cache`: Redis as a map from keys to values that carry an absolute expiry.
  - `get` returns null once the expiry is reached.
  - `set … 'EX', 3600` writes a value with a one-hour time to live.
  - `del` removes a key.
- `Keys`: how keys are built. A page lives under `movies_page_{page}_limit_{limit}`;
  a movie lives under `movie_{id}` or `movie_{title}`.
- `Pagination`: how `page` and `limit` are normalised, and the skip formula
  `(page - 1) * limit`.
- `MovieController`: the handlers and the properties that relate them.

## How handlers are modelled

- **Early replies that do not return.** Some handlers send a reply without
  `return` (the 400 for a missing `movie_id`). The client keeps that first
  reply, and the state includes everything the rest of the handler did.
- **Cache hits.** A hit is a live, non-empty value, matching `if (cached)`.
  - A value `JSON.parse` rejects (`Corrupt`) makes the handler's catch block
    answer 500.
  - An empty string (`Blank`) counts as a miss.
- **ORM behaviour the controller depends on.**
  - A negative `skip` is a validation error, which the handler turns into a 500.
  - A negative `take` counts back from the end of the listing (`Store.Window`).
  - `delete` on a missing record throws, which gives a 500.
  - `create` takes the counter's next id and advances the counter even when
    the insert collides with an existing row.

## Behaviour of the code worth knowing

- `limit` is capped at 100, as the doc comment on `getAllMovies` says
  (`max: 100`, lines 5-6), but has no lower bound. `parseInt` of a negative
  number comes through unchanged, and past page 1 it makes the skip negative.
- A cached value that `JSON.parse` rejects gives a 500 from the catch block.
  It is not treated as a miss.
- `getMovieId` caches its response, as its doc comment asks (line 113). It
  never awaits its store query, though. So it caches the pending query object
  for every id, including ids that do not exist. See Findings.
- `deleteMovies` deletes the cache entry before the store delete, and only
  when the entry is a hit.
- The doc comment on updates asks for cache invalidation (line 250). The only
  write that invalidates anything is `deleteMovies`, and it removes only
  `movie_{id}`. Cached pages keep listing a deleted movie until they expire
  (`DeleteKeepsPageEntries`).
- `postMovie` checks `movie_{title}` before creating. Titles and ids share the
  `movie_` namespace, so a cached read of id `7` answers a later post of a
  movie titled `7` (`PostShadowedByItemRead`).
- The movie router (`src/routes/movie.route.ts`) registers `getAllMovies`
  and then `getLimitedMovies` on the same path `/getallmovie` (lines 9-10).
  `getAllMovies` always replies, so `getLimitedMovies` is never reached that
  way. `getMovieId` is registered at `/getmovieid/:movie_id` (line 11) and
  `deleteMovies` at `/deletemovie/:movie_id` (line 12). The `postMovie` route
  is commented out (line 15). `src/index.ts` mounts only the auth router
  (line 10), so the movie router itself is not mounted. The model covers each
  handler as a function, whatever its routing.

## Model

| member | source | states |
|---|---|---|
| JsNumbers.ParseRendered | src/controllers/movie.controller.ts:58-59 | `parseInt` reads back any integer written out in decimal, when the text after it starts with neither a digit nor an `x` |
| JsNumbers.ParseRenderedExactly | src/controllers/movie.controller.ts:58-59 | `parseInt` of the decimal text of an integer is that integer |
| JsNumbers.ParseInt | src/controllers/movie.controller.ts:58-59 | an absent query parameter (`undefined`) parses to NaN |
| JsNumbers.ParseText | src/controllers/movie.controller.ts:58-59 | `parseInt` gives a number only when the text, after leading whitespace, starts with a digit or a sign, and gives a negative number only after a leading `-` |
| JsNumbers.UndefinedIsNaN | src/controllers/movie.controller.ts:58-59 | `parseInt` of the text `"undefined"` is NaN |
| JsNumbers.ToNumber | src/controllers/movie.controller.ts:136 | `Number` of text that is empty after trimming is 0; otherwise it is a number exactly when the trimmed text is an optional sign followed by one or more decimal digits, and then it is their signed value |
| JsNumbers.NumberOfInt | src/controllers/movie.controller.ts:136 | `Number` of the decimal text of any integer, negative included, is that integer |
| JsNumbers.NumberOfPadded | src/controllers/movie.controller.ts:136 | `Number` ignores whitespace around the decimal text of an integer |
| JsNumbers.NumberOfRendered | src/controllers/movie.controller.ts:136 | `Number` of the decimal text of a natural number is that number |
| JsNumbers.IntStringInjective | src/controllers/movie.controller.ts:62 | different integers render as different decimal text |
| JsNumbers.DecimalStringValue | src/controllers/movie.controller.ts:62 | the rendered digits denote the number rendered |
| JsNumbers.DecimalString | src/controllers/movie.controller.ts:62 | a rendering is non-empty, all digits, and has no leading zero |
| JsNumbers.IntString | src/controllers/movie.controller.ts:62 | a rendering is non-empty and starts with `-` exactly for negative numbers |
| Pagination.NormalisePage | src/controllers/movie.controller.ts:58 | the page is at least 1: a parsed page of 1 or more is kept; NaN, 0 and negatives become 1 |
| Pagination.NormaliseLimit | src/controllers/movie.controller.ts:59 | the limit is never 0 and never above 100: NaN and 0 become 20; 1..100 are kept; above 100 becomes 100; negatives pass through |
| Pagination.Skip | src/controllers/movie.controller.ts:60 | the skip is 0 on page 1, non-negative for a non-negative limit, and negative past page 1 when the limit is negative |
| Pagination.SkipNext | src/controllers/movie.controller.ts:60 | each page starts `limit` records after the one before it, so page p + 1 starts at p * limit |
| Pagination.PageOfRendered | src/controllers/movie.controller.ts:58 | a page written in decimal is used as is when positive, and as 1 otherwise |
| Pagination.LimitOfRendered | src/controllers/movie.controller.ts:59 | a limit written in decimal is defaulted at 0, capped above 100, and otherwise kept |
| Pagination.NonNumericTakesDefaults | src/controllers/movie.controller.ts:58-59 | text that starts with no space, sign or digit gives page 1 and limit 20 |
| Pagination.ClampedExample | src/controllers/movie.controller.ts:58-59 | `page=0, limit=500` normalises to the same pair as `page=1, limit=100` |
| Keys.PageKey | src/controllers/movie.controller.ts:62 | a page key starts with `movies_page_`, then holds the page's decimal text, and ends with the limit's decimal text |
| Keys.PageOfPageKey | src/controllers/movie.controller.ts:62 | `parseInt` of a page key after its prefix gives back the page |
| Keys.ItemKey | src/controllers/movie.controller.ts:124 | a movie key is `movie_` followed by the id or title text, which can be cut back out |
| Keys.PageKeyParts | src/controllers/movie.controller.ts:62 | a page key is the prefix, then the page, `_limit_` and the limit, and each part can be cut back out |
| Keys.PageKeyInjective | src/controllers/movie.controller.ts:62 | two normalised (page, limit) pairs share a page key only when they are equal |
| Keys.ItemKeyNeverPageKey | src/controllers/movie.controller.ts:62 | no movie key equals a page key |
| Keys.ItemKeyInjective | src/controllers/movie.controller.ts:195 | movie keys are equal exactly when their suffixes are, whether the suffix is an id or a title |
| Cache.Get | src/controllers/movie.controller.ts:63 | `get` returns a value exactly when the key exists and has not expired, and then returns the stored value |
| Cache.Lookup | src/controllers/movie.controller.ts:63-65 | a hit is exactly a live, non-empty value |
| Cache.SetEx | src/controllers/movie.controller.ts:86 | the key now holds the value until `now + 3600`; every other key is untouched |
| Cache.Del | src/controllers/movie.controller.ts:277 | the key is gone; every other key is untouched |
| Cache.SetThenLookup | src/controllers/movie.controller.ts:86 | a value just written is a hit for exactly the next hour |
| Store.SortedIds | src/controllers/movie.controller.ts:27-29 | the ids come out strictly ascending, each id exactly once |
| Store.SortedUnique | src/controllers/movie.controller.ts:27-29 | an ascending enumeration of a set of ids is unique |
| Store.Ordered | src/controllers/movie.controller.ts:26-30 | the listing has one entry per record, and position i holds the record with the i-th smallest id |
| Store.OrderedAscending | src/controllers/movie.controller.ts:26-30 | in a valid store the listing's ids strictly increase |
| Store.OrderedHasEveryRecord | src/controllers/movie.controller.ts:26-30 | every record of the table is listed |
| Store.OrderedHasOnlyRecords | src/controllers/movie.controller.ts:26-30 | everything listed is a record of the table |
| Store.DenseIds | src/controllers/movie.controller.ts:26-30 | with ids exactly 1..n, the ids are listed as 1, 2, …, n |
| Store.DenseListing | src/controllers/movie.controller.ts:26-30 | with ids exactly 1..n, the i-th listed record is the one with id i + 1 |
| Store.Window | src/controllers/movie.controller.ts:73-77 | a forward take lists `take` records from position `skip`, stopping at the end; a backward take lists records ending `skip` before the end |
| Store.ForwardWindowIsSlice | src/controllers/movie.controller.ts:73-77 | a forward window is the slice between the two clamped positions |
| Store.FindPage | src/controllers/movie.controller.ts:73-77 | the query fails exactly when `skip` is negative; otherwise it returns the window of the ascending listing |
| Store.FindUnique | src/controllers/movie.controller.ts:134-138 | the awaited query finds a record exactly when the id is in the table |
| Store.Create | src/controllers/movie.controller.ts:204-217 | the counter advances. The insert fails exactly when the counter's id is taken. Otherwise the new record holds the posted fields under that id, and no other record changes |
| Store.Delete | src/controllers/movie.controller.ts:279-283 | delete fails exactly when the id is absent; otherwise it returns that record and removes only it |
| Store.CreateDeleteKeepValid | src/controllers/movie.controller.ts:204-217 | in a valid store, create never collides, and both create and delete keep the store valid |
| MovieController.ServeCached | src/controllers/movie.controller.ts:65-71 | a hit answers 200 with the cached payload, or 500 when it does not parse, and changes nothing |
| MovieController.GetAllMovies | src/controllers/movie.controller.ts:24-52 | the answer is 404 exactly when the table is empty; otherwise 200 with the whole ascending listing. Nothing changes |
| MovieController.GetAllMoviesListsEveryRecord | src/controllers/movie.controller.ts:26-43 | the full listing holds every record once, in strictly ascending id order |
| MovieController.ServePage | src/controllers/movie.controller.ts:62-92 | a page read never changes the store; it either leaves the cache as it was, or it was a miss answered 200 whose data is now cached under the page key for an hour |
| MovieController.ServePageLocal | src/controllers/movie.controller.ts:62-86 | a page read can change only its own page key, and never the store |
| MovieController.ServePageHit | src/controllers/movie.controller.ts:63-71 | a page hit answers from the cache and changes nothing |
| MovieController.ServePageFill | src/controllers/movie.controller.ts:73-92 | after a page miss, a 200 has cached its listing under the page key for an hour; any other answer changes nothing |
| MovieController.ServePageMiss | src/controllers/movie.controller.ts:73-92 | for positive page and limit, a miss is 404 exactly when skip reaches the record count; otherwise it answers and caches the slice from `skip`, at most `limit` long |
| MovieController.ServePageNegativeLimit | src/controllers/movie.controller.ts:59-101 | past page 1, a negative limit gives a negative skip, so the answer is 500 and nothing changes |
| MovieController.ServePageFacts | src/controllers/movie.controller.ts:62-101 | a page read meets every clause of the page-read contract |
| MovieController.GetLimitedMovies | src/controllers/movie.controller.ts:56-102 | a read of the normalised page: the store and all other keys are untouched; a hit changes nothing; a non-empty miss is served and cached for an hour; an empty page is 404 and not cached; past page 1 a negative limit is 500 |
| MovieController.PageIsSlice | src/controllers/movie.controller.ts:60-77 | with a positive limit, page `count` is the slice of the listing right after pages 1..count-1 |
| MovieController.PagesTileListing | src/controllers/movie.controller.ts:60-77 | pages 1..count laid end to end are exactly the first `count * limit` listed records |
| MovieController.PagesCoverAllMovies | src/controllers/movie.controller.ts:73-77 | enough pages, laid end to end, equal what `getAllMovies` lists |
| MovieController.TwentyFiveMovieScenario | src/controllers/movie.controller.ts:56-92 | with movies 1..25, 20 per page and nothing cached, reading page 1 answers ids 1..20 and caches them under page 1's key; reading page 2 afterwards, from the cache that read left, answers ids 21..25 |
| MovieController.SameNormalisationSameOutcome | src/controllers/movie.controller.ts:58-62 | requests whose parameters normalise to the same pair get the same answer and leave the same state |
| MovieController.ClampedRequestsAgree | src/controllers/movie.controller.ts:58-62 | `?page=0&limit=500` is served exactly like `?page=1&limit=100` |
| MovieController.PageReadThenHit | src/controllers/movie.controller.ts:63-92 | a repeat of a successful page read within the hour is a hit. It returns the same data and changes nothing |
| MovieController.GetMovieId | src/controllers/movie.controller.ts:115-160 | the handler as written. An empty id is answered 400. A hit answers from the cache and changes nothing. A hit on a value that does not parse is 500. A miss caches the unresolved query object under `movie_{id}` for an hour and answers with it. The store never changes |
| MovieController.GetMovieIdIgnoresStore | src/controllers/movie.controller.ts:134-150 | as written, the answer and the cache afterwards do not depend on the store at all |
| MovieController.UnawaitedLookupLosesRecord | src/controllers/movie.controller.ts:134-150 | with movie 5 stored and nothing cached, reading id 5 does not return the record, and a read within the hour gets the same empty object from the cache |
| MovieController.GetMovieIdAwaited | src/controllers/movie.controller.ts:115-160 | the awaited handler. An empty id is 400 with nothing changed. A hit changes nothing. A miss answers and caches the stored record, is 404 for an unknown id without caching anything, and is 500 for a non-numeric id |
| MovieController.AwaitedReadIsStable | src/controllers/movie.controller.ts:124-150 | with the lookup awaited, a second read within the hour returns the same record from the cache and changes nothing |
| MovieController.DeleteMovie | src/controllers/movie.controller.ts:263-304 | afterwards `movie_{id}` is not a hit, and every other key is untouched; without a hit the cache is untouched. An existing record is deleted and answered 200. An unknown or non-numeric id is 500 with the store unchanged. An empty id is answered 400 |
| MovieController.DeleteKeepsPageEntries | src/controllers/movie.controller.ts:273-278 | a delete leaves every cached page as it was |
| MovieController.DeleteTwiceSameCache | src/controllers/movie.controller.ts:273-278 | repeating a delete leaves the cache as the first delete left it |
| MovieController.DeleteThenReadIsNotFound | src/controllers/movie.controller.ts:263-296 | after deleting an existing movie, a following awaited read of it is 404 and caches nothing |
| MovieController.PostMovie | src/controllers/movie.controller.ts:181-237 | a body without a truthy title or streaming URL is 400 with nothing changed. A hit on `movie_{title}` answers from the cache and creates nothing, or is 500 when the cached value does not parse. Otherwise the record is created under the next id, answered 201 and cached for an hour. A colliding id is 500 with the cache and records unchanged |
| MovieController.RepeatPostCreatesNoDuplicate | src/controllers/movie.controller.ts:195-229 | posting the same title twice in sequence within the hour creates exactly one record, and the second post returns it from the cache |
| MovieController.PostShadowedByItemRead | src/controllers/movie.controller.ts:195-203 | once a read of id x has filled `movie_x`, a post titled x within the hour is answered from that entry and creates nothing |
| MovieController.DeleteKeepsStoreValid | src/controllers/movie.controller.ts:279-283 | a delete request keeps the store's autoincrement discipline, whatever its id text |
| MovieController.WritesKeepStoreValid | src/controllers/movie.controller.ts:204-217 | deleting and posting keep the store's autoincrement discipline |

## Left out

- Cache client failures are left out. `redis.get`, `set` and `del` always succeed here. In the code a Redis error falls into each handler's catch block; the model does not say whether that fails the request or is absorbed.
- The ORM's Redis middleware in `src/utils/client.prisma.ts` and the Redis connection are not part of this model.
- Routing, authentication and the admin check are left out. So are the external enrichment service and the other controllers (actors, genres, users).
- The update handler has no code in the controller, so there is nothing to model.
- Each handler runs to completion before the next starts. Interleavings at the awaits are not modelled: two concurrent misses on one key, a read between `del` and `delete`, two concurrent posts of one title.
- Wall-clock time is a parameter `now` on a logical clock. A value set at `now` expires at `now + 3600`.
- JSON serialisation is modelled as the identity on payloads. Text `JSON.parse` rejects is one `Corrupt` value. Date and float formatting inside records is not modelled.
- JsNumbers.ToNumber: only whitespace, an optional sign and decimal digits are modelled. Hex, fraction, exponent and `Infinity` forms of `Number` are treated as NaN.
- JsNumbers.IntString: JavaScript numbers are IEEE doubles, but the model uses unbounded integers. Precision loss above 2^53 and exponent notation from 1e21 on are not modelled.
- Query parameters are single strings or absent. Array-valued parameters (`?page=1&page=2`) are not modelled.
- Body fields are strings or absent. Non-string truthy values, such as a number for `title`, are not modelled.
- Store reads never fail here, so the catch-block 500s that a lost database connection would cause in `getAllMovies` (lines 45-51) and in the page and item reads are not modelled. The 500s the model does have come from an unparseable cached value, a negative skip, a NaN id, a missing record on delete and a colliding create.
- Store.Create: the only create failure modelled is an id collision. Constraint, type and connection errors are not modelled.
- Store.Window: a negative `take` counting back from the end of the listing is assumed from the ORM; the controller code does not show it.
- The 404 branch of `postMovie` (lines 218-223) cannot be reached, because `create` returns a record or throws. The model therefore has no such branch.
- The `error` object included in 500 bodies and the `console.error` logging are not modelled.

## Findings

| source | as written | input that shows it | evidently intended | confidence | as-written member | corrected member |
|---|---|---|---|---|---|---|
| src/controllers/movie.controller.ts:134-150 | The `findUnique` query is not awaited, so `response` is a pending query object. An object is truthy, so the 404 branch at line 140 never runs. The handler caches and returns that object, whose serialisation carries no record, and never reads the store; an unknown id gets the same empty object cached as a known one. The 404 branch also lacks `return`. That would matter only once the query is awaited: an unknown id would be answered 404, `"null"` would still be cached at line 145, and later reads would serve it. | movie 5 in the store, empty cache, a `getMovieId` request with `movie_id` = `"5"` (registered as `/getmovieid/:movie_id` at src/routes/movie.route.ts line 11; the doc comment calls it `/movies/:movie_id`) | await the query; answer 200 with the record and cache it; answer 404 for an unknown id and return without caching | not executed | MovieController.UnawaitedLookupLosesRecord | MovieController.GetMovieIdAwaited |
