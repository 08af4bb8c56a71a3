# Book catalogue API with a read-through listing cache — Dafny model

This project models the core of a small book-catalogue web API and proves
properties of it. The API stores books (title, author, year) in a relational
table and lists them page by page. Listing pages are cached in Redis for 100
seconds. Every create, update or delete drops all cached listing pages. The
repository also has two background jobs: an integer sum and a factorial.

The model is functional. The table is `Catalog.Store`: a map from id to
`Book` plus the next auto-increment id. The cache is `ListingCache.Cache`: a
map from key to (value, expiry). Together they form `LivrosApi.State`, and
each endpoint is a pure function from a state to a `Step` (the next state and
an `Outcome`). Time is an explicit `now` argument. The source signals success
by raising an HTTP exception with status 201, 200 or 204; here those are
ordinary outcomes (`Created`, `Updated`, `Deleted`), and `StatusCode` maps
each outcome to its HTTP status.

Modules:

- `Decimal`: Python's `str(int)` rendering of integers, and a parser that inverts it.
- `CacheKeys`: the key `livros:page={page}&limit={limit}` and the purge pattern `livros:page=*`.
  The key is proved injective: distinct paginations never share a cache entry.
- `Paging`: SQL `OFFSET … LIMIT …` over an ordered listing.
- `Catalog`: books, rows, the table, its id invariant, and its listing in ascending id order.
- `ListingCache`: Redis `GET` with expiry, the cache write (`salvar_livros_redis`) and the purge (`deletar_livros_redis`).
- `LivrosApi`: the four endpoints `get_livros`, `post_livros`, `put_livros` and `delete_livro`.
- `ApiProperties`: properties across several calls. The main one is cache coherence: served one
  request at a time, every cached listing equals what the table would answer. So a listing never
  shows data from before the last mutation.
- `Tasks`: `calcular_soma` and `calcular_fatorial`.

Assumptions:

- The listing query has no `ORDER BY`. The model lists rows in ascending id order.
- The JSON encode/decode round trip through Redis is the identity on `LivrosApi.Response`.
- A cache entry written at time `T` with the 100-second TTL is visible at times `t` with `t < T + 100`.

Facts about the code that the model keeps:

- The cache key has the prefix `livros:`.
- Titles and authors may be empty strings.
- Only create checks title and author for duplicates.
  `ApiProperties.UpdateMayDuplicate` exhibits an update that stores a second book with the same title and author.

## Model

| member | source | states |
|---|---|---|
| Decimal.NatToString | livrosapi.py:84 | A page or limit is rendered as a non-empty string of decimal digits with no leading zero, as Python formats an integer |
| Decimal.IntToString | livrosapi.py:84 | A page or limit of any sign is rendered as a non-empty string of numeral characters that starts with a digit exactly when the integer is non-negative |
| Decimal.IntToStringRoundTrip | livrosapi.py:84 | The rendering of any integer (a minus sign for negatives) parses back to that integer |
| Decimal.IntToStringInjective | livrosapi.py:97 | Two integers render to the same text if and only if they are equal |
| CacheKeys.ListingKey | livrosapi.py:84-88 | Every key the listing writes starts with `livros:page=`, so the purge's scan pattern matches it |
| CacheKeys.ListingKeyRoundTrip | livrosapi.py:97 | The key `livros:page={page}&limit={limit}` parses back to exactly `(page, limit)` |
| CacheKeys.ListingKeyInjective | livrosapi.py:84-97 | The save and the lookup hit the same key if and only if they use the same page and limit |
| Paging.Window | livrosapi.py:103 | OFFSET/LIMIT returns at most `limit` rows; nothing past the end; otherwise `min(limit, rows left)` rows, each the listing's row at offset plus its position |
| Paging.ItemOnItsPage | livrosapi.py:103 | Row `i` of the listing appears on page `i / limit + 1` at position `i % limit` |
| Paging.PageOfPosition | livrosapi.py:103 | Pages do not overlap: position `i` lies in page `p` exactly when `p = i / limit + 1` |
| Catalog.Matches | livrosapi.py:137 | In a valid table the ids the title-and-author filter matches are exactly the ids of the rows the table scan yields with that title and that author |
| Catalog.RowsIn | livrosapi.py:103 | Each listed row is a stored record with its stored fields, within the id range, and rows come in strictly ascending id order |
| Catalog.ListingIsTheTable | livrosapi.py:103-108 | In a valid table the listing holds every record exactly once, sorted by id, so its length equals the row count `count()` returns |
| Catalog.ListingAfterInsert | livrosapi.py:141-144 | A record added under the next auto-increment id appears at the end of the listing, after all existing records |
| ListingCache.Get | livrosapi.py:98-100 | A cache read yields a value exactly when the key is present and not yet expired, and then the value stored under it |
| ListingCache.SaveListing | livrosapi.py:83-85 | The write adds only the listing key of (page, limit); it is readable for the next 100 seconds and absent from then on; every other key is untouched |
| ListingCache.PurgeListings | livrosapi.py:87-89 | The purge removes exactly the keys matching `livros:page=*`, keeps every other key with its value, and changes nothing in a cache with no listing keys |
| ListingCache.PurgeHidesEveryListing | livrosapi.py:87-89 | After a purge no listing key of any page and limit can be read at any time |
| ListingCache.PurgeIdempotent | livrosapi.py:87-89 | Purging twice gives the same cache as purging once |
| ListingCache.PurgeForgetsSave | livrosapi.py:83-89 | A listing written just before a purge leaves no trace after it |
| LivrosApi.StatusCode | livrosapi.py:94-207 | Failures get a 4xx status and successes one of 200, 201, 204; 400 is reported exactly for bad pagination or a duplicate, 404 exactly for a missing book, 201 exactly for a create, 204 exactly for a delete |
| LivrosApi.Query | livrosapi.py:103-115 | A miss answers "no books" exactly when the offset reaches the end of the listing; otherwise it answers the given page and limit, the table's row count as total, and exactly `min(limit, rows left)` rows (at least one), equal to the listing from `(page-1)*limit` on |
| LivrosApi.List | livrosapi.py:93-119 | Page or limit below 1 fails with nothing changed. A live hit returns the cached value with nothing changed. A miss returns the table's answer, never changes the table, leaves the cache alone for an empty page, and otherwise writes exactly that key with expiry now + 100 |
| LivrosApi.Create | livrosapi.py:136-148 | A duplicate title and author fails with table and cache unchanged. Otherwise the table gains exactly one record under a fresh id with the given fields, other records are unchanged, listings are purged, and the id invariant is kept |
| LivrosApi.Update | livrosapi.py:179-192 | A missing id fails with table and cache unchanged. Otherwise only that id's fields are replaced, the set of ids and the counter stay, listings are purged, and the id invariant is kept |
| LivrosApi.Delete | livrosapi.py:196-207 | A missing id fails with table and cache unchanged. Otherwise exactly that id is removed, other records are unchanged, listings are purged, and the id invariant is kept |
| ApiProperties.HitIgnoresStore | livrosapi.py:98-101 | On a live hit the reply is the same whatever the table holds, and the table is not changed |
| ApiProperties.RepeatedListIsHit | livrosapi.py:97-117 | In a valid table, after a miss on a page that starts inside the table, the same listing before expiry returns the identical reply and changes nothing |
| ApiProperties.EmptyPageIffPastEnd | livrosapi.py:103-106 | In a valid table a page is empty exactly when `(page-1)*limit` is at least the row count |
| ApiProperties.PageRowsAreStored | livrosapi.py:103-114 | The rows of a non-empty page are stored records with their stored fields, in ascending id order |
| ApiProperties.PurgedIsCoherent | livrosapi.py:87-89 | Right after a purge, no cached listing can disagree with the table |
| ApiProperties.CoherentListAnswersFromStore | livrosapi.py:97-119 | When the cache is coherent, a listing answers what the table holds, hit or miss |
| ApiProperties.ListKeepsCoherent | livrosapi.py:97-119 | A listing keeps the cache coherent: what it caches is the table's answer, stored under its own key only |
| ApiProperties.HandleKeepsInvariant | livrosapi.py:93-207 | Each endpoint keeps the id invariant and cache coherence |
| ApiProperties.RunKeepsInvariant | livrosapi.py:93-207 | Any sequence of requests served one at a time keeps the id invariant and cache coherence |
| ApiProperties.ListingNeverStale | livrosapi.py:146-205 | Starting from any valid table and a cache without listings, after any requests every listing reflects the latest mutation |
| ApiProperties.CreateThenListSeesBook | livrosapi.py:136-148 | After a create, the new book is the last row of the listing, the next listing is computed from the new table, and a non-empty page's total is one more than before |
| ApiProperties.CreateTwiceRejected | livrosapi.py:137-139 | Creating the same title and author twice: the second create fails, and exactly one such record is stored |
| ApiProperties.UpdateMayDuplicate | livrosapi.py:180-192 | An update succeeds even when it gives a book the title and author of another stored book |
| Tasks.Sum | tasks.py:6-8 | The sum is the exact integer sum, with no overflow: subtracting either operand gives the other |
| Tasks.Fact | tasks.py:16 | n! is at least 1 and at least n |
| Tasks.Factorial | tasks.py:12-16 | The invalid sentinel is returned exactly for negative input; otherwise a number at least 1 |
| Tasks.FactorialLoop | tasks.py:16 | The factorial as a running product agrees with the recursive definition on every input |
| Tasks.FactorialRecurrence | tasks.py:16 | For n ≥ 1, n! = n · (n-1)! |
| Tasks.SuiteExamples | tests/test_tasks.py:4-14 | 5 + 3 = 8, 5! = 120 and 0! = 1 |
| Tasks.NegativeExample | tasks.py:13-14 | -1 gives the invalid sentinel, not a number |

## Left out

- HTTP routing, request validation, dependency injection and the exception plumbing: outcomes are values.
- HTTP Basic authentication with constant-time comparison: it runs before any store or cache access. A failed check would be a 401 with no state change.
- The engine, session, commit/refresh and Redis client setup: they are replaced by the two maps.
  Store and cache connection failures are not modelled.
- The default query values `page = 1` and `limit = 10` are request plumbing. `LivrosApi.List` takes both explicitly.
- The debug endpoint `ver_livros_redis` only inspects the cache through Redis `KEYS`/`TTL`.
- The job-queue endpoints `somar`, `fatorial` and `get_task_result` are foreign job-queue calls. So is the Celery decorator on each job.
  The three-second `time.sleep` in tasks.py has no effect on the result.
- Concurrency is not modelled: calls are atomic and sequential.
  So the known race where a listing repopulates the cache right after a purge is outside the model.
  The coherence results hold only for sequential runs.
- JSON encoding and the Portuguese message strings. `NoBooks` stands for the "no books" message.
- Catalog.Listing: the order of rows is an assumption (ascending id). The source's query has no ORDER BY, so the database may return another order.
- LivrosApi.Create: the fresh id is the model's counter. A SQLite table without AUTOINCREMENT hands out the largest id plus one, and may reuse an id freed by deleting the last row. Freshness and the other-records-unchanged guarantee are stated only for stores satisfying `Catalog.Valid`, which every sequence of requests keeps.
- LivrosApi.List, LivrosApi.Update, LivrosApi.Delete, LivrosApi.Create: integers are unbounded. SQLite binds integers as signed 64-bit values, so the driver rejects an offset `(page-1)*limit`, a `limit`, an id or a year outside that range, and the request fails with a server error without touching the cache. The model instead answers such a listing from the table, and may answer and cache a non-empty page (for example with `page = 1` and `limit = 2^63`); it reports such an id as not found, and stores such a year.
- ListingCache.Get: SETEX is given whole seconds and Redis expires keys at millisecond precision; the model uses an abstract integer `now` in the same unit as the 100-unit TTL.
- The module-level `livros = {}` dictionary is never used by the endpoints.
