# Bookmarks router, modelled in Dafny

A model of the bookmarks router of a small Express service
(`src/bookmarks/bookmarks-router.js`): the serializer that sanitizes title
and description on output, the validation chain of `POST /bookmarks`, and
the handlers `GET /bookmarks`, `POST /bookmarks`, and
`GET`/`DELETE /bookmarks/:bookmark_id` with their `.all` lookup, over an
abstract bookmarks table.

- `json.dfy` (module `Json`): the values of a parsed JSON body (undefined,
  null, booleans, numbers as exact reals, strings, arrays/objects), with
  JavaScript truthiness, `Number.isInteger` and `Number(...)`.
- `validation.dfy` (module `Validation`): the request body, the
  required-field loop as a find-first function, the whole chain as a pure
  function to a verdict `MissingField(f) | BadRating | BadUrl | Accept`,
  and lemmas on its order of checks.
- `store.dfy` (module `Store`): table rows, lookup by id, deletion by id
  (a filter that keeps order), and lemmas on them.
- `serialization.dfy` (module `Serialization`): `serializeBookmark` and
  the list mapping, with lemmas on what the sanitizer touches and what a
  list looks like after a deletion.
- `decimal.dfy` (module `Decimal`): the decimal text of an id in the
  `Location` header, with its reading back.
- `router.dfy` (module `Router`): responses as values, and the class
  `BookmarksRouter` whose field `rows` is the table and whose methods are
  the handlers; two client methods state the create-then-get and
  delete-then-list behaviour the endpoint tests expect.

The foreign libraries are parameters: the sanitizer `xss`, the URL check
`isWebUri` and JavaScript's text-to-number conversion are function-typed
constants of the router and arguments of the pure functions. The model
fixes nothing about their results; it only fixes what they are given. An
array or object in the body is represented by its string conversion, so
two arrays or objects with the same conversion reach them as one value.

Two places where the code's own text suggests more than it does:

- The rating error at `src/bookmarks/bookmarks-router.js:43` says the
  rating must be "between 0 and 5", and the range test at :41 admits 0,
  but the required-field loop at :33 tests presence by falsiness first,
  so a rating of 0 is answered with `'rating' is required`. The model
  follows the code: the accepted ratings are 1 to 5
  (`Validation.AcceptedRating`).
- The `!bookmark` test at `src/bookmarks/bookmarks-router.js:68` expects
  a lookup that returns a row or nothing, and the model's store does so;
  the query module in the repository returns a row array instead (see
  Left out).

## Model

| member | source | states |
|---|---|---|
| `Validation.FirstFalsy` | src/bookmarks/bookmarks-router.js:32-39 | the loop stops at the first required field whose value is falsy: every earlier field is truthy, and it reports the end only when all are truthy |
| `Validation.Validate` | src/bookmarks/bookmarks-router.js:27-49 | the insert is reached exactly when title and url are truthy, the rating is an integer from 1 to 5 and `isWebUri` accepts the url |
| `Validation.MissingFieldIsFirstFalsy` | src/bookmarks/bookmarks-router.js:32-39 | the "is required" verdict names title, url, rating in that order, only the first falsy one, whatever the rating and url would have said |
| `Validation.FalsyValuesAreMissing` | src/bookmarks/bookmarks-router.js:33 | an empty title, an empty url and a rating of 0 are reported as missing, not as range or URL errors |
| `Validation.BadRatingExactly` | src/bookmarks/bookmarks-router.js:41-44 | the rating error occurs exactly when all three fields are present and the rating is not an integer in [0,5] |
| `Validation.BadUrlExactly` | src/bookmarks/bookmarks-router.js:46-49 | the URL error occurs exactly when the required and rating checks passed and `isWebUri` rejects the url |
| `Validation.UrlCheckedLast` | src/bookmarks/bookmarks-router.js:41-49 | every verdict other than the URL error and acceptance is independent of the URL check |
| `Validation.AcceptedRating` | src/bookmarks/bookmarks-router.js:32-44 | an accepted rating is the number 1, 2, 3, 4 or 5 |
| `Store.Filter` | test/bookmarks-endpoints.spec.js:180 | the filtered sequence holds exactly the elements that pass the test and is no longer than the input |
| `Store.FilterAppend` | test/bookmarks-endpoints.spec.js:180 | filtering keeps the original order: it distributes over concatenation |
| `Store.Find` | src/bookmarks/bookmarks-router.js:66-72 | the lookup returns a stored row with the requested id, and nothing exactly when no row has that id |
| `Store.FindUnique` | src/bookmarks/bookmarks-router.js:66-73 | with unique ids the row found is the one row carrying the id |
| `Store.RemovesExactlyOne` | src/bookmarks/bookmarks-router.js:81-88 | deleting the id of a stored row removes that row and keeps all others in their order |
| `Store.WithoutUnique` | src/bookmarks/bookmarks-router.js:83 | a deletion keeps ids unique |
| `Store.FindAfterDelete` | src/bookmarks/bookmarks-router.js:81-88 | after a deletion the id is not found and every other id finds the same row as before |
| `Store.FindAppended` | test/bookmarks-endpoints.spec.js:281-286 | a row inserted under a fresh id is found by that id |
| `Serialization.Serialize` | src/bookmarks/bookmarks-router.js:10-16 | `serializeBookmark`: id and url pass through, title and description go through the sanitizer, the rating through `Number`; its properties are stated by `Serialization.SanitizerOnlyOnText` and `Serialization.CreatedRatingIsNumber` |
| `Serialization.SerializeAll` | src/bookmarks/bookmarks-router.js:23 | `bookmarks.map(serializeBookmark)`; stated by `Router.BookmarksRouter.List` (one bookmark per row at its own index) and `Serialization.ListAfterDelete` |
| `Serialization.Inserted` | src/bookmarks/bookmarks-router.js:29-30 | the `newBookmark` record stored at :51 under the assigned id; stated by `Router.BookmarksRouter.Insert`, `Router.BookmarksRouter.Create` and `Serialization.CreatedRatingIsNumber` |
| `Store.Without` | src/bookmarks/bookmarks-router.js:83 | the deletion by id; stated by `Store.RemovesExactlyOne`, `Store.WithoutUnique` and `Store.FindAfterDelete` |
| `Json.Truthy` | src/bookmarks/bookmarks-router.js:33 | the negation of `!v`; stated by `Validation.MissingFieldIsFirstFalsy` and `Validation.FalsyValuesAreMissing` |
| `Json.IsInteger` | src/bookmarks/bookmarks-router.js:41 | `Number.isInteger`; stated by `Validation.BadRatingExactly` and `Validation.AcceptedRating` |
| `Json.ToNumber` | src/bookmarks/bookmarks-router.js:15 | `Number(...)`; stated by `Serialization.CreatedRatingIsNumber` |
| `Validation.RatingInRange` | src/bookmarks/bookmarks-router.js:41 | the rating test passes; stated by `Validation.BadRatingExactly` and `Validation.BadUrlExactly` |
| `Serialization.SanitizerOnlyOnText` | src/bookmarks/bookmarks-router.js:10-16 | id, url and rating never depend on the sanitizer, and sanitizers agreeing on title and description give the same bookmark |
| `Serialization.CreatedRatingIsNumber` | src/bookmarks/bookmarks-router.js:41-57 | a created bookmark is returned with the body's url and the body's integer rating (1 to 5) as a number |
| `Serialization.ListAfterDelete` | test/bookmarks-endpoints.spec.js:178-191 | the serialized list after a deletion is the previous list with that id filtered out, order kept |
| `Decimal.Text` | src/bookmarks/bookmarks-router.js:56 | an id is written as digits only, without a leading zero unless it is 0 |
| `Decimal.ValueOfText` | src/bookmarks/bookmarks-router.js:56 | reading the written id back gives the id |
| `Decimal.TextInjective` | src/bookmarks/bookmarks-router.js:56 | different ids are written differently |
| `Router.Rejection` | src/bookmarks/bookmarks-router.js:32-49 | every failed check answers 400 without a Location; only the missing-field error has the `{error:{message}}` shape |
| `Router.RejectionsDistinct` | src/bookmarks/bookmarks-router.js:35-48 | different failed checks (and different missing fields) give different responses |
| `Router.Location` | src/bookmarks/bookmarks-router.js:56 | the Location header starts with `/bookmarks/` |
| `Router.LocationNamesRow` | src/bookmarks/bookmarks-router.js:56 | the id reads back from the Location header and no other id has the same header |
| `Router.BookmarksRouter.List` | src/bookmarks/bookmarks-router.js:20-26 | 200 with every stored row serialized, in table order |
| `Router.BookmarksRouter.Load` | src/bookmarks/bookmarks-router.js:64-77 | 404 "Bookmark Not Found" exactly when no row has the id; otherwise the one row with that id goes to the next handler |
| `Router.BookmarksRouter.Get` | src/bookmarks/bookmarks-router.js:78-80 | 404 for an unknown id, otherwise 200 with the serialized row of that id |
| `Router.BookmarksRouter.Delete` | src/bookmarks/bookmarks-router.js:81-88 | 404 and an unchanged table for an unknown id; otherwise 204 with an empty body and exactly that row removed, others in order |
| `Router.BookmarksRouter.Insert` | src/bookmarks/bookmarks-router.js:51 | the store appends the row under a fresh id and advances its id sequence |
| `Router.BookmarksRouter.Create` | src/bookmarks/bookmarks-router.js:27-60 | a failed check answers its 400 and leaves the table unchanged; otherwise one row is appended under a fresh id and the answer is 201 with `Location: /bookmarks/{id}` and the serialized row |
| `Router.CreateThenGet` | test/bookmarks-endpoints.spec.js:261-287 | fetching the id of a 201 returns 200 with the same bookmark the 201 carried |
| `Router.DeleteThenList` | test/bookmarks-endpoints.spec.js:178-191 | after a 204 the list is the previous list with that id filtered out, and a second lookup is 404 |

## Left out

- The bearer-token gate (401 `Unauthorized request`) that the endpoint tests exercise: it is not in the router.
- Express plumbing (routing, `express.json()` parsing, `res.status/json/send/location/end`): responses are plain values.
- Store failures and the `.catch(next)` path to a 500 handler: the abstract store never fails.
- Logging (`logger.error`, `logger.info`): side effects only.
- What `xss`, `isWebUri` and JavaScript's string/object-to-number conversion compute: they are uninterpreted parameters.
- The query module `src/bookmarks/bookmarks-service.js`: it exports nothing, lacks `insertBookmark` and `deleteBookmark`, queries `bookmarks_table`, and its `getById` returns a row array, so the 404 check at `src/bookmarks/bookmarks-router.js:68` could never fire with it. The store is modelled as a lookup that returns a row or nothing.
- `req.get.app('db')` at `src/bookmarks/bookmarks-router.js:65` would throw; the model resolves the store the same way for every route.
- Path parameters are natural numbers: the text-to-integer cast the database applies to `:bookmark_id`, and the error it raises for non-numeric text, are not modelled.
- Column typing in the database: rows keep the inserted body values as given (an absent description is not turned into `null`, a non-string title is not cast to text).
- Numbers are exact reals: rounding of JSON numbers to 64-bit floats is not modelled, nor a literal too large for a float (`1e400` parses to `Infinity`); such a number is a large real here and fails the rating range test, as `Infinity` fails `Number.isInteger`.
- Arrays and objects in the body are kept only as their string conversion (`Compound(text)`): their elements and keys are not modelled. `xss`, `isWebUri` and `Number(...)` are taken to read such a value only through that conversion, so two values with the same conversion (`[1,2]` and `["1,2"]`) are one value here.
- Concurrency: requests are modelled one at a time and each handler as one atomic step. The by-id lookup (`src/bookmarks/bookmarks-router.js:66`) and the deletion (:83) are separate store calls in the source, so a deletion by another request between them, after which this request still answers 204 and removes nothing, is not modelled (`Router.BookmarksRouter.Delete`, `Router.DeleteThenList`).
- Row order: the store is taken to list rows in insertion order and to keep the remaining rows in their order after a deletion. The listing query has no ordering clause (`src/bookmarks/bookmarks-service.js:2-4`); the order is what the endpoint tests expect. `Router.BookmarksRouter.List`, `Serialization.ListAfterDelete`, `Store.RemovesExactlyOne` and `Router.DeleteThenList` rest on it.
- Id generation: the store hands out increasing ids starting at 1 and never reuses one, as a database sequence does.
- The commented-out handlers at `src/bookmarks/bookmarks-router.js:101-137`.
