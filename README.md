# Bookshelf catalog, modelled in Dafny

The system is an in-memory bookshelf service. One ordered array of book
records (`books`) is shared by five request handlers:

- **add** validates a payload, builds a record with a fresh id and timestamps, derives
  `finished`, and appends the record;
- **list** applies optional filters: a case-insensitive name substring, `reading`, and
  `finished`, in that order. It returns `{id, name, publisher}` for each surviving record;
- **get-by-id** returns the first record holding an id;
- **update** looks the id up, validates the payload, and replaces that one record in
  place. It keeps `id` and `insertedAt`, recomputes `finished` and refreshes `updatedAt`;
- **delete** splices the first record holding an id out of the array.

Layout:

- `wrappers.dfy`: `Option`. It stands for JavaScript's `undefined` versus a value.
- `sequences.dfy`: `Filter` (`Array.prototype.filter`) and its order and composition
  lemmas, plus `Contains` (`String.prototype.includes`) and ASCII `Lower`.
- `books.dfy`: the `Book` record, the `Payload`, the `Response` of each handler with its
  status `Code`, and the shared validation `Validate`. It also holds the record builders
  `NewBook`/`Revised`, `IndexOf` (`findIndex` by id) and `RemoveAt` (`splice(i, 1)`).
- `queries.dfy`: the two read-only handlers as functions over `seq<Book>`. These are list
  (`ListBooks`, `GetAllBooks`) and get-by-id (`GetBookById`).
- `handler.dfy`: class `Bookshelf`, which owns `books: seq<Book>`. Add, update and delete
  are methods that reassign it. The module also holds lemmas that relate several handler
  calls.

The handler responses become the datatype `Response`:

| constructor | status |
|---|---|
| `Created(id)` | 201 |
| `Listed`, `Found`, `Updated`, `Deleted` | 200 |
| `Rejected(reason)` | 400 |
| `NotFound` | 404 |
| `InternalError` | 500 |

The random id and the current time are parameters of the methods.
`Bookshelf.Valid()` is the invariant that every stored record satisfies
`readPage <= pageCount` and `finished == (pageCount == readPage)`. Unique ids depend on
the random id generator, so each mutating method keeps `UniqueIds` as an implication:
if the store had unique ids before (and, for add, the new id was absent), it has them
after.

The code rejects only a missing (`undefined`) name, so the empty string is accepted:
`Payload.name` is an `Option` and `Validate` rejects only `None`. The code never checks the
sign of `pageCount` or `readPage`, and neither does the model.

## Model

| member | source | states |
|---|---|---|
| `Books.Validate` | src/handler.js:7-27 | rejection exactly when the name is missing or readPage > pageCount; a missing name is reported first, whatever the pages |
| `Books.NewBook` | src/handler.js:29-48 | the new record carries the given id, and the payload's name, year, author, summary, publisher, pageCount, readPage and reading; insertedAt == updatedAt == now; finished iff the payload's pageCount == readPage; the record is well-formed |
| `Books.Revised` | src/handler.js:175-189 | the replacement keeps id and insertedAt, sets updatedAt, recomputes finished, and equals a fresh record for the payload apart from those kept fields |
| `Books.IndexOf` | src/handler.js:151 | findIndex by id: -1 exactly when no record holds the id, otherwise the first index holding it |
| `Books.RemoveAt` | src/handler.js:215 | splice(i, 1): length drops by one, elements before i stay, elements after i shift down one in order |
| `Sequences.Filter` | src/handler.js:83-98 | filter keeps exactly the elements of the input that pass the test, and is no longer than the input |
| `Sequences.FilterAppend` | src/handler.js:83-98 | filter keeps relative order: it distributes over concatenation |
| `Sequences.FilterFilter` | src/handler.js:83-98 | two successive filters equal one filter by the conjunction of their tests |
| `Sequences.FilterAll` | src/handler.js:83-98 | a filter every element passes returns its input unchanged |
| `Sequences.LowerChar` | src/handler.js:87 | ASCII lower-casing of a character: upper-case letters map to the matching lower-case letter, other characters are unchanged, and no upper-case letter results |
| `Sequences.Lower` | src/handler.js:87 | toLowerCase on ASCII: same length, each character lower-cased, no upper-case letter left |
| `Sequences.Contains` | src/handler.js:87 | includes: true exactly when some window of the haystack equals the needle (so the empty needle always matches) |
| `Queries.ByName` | src/handler.js:85-88 | no-op when the name parameter is absent; otherwise keeps exactly the records whose lower-cased name includes the lower-cased parameter |
| `Queries.ByReading` | src/handler.js:90-93 | no-op when the reading parameter is absent; otherwise keeps exactly the records whose reading flag equals it |
| `Queries.ByFinished` | src/handler.js:95-98 | no-op when the finished parameter is absent; otherwise keeps exactly the records whose finished flag equals it |
| `Queries.Summaries` | src/handler.js:104-108 | the projection has one entry per record, in order, each exactly {id, name, publisher} of that record |
| `Queries.ListFiltersCompose` | src/handler.js:83-98 | the name, reading and finished filters applied in sequence, each skipped when absent, select exactly the records passing every present filter |
| `Queries.ListBooks` | src/handler.js:83-110 | the listing is the projection to {id, name, publisher} of the in-order selection of records passing every present filter |
| `Queries.ListWithoutFilters` | src/handler.js:83-110 | with no query parameter every record is listed, projected, in store order |
| `Queries.ListMembership` | src/handler.js:83-110 | a summary is listed exactly when some stored record passing the filters projects to it |
| `Queries.ListKeepsOrder` | src/handler.js:83-110 | listing a concatenation yields the concatenation of the listings |
| `Queries.GetAllBooks` | src/handler.js:78-114 | the list handler always answers 200 with the filtered summaries |
| `Queries.FirstWithId` | src/handler.js:121 | the id filter is empty when no record holds the id, and otherwise starts with the record at the first index holding it |
| `Queries.GetBookById` | src/handler.js:116-141 | 404 exactly when no record holds the id; otherwise the record at the first index holding it |
| `Handler.Bookshelf.constructor` | src/handler.js:2 | the store starts empty and valid |
| `Handler.Bookshelf.AddBook` | src/handler.js:4-76 | missing name, then readPage > pageCount, give 400 with the store unchanged; otherwise the store is the old one plus the new record and the answer is 201 with its id; 500 never occurs; well-formedness kept; unique ids kept for a fresh id |
| `Handler.Bookshelf.EditBookById` | src/handler.js:143-207 | unknown id gives 404 with the store unchanged, even for an invalid payload; then invalid payload gives 400 with the store unchanged; otherwise only the first record holding the id is replaced, keeping id and insertedAt and recomputing finished, with length and every other element unchanged |
| `Handler.Bookshelf.DeleteBookById` | src/handler.js:209-231 | unknown id gives 404 with the store unchanged; otherwise exactly the first record holding the id is removed and the others keep their order |
| `Handler.AppendFreshKeepsUnique` | src/handler.js:29-50 | appending a record whose id is absent keeps ids unique |
| `Handler.ReviseKeepsUnique` | src/handler.js:177-189 | replacing a record in place keeps ids unique |
| `Handler.RemoveKeepsUnique` | src/handler.js:215 | splicing a record out keeps ids unique |
| `Handler.GetAfterAdd` | src/handler.js:50-52 | after an add with a fresh id, get-by-id of that id returns the new record |
| `Handler.GetAfterDelete` | src/handler.js:212-215 | with unique ids, get-by-id of a deleted id answers 404 |
| `Handler.IndexOfAfterRevise` | src/handler.js:151-189 | after an update, the lookup of the same id finds the same index |
| `Handler.EditTwice` | src/handler.js:151-189 | the same valid payload applied twice leaves the store as one application would, apart from the record's updatedAt |

## Left out

- Response envelope: the hapi response objects, their `status` strings and their
  (Indonesian) messages are left out. `Response` keeps one constructor per distinct
  answer, and `Code` gives its status code.
- Id generation: `nanoid(16)` is random, so the id is a parameter of `AddBook`. The model
  does not assume it is fresh; uniqueness of ids is kept only when it is.
- Timestamps: `new Date().toISOString()` becomes an opaque `Timestamp` parameter.
- Boolean query parameters: the `!!Number(x)` coercion of `reading` and `finished`
  depends on JavaScript number parsing. `Query` receives the coerced boolean, or `None`
  when the parameter is absent.
- Lower-casing: the name filter's `toLowerCase` is Unicode-aware in the source, but
  `Sequences.Lower` changes only ASCII letters. The substring test itself is exact.
- Loose payload typing: only `name` may be `undefined` in the model. Fields that
  JavaScript would store as `undefined` or as a non-number (`year`, `author`, `summary`,
  `publisher`, `pageCount`, `readPage`, `reading`) are not modelled. Neither are the
  comparisons JavaScript would make on such values. `pageCount` and `readPage` are
  unbounded integers.
- Routing and the `./books` module: route wiring is not part of this model, and
  `./books` is not part of this model beyond starting as an empty array.
- Concurrency: the handlers run one at a time, so there is nothing to model.
