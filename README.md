# Bookshelf store — a Dafny model

This project models the bookshelf service's request handlers (`src/handler.js`):
an in-memory, ordered collection of book records with five operations —
create (`addBook`), list with filters (`getAllBooks`), fetch by id
(`getBookById`), edit by id (`editBookById`) and delete by id
(`deleteBookById`).

- `books.dfy`, module `Books`: the record, payload, query and summary values;
  the payload checks; the record built on create and the one written on edit;
  ASCII lower-casing and substring search for the name filter; the `filter`
  callbacks as a first-order `Criterion`; projection to `{id, name, publisher}`;
  `findIndex` and the fetch lookup as functions; the store invariant (distinct
  ids, every record named and with `readPage <= pageCount`) and the lemmas
  showing that append, in-place replace and splice keep it.
- `handler.dfy`, module `Handler`: class `BookStore`, whose `books: seq<Book>`
  field is the shared array (it starts empty), with one method per handler.
  The mutating handlers state their whole new collection in terms of the old
  one. The read-only handlers are tied to the pure definitions in `Books`.
  `DuneLifecycle` is a client that runs create, fetch, edit, fetch, delete,
  fetch and a second delete on a fresh store.

Responses are a `Response` datatype: the variant fixes the HTTP status
(`Code()`: 201 created, 200 success, 400 validation, 404 not found, 500 server
error) and carries the id, list or record.

What the model makes explicit:
- The three create rejections, in order: no payload, then empty name, then
  `readPage > pageCount`. Each leaves the collection unchanged. A valid create
  appends exactly `NewBook(id, payload, now)`. The existence check right after
  the push is proved always true, so the 400 branch after it is dead
  (`assert false` there).
- Listing: each filter present re-filters the *whole* collection, so the last
  parameter present (name, then reading, then finished) decides alone
  (`Selected`). The result is an order-preserving subsequence, projected.
- Edit checks name and pages before looking the id up. A bad payload on an
  unknown id gives 400, not 404. On success only the first matching record
  changes, and its `id`, `insertedAt` and `finished` are kept. `finished` is
  not recomputed, so it can go stale (`DuneLifecycle` shows `readPage` 50 of
  100 with `finished` still set).
- Delete splices out the first match. The others keep their order, and no
  record with that id remains, so a second delete answers 404.

Edit has no missing-payload check. Line 136 of src/handler.js destructures
`request.payload` directly, so an absent body throws and the HTTP layer
answers 500. The model gives `Fail(ServerError)` and leaves the collection
unchanged.

## Model

| member | source | states |
|---|---|---|
| `Books.Validate` | src/handler.js:17-35 | no failure exactly when the name is present and `readPage <= pageCount`; a missing name is reported before the page check |
| `Books.AddRejection` | src/handler.js:5-35 | a missing payload is rejected first, otherwise the payload checks decide; create never reports not-found or server errors |
| `Books.NewBook` | src/handler.js:37-45 | the new record has the given id, every payload field, `insertedAt == updatedAt == now`, `finished` iff `pageCount == readPage`, and is well-formed when the payload is valid |
| `Books.Edited` | src/handler.js:155-171 | the edited record keeps `id`, `insertedAt` and `finished`, takes every payload field and `updatedAt == now`, and is well-formed when the payload is valid |
| `Books.Lower` | src/handler.js:81 | lower-casing keeps the length and lower-cases each character in place |
| `Books.LowerIdempotent` | src/handler.js:81 | lower-casing twice is lower-casing once |
| `Books.Contains` | src/handler.js:81 | `includes` holds whenever the query is a prefix, and never when the query is longer than the name |
| `Books.Keeps` | src/handler.js:80-81 | the `filter`/`findIndex` callbacks (name at :80-81, reading at :88, finished at :94, id at :113, :157, :193) as one `Criterion`; the name callback gives the same answer when the query is lower-cased again, and keeps nothing when the query is longer than the name |
| `Books.ContainsIffOccurs` | src/handler.js:81 | `includes` holds exactly when the query occurs at some position of the name |
| `Books.Filter` | src/handler.js:80-94 | the result is no longer than the input and holds exactly the input records the callback keeps |
| `Books.FilterIsSubsequence` | src/handler.js:80-94 | filtering keeps the records in their collection order |
| `Books.Project` | src/handler.js:97 | one `{id, name, publisher}` summary per record, position by position |
| `Books.Selected` | src/handler.js:78-95 | the last-filter-wins selection: never longer than the collection, and only records of the collection |
| `Books.SelectedIsSubsequence` | src/handler.js:78-97 | whatever the query, the list is an order-preserving subsequence of the collection |
| `Books.FinishedFilterWins` | src/handler.js:91-95 | with `finished` present, name and reading are ignored and the result is exactly the records with `finished == (finished == '1')` |
| `Books.ReadingFilterWins` | src/handler.js:85-89 | with `reading` present and `finished` absent, name is ignored and the result is exactly the records with `reading == (reading == '1')` |
| `Books.NameFilterAlone` | src/handler.js:79-83 | with only `name` present, the result is exactly the records whose lower-cased name contains the lower-cased query |
| `Books.NameFilterAt` | src/handler.js:79-83 | one record at a time: with only `name` present, a record is listed exactly when it is stored and its lower-cased name contains the lower-cased query |
| `Books.NameMatchIgnoresQueryCase` | src/handler.js:81 | the name filter gives the same verdict for a query and its lower-cased form |
| `Books.NoFilterListsAll` | src/handler.js:78-97 | with no parameter every record is listed, in order |
| `Books.PrecedenceExample` | src/handler.js:79-95 | `name=A&finished=1` over books A (unfinished) and B (finished) lists `[B]`, while narrowing would list nothing |
| `Books.FirstIndex` | src/handler.js:157 | -1 exactly when no record has the id; otherwise the index of a record with the id and no earlier one |
| `Books.IdFilterHead` | src/handler.js:113 | the id filter is empty exactly when `findIndex` gives -1, and its first element is the record `findIndex` finds |
| `Books.Lookup` | src/handler.js:113 | none exactly when no record has the id; otherwise the first record with that id |
| `Books.Removed` | src/handler.js:196 | one element shorter; the elements before the index stay, those after move down by one |
| `Books.RemovedIsSubsequence` | src/handler.js:196 | after the splice the remaining records keep their relative order |
| `Books.AppendFresh` | src/handler.js:47-50 | appending a valid record with a fresh id keeps ids distinct; the id then resolves to the appended record |
| `Books.RemoveFirst` | src/handler.js:193-196 | deleting the first match keeps the invariant and the order, and no record with that id remains |
| `Books.ReplaceFirst` | src/handler.js:157-171 | replacing the first match by its edited version keeps the invariant when the payload is valid |
| `Handler.Response.Code` | src/handler.js:11-209 | the status of each answer (201 at :60; 200 at :105, :116 (the framework default), :177, :201; 400 at :11, :23, :33, :68, :142, :151; 404 at :128, :185, :209; 500 when the edit body is missing): 201 exactly on create, 404 exactly on not found, 500 exactly on a missing edit body, 400 on every other failure, 200 on every other success |
| `Handler.BookStore.constructor` | src/handler.js:2 | the store starts empty and satisfies the invariant |
| `Handler.BookStore.FindIndex` | src/handler.js:157 | the scan returns the index of the first record with the id, or -1 |
| `Handler.BookStore.AddBook` | src/handler.js:4-70 | on each rejection, the matching 400 and no change; otherwise 201 with the id and exactly one record appended; the invariant is kept |
| `Handler.BookStore.GetAllBooks` | src/handler.js:74-107 | the answer is the projection of the last-filter-wins selection; the collection is not changed |
| `Handler.BookStore.GetBookById` | src/handler.js:110-130 | the first record with the id, or 404 when there is none; the collection is not changed |
| `Handler.BookStore.EditBookById` | src/handler.js:133-187 | no body gives 500; a bad payload gives the matching 400 before any lookup; an unknown id gives 404; each leaves the collection unchanged; otherwise only the first match is replaced by its edited version |
| `Handler.BookStore.DeleteBookById` | src/handler.js:190-211 | an unknown id gives 404 and no change; otherwise exactly the first match is removed |
| `Handler.DuneLifecycle` | src/handler.js:4-211 | create gives 201; fetch shows `finished`; edit to 50 of 100 pages keeps `finished` and `insertedAt`; after delete, fetch and a second delete give 404 |

## Left out

- `src/server.js` (server bootstrap, host and port, CORS) and the route table `./routes`: this is HTTP wiring. Each handler is a method here.
- `nanoid(16)` (src/handler.js:38): the id is a parameter. `AddBook` requires that no stored record has it, because a random collision is not modelled.
- `new Date().toISOString()` (src/handler.js:39, :155): the timestamp is an opaque string parameter `now`.
- Handler.BookStore.EditBookById: does not state that `updatedAt` increases, because timestamps are opaque strings.
- Hapi's `h.response(...)`/`code(...)` objects and the Indonesian message texts: a response is reduced to its `Response` variant and the status from `Code()`.
- JavaScript dynamic typing: `name` is a string and "" means missing (`!name`); the page counts are integers; `reading` is a boolean. Payload fields of other types are not modelled (for example a non-string name that makes `toLowerCase` throw, or comparisons with `undefined`). Query parameters are strings, and "" means absent.
- Books.Lower: lower-cases ASCII letters only, while `toLowerCase` is Unicode-aware.
- Concurrent requests racing on the shared array: each handler is one atomic method.
