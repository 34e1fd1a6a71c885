# Book catalog store

A model of the in-memory book catalog behind a small book API (`main.py`).
The catalog is one ordered list of book entries (id, title, author,
description, rating), seeded with five entries when the process starts. The
handlers list the whole catalog, look an entry up by id, filter by rating,
create an entry under a server-chosen id, update every entry with a given id,
and delete the first entry with a given id. Requests are validated against
field constraints before a handler runs.

- `books.dfy`, module `Books`: the `Book` and `BookRequest` values, the
  request constraints (`ValidRequest`), the seeded catalog, one specification
  function per handler (`FirstWithId`, `WithRating`, `FindBookId`, `Updated`,
  `DeleteFirst`) and the lemmas about them: lookups, filter selection and
  length, id order (`IdsIncreasing`) and field constraints (`AllWellFormed`)
  kept by each change.
- `store.dfy`, module `Store`: class `BookStore` with the catalog as a
  `seq<Book>` field and one method per handler. The methods loop over the
  catalog as the handlers do, and each is proved against its specification
  function.

Behaviour modelled as the code has it, including its quirks:

- Choosing the id for a new entry gives 1 when the catalog holds exactly one
  entry, gives the last id + 1 when it holds two or more, and fails on an
  empty catalog. The failure happens before anything is appended. It is
  modelled as `FindBookId` returning `None` and `CreateBook` returning
  `false` with the catalog unchanged. The evident intent is "last id + 1,
  or 1 if the catalog is empty"; see Findings.
- Lookup returns `None` when no entry matches. Update and delete do nothing
  when no entry matches. No not-found error is signalled.
- Update has no early exit: it replaces every entry whose id equals the
  request's id.
- The rating is an integer (the field is annotated as a string, but the code
  and the seeded data use integers).

## Model

| member | source | states |
|---|---|---|
| Books.ValidRequest | main.py:24-29 | a request is accepted only with a title of at least 3 characters, an author of at least 1, a description of 1 to 100 and a rating from 1 to 5; its definition is exactly that conjunction, and `WellFormed` reads the same constraints off a stored entry |
| Books.Seed | main.py:42-48 | the five seeded entries, in order, with ids 1 to 5 at positions 0 to 4 |
| Books.SeedIsOrderedAndWellFormed | main.py:42-48 | the seeded catalog has five entries with strictly increasing ids, and every entry meets the request field constraints |
| Store.BookStore.constructor | main.py:42-48 | a new store holds exactly the seeded catalog, whose ids increase and whose entries are well formed |
| Store.BookStore.ReadAllBook | main.py:51-53 | returns the whole catalog in insertion order |
| Books.IndexOfId | main.py:57-61 | gives no position exactly when no entry has the id; otherwise the position holds that id and no earlier position does |
| Books.FirstWithId | main.py:57-61 | gives None exactly when no entry has the id; otherwise the entry at the first position carrying that id |
| Books.FindsEveryEntry | main.py:57-61 | with increasing ids, looking up any entry's id returns that entry |
| Store.BookStore.ReadBookById | main.py:56-61 | the linear search returns None exactly when no entry has the id, otherwise the first entry with it; the catalog is not changed |
| Books.WithRating | main.py:66-70 | the filter result is no longer than the catalog and every entry in it has the requested rating |
| Books.WithRatingSelects | main.py:65-70 | the filter result is the catalog at exactly the positions holding the rating, taken in ascending order (an order-preserving subsequence) |
| Books.WithRatingLength | main.py:65-70 | the filter result is as long as the number of positions holding the rating |
| Books.WithRatingMembers | main.py:65-70 | an entry is in the filter result exactly when it is in the catalog and has the rating |
| Store.BookStore.ReadBookByRating | main.py:64-70 | the accumulating loop returns the order-preserving filter, with exactly the matching entries and the matching count; the catalog is not changed |
| Books.FindBookId | main.py:79-81 | fails exactly on an empty catalog; otherwise keeps the request's title, author, description and rating, with id 1 for a one-entry catalog and last id + 1 for a longer one |
| Books.FindBookIdIgnoresClientId | main.py:74-80 | the id the client sent has no effect on the entry that is created |
| Books.CreatedIsWellFormed | main.py:26-29 | a request that passed validation yields an entry meeting the same field constraints |
| Books.CreateKeepsIdsIncreasing | main.py:80 | with two or more entries in increasing id order, the new id exceeds every id in the catalog and appending keeps ids increasing |
| Books.SingleEntryCreateRepeatsId | main.py:80 | a one-entry catalog whose entry has a positive id gets a new entry with id 1, so ids stop increasing; if that entry's id is 1 the id is repeated |
| Books.IntendedNextId | main.py:80 | the intended id (1 on an empty catalog, else last + 1) exceeds every id of a catalog with increasing ids |
| Books.IntendedCreateKeepsIdsIncreasing | main.py:80 | under the intended id rule, creating keeps ids increasing and positive on every catalog, the empty and the one-entry catalog included |
| Store.BookStore.CreateBook | main.py:73-81 | succeeds exactly on a non-empty catalog and then appends one entry at the end, leaving earlier entries unchanged; on failure the catalog is unchanged; keeps the field constraints, and keeps id order when there were two or more entries |
| Books.Replacement | main.py:88 | the entry an update stores at a matching position carries that position's id and the request's title, author, description and rating |
| Books.Updated | main.py:85-88 | keeps the catalog length and the id at every position |
| Books.UpdateWithoutMatchIsNoOp | main.py:85-88 | an update whose id matches no entry leaves the catalog as it was |
| Books.UpdateKeepsIdsIncreasing | main.py:86-88 | increasing id order survives an update |
| Books.UpdateKeepsWellFormed | main.py:85-88 | storing a validated request keeps every entry within the field constraints |
| Books.UpdateThenLookup | main.py:85-88 | after an update, looking up the request's id finds the request's fields if the id was present, and a lookup of any other id finds what it found before |
| Store.BookStore.UpdateBook | main.py:84-88 | the loop replaces every position whose id equals the request id by the request and leaves every other position unchanged; the length is kept; field constraints and id order are kept |
| Books.DeleteFirst | main.py:92-96 | with no match the catalog is unchanged; otherwise it is one shorter, and the entries before the first match keep their positions while those after it move down by one |
| Books.DeleteFirstRemovesOne | main.py:92-96 | deleting removes exactly one occurrence of the first matching entry and nothing else |
| Books.DeleteKeepsIdsIncreasing | main.py:93-96 | increasing id order survives a delete |
| Books.DeleteKeepsWellFormed | main.py:93-96 | a delete keeps every remaining entry within the field constraints |
| Books.DeleteThenLookupFails | main.py:92-96 | with increasing ids, after deleting an id a lookup of that id finds nothing |
| Books.DeleteKeepsOtherLookups | main.py:92-96 | deleting one id does not change what a lookup of any other id finds |
| Store.BookStore.DeleteBook | main.py:91-96 | the loop removes only the first entry with the id and stops; keeps field constraints and id order; with increasing ids the id is gone afterwards |

## Left out

- The web framework: the application object, route decorators, path and query parameter binding, `async` handlers and HTTP status codes. The handlers are methods called directly.
- Request parsing and serialisation by the validation library, including the documented example body. Only the resulting field constraints are modelled, as `ValidRequest`, which `CreateBook` and `UpdateBook` require because validation runs before the handlers.
- Object identity and aliasing: the list a listing returns is the store's own list, and an update stores the same request object at every matching position. The model works on values, so later changes through such aliases are not captured.
- The request object that update stores: it is modelled as a `Book` carrying the matched id, since that id equals the request's id.
- Creating an entry from a request first copies all request fields into a new entry and then overwrites its id inside the id-choosing helper. The model builds the new entry in one step in `FindBookId`, because the entry is fresh and nobody else can see the intermediate state.
- The index error on an empty catalog is modelled as a failed result, not as an exception carried to the caller.
- Concurrent requests on the shared list: there is no locking, and the model is sequential.
- Unicode details of string length: a string is a sequence of characters and its length is the number of characters.

## Findings

| source | as written | input that shows it | evidently intended | confidence | as-written member | corrected member |
|---|---|---|---|---|---|---|
| main.py:80 | the id for a new entry is 1 when the catalog holds exactly one entry, else the last id + 1; the catalog is tested before the append | a catalog with one entry of id 1 (the seeded catalog after deleting ids 2 to 5), then create any valid request: two entries with id 1. The seeded catalog after deleting ids 1 to 4 holds only id 5; a create then gives ids 5, 1. An empty catalog: create fails on reading the last entry | id 1 when the catalog is empty, last id + 1 otherwise | high, not executed | Books.SingleEntryCreateRepeatsId | Books.IntendedCreateKeepsIdsIncreasing |

`BookStore.CreateBook` keeps the code's rule, so that the store does what the
code does. The corrected rule is `IntendedNextId`, and the lemma
`IntendedCreateKeepsIdsIncreasing` shows that it keeps ids increasing on
every catalog.
