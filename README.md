# Book catalogue model

A Dafny model of the in-memory book catalogue behind a small book service
(`books.py`). The service keeps a module-level list of book records. It
starts with five seed books. The request handlers read that list, append to
it, overwrite entries by id, and remove entries.

The model is one module, `Books` (`books.dfy`):

- `Book` is a stored record. `BookRequest` is a request body with an
  optional id and the predicate `Valid` for its field constraints: title,
  author and description hold 3 to 100 characters, and the rating is 1 to 5.
- `Catalogue` is a class whose field `books: seq<Book>` plays the part of
  the global list. Each handler, and the helper `FindBookId`, is a method of `Catalogue`: `ReadAllBooks`,
  `ReadBookById`, `ReadBooksByRating`, `FindBookId`, `CreateBook`,
  `UpdateBook` and `DeleteBook`. Where the source loops (lookup, filter,
  update, delete), the method loops, with invariants.
- The specification functions are `FirstIndex` (first position of an id),
  `WithRating` (filter), `NextId` ("last id + 1, or 1"), `Replaced`
  (update) and `RemoveAt` (delete). Lemmas about them give the catalogue
  invariant and the read-after-write properties.

The catalogue invariant `Catalogue.Valid` says that ids are positive and
strictly increasing in list order. Create, update and delete each keep it.
No method requires it: each ensures `old(Valid()) ==> Valid()`. Under this
invariant the last record always has the largest id. So "last id + 1" is
always a fresh id, even though the code never computes a maximum.

The model follows the code as written:
- A lookup of a missing id returns nothing (`None`), not an error (books.py:75).
- An update whose id matches no record silently changes nothing (books.py:110-112).
- A delete of a missing id returns the message "Book not found" (books.py:123).
- `Book` has exactly the five fields of books.py:8-20.

## Model

| member | source | states |
|---|---|---|
| `Books.BookRequest.Valid` | books.py:26-29 | Title, author and description each hold 3 to 100 characters and the rating is 1 to 5; the request is valid exactly when all four hold |
| `Books.RatingBoundaries` | books.py:26-29 | With valid text fields, a request with rating 0 or 6 is invalid and one with rating 1 or 5 is valid |
| `Books.SeedFacts` | books.py:43-58 | The seed list has positive, strictly increasing ids, every seed record meets the field constraints, and the next id it hands out is 6 |
| `Books.Catalogue.constructor` | books.py:43-58 | The catalogue starts as the seed list and satisfies the id invariant and the field constraints |
| `Books.Catalogue.ReadAllBooks` | books.py:63-65 | Returns the whole catalogue, in its current order |
| `Books.FirstIndex` | books.py:72-75 | The position returned is at most the length; no earlier record has the id; a position inside the list holds a record with that id |
| `Books.Catalogue.ReadBookById` | books.py:71-75 | Returns nothing exactly when no record has the id; otherwise returns the first record in list order with that id |
| `Books.WithRating` | books.py:82-87 | The filtered list is no longer than the catalogue and holds only catalogue records with the requested rating |
| `Books.WithRatingCount` | books.py:84-86 | Every record with the requested rating appears in the filtered list as often as in the catalogue; no other record appears |
| `Books.WithRatingOrdered` | books.py:84-86 | The filtered list is a subsequence of the catalogue, so relative order is kept |
| `Books.Catalogue.ReadBooksByRating` | books.py:81-87 | Returns exactly the records with the rating, with their multiplicities, as a subsequence of the catalogue; an empty result is an ordinary result |
| `Books.FromRequest` | books.py:92 | The record built from a request carries the given id and meets the field constraints exactly when the request is valid |
| `Books.NextId` | books.py:97-103 | On a catalogue with positive increasing ids, the next id is positive and larger than every id present |
| `Books.Catalogue.FindBookId` | books.py:97-103 | The new record copies the request's fields; its id is the last record's id plus 1, or 1 on an empty catalogue; any id in the request is dropped; under the invariant the id is fresh and larger than all others |
| `Books.AppendFresh` | books.py:93 | Appending a record with the next id keeps ids positive and increasing, and a lookup of that id finds the new record at the end |
| `Books.Catalogue.CreateBook` | books.py:91-93 | The catalogue grows by exactly the new record at the end, earlier records unchanged; the invariant is kept; the new id is found at the new position; field constraints are kept for a valid request |
| `Books.UpdatedRecord` | books.py:111-112 | A record whose id equals the request's id is replaced by the request's fields under the same id; any other record is returned unchanged |
| `Books.Replaced` | books.py:110-112 | An update keeps the length and the id at every position |
| `Books.ReplacedKeepsIds` | books.py:110-112 | An update keeps ids positive and strictly increasing |
| `Books.ReplacedMissing` | books.py:110-112 | An update whose id matches no record leaves the catalogue unchanged |
| `Books.UpdateThenRead` | books.py:109-112 | After an update of an existing id, a lookup of that id finds the same position, now holding exactly the request's fields with no old field left |
| `Books.Catalogue.UpdateBook` | books.py:109-112 | The length is unchanged; every record whose id equals the request's id is overwritten by the request's fields; every other record is untouched; with no match nothing changes; the invariant and the field constraints are kept |
| `Books.RemoveAt` | books.py:121 | Removing position k shortens the list by one, keeps the records before k, and shifts the records after k down by one |
| `Books.RemoveKeepsIds` | books.py:119-121 | Removing one record keeps ids positive and strictly increasing |
| `Books.DeleteThenMissing` | books.py:119-121 | With unique ids, after the first record with an id is removed, no record has that id |
| `Books.Catalogue.DeleteBook` | books.py:118-123 | Removes only the first record with the id, keeps the order of the rest and reports "Book deleted successfully"; with no match the catalogue is unchanged and it reports "Book not found"; the invariant is kept and afterwards no record has the id |
| `Books.SeedScenario` | books.py:43-123 | Starting from the seed list: a created book gets id 6 and is found by that id; after it is deleted, a lookup of id 6 returns nothing; after id 3 is updated to rating 1, a lookup returns exactly the request's fields and the rating-1 filter contains that record |

## Left out

- The web framework: app creation, route decorators, `async` handlers and response shaping (books.py:1-5 and the decorator lines). A handler is a method of `Catalogue`. Delete's `{"message": ...}` dictionary is reduced to the message string.
- Request validation by the model library: requests that break the constraints never reach the handlers. The handlers here accept any `BookRequest`. The constraints are the predicate `BookRequest.Valid`, and create and update keep `AllWellFormed` whenever the request is valid. The library's schema example (books.py:31-40) is documentation and is not modelled.
- `model_dump()` and keyword construction (books.py:92) are direct field copies (`FromRequest`). `FindBookId` takes the request rather than a half-built `Book` whose id is about to be overwritten.
- After an update, the list holds the request object itself (books.py:112), so it mixes two element types. The model stores a `Book` with the same id and fields instead.
- Aliasing: `read_all_books` returns the live list object. The model returns the sequence value, so later changes are not visible through it.
- Concurrent requests on the shared list: the code has no synchronisation, and every handler here is one atomic step.
