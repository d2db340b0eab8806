# Personal library catalog: a Dafny model

This project models the core of a small personal-library service: an in-memory
catalog of book records (title, author, ISBN), kept in insertion order and
written in full to a flat JSON file after every change, and the REST request
handlers that validate a request and then change the catalog.

- `options.dfy`, module `Options`: the `Option` type, standing for Python's `None` or an object.
- `text.dfy`, module `Text`: Python's `str.strip()` (`Strip`), which the handlers use to reject blank fields.
- `catalog.dfy`, module `Catalog` (main.py):
  - a `Book` datatype and its dictionary form (`ToDict`, `FromDict`);
  - the file's content as a `FileState`: `Missing`, `Malformed` (not valid JSON), or `Entries` (a list of string-valued objects);
  - `Serialize` and `Load`, the two list comprehensions of `save_books` and `load_books`;
  - `FirstIndex`, `Find` and `RemoveFirst`, specification functions for the linear scan and for Python's `list.remove` of an element that is present;
  - the class `Library`, with fields `filename`, `stored` (what the file holds) and `books`, and methods `SaveBooks`, `AddBook`, `FindBook` and `RemoveBook` that update those fields in place.
- `api.dfy`, module `Api` (api.py): one method per handler. The library is a parameter, not a module-level global. A response is a status code plus the record it carries. The metadata lookup is a `Remote` object: a fixed table `answers` from ISBN to the record the service would return, and a `log` that its `Fetch` method extends with every ISBN it is asked about. The handler contracts state `log`, so "a rejected request never consults the lookup" is a statement about calls. Three scenario methods (`ScenarioAddByIsbn`, `ScenarioConflict`, `ScenarioBlankTitle`) exercise the contracts on the behaviour the repository's tests describe.

Where the source and its test files disagree, the model follows the source:

- `load_books` (main.py:20-26) catches only a missing file and a JSON syntax error. An entry that lacks one of the three keys raises `KeyError`, which escapes from the `library` constructor. So `Load` returns `MissingKey` for it, not the empty catalog. The constructor requires a loadable file. `Catalog.Open` is the total entry point: it returns `None` where the source raises.
- `add_book` (main.py:32-35) has no duplicate check, although test_library.py:76-82 expects one. `Library.AddBook` appends unconditionally.
- `remove_book` (main.py:37-44) returns nothing, although test_library.py:105-112 expects `True`/`False`. `Library.RemoveBook` has no result.
- api.py:4 imports `Library` and `Book`, but main.py defines `library` and `book`. api.py:86 calls `library.fetch_book_from_api`, which main.py does not define. The model treats both names as the classes main.py defines. The lookup is the `Remote` object passed in.
- On success, `add_book_by_isbn` stores the ISBN that the lookup returns, not the one requested (api.py:89). The model does the same. Its uniqueness guarantee therefore holds only when the lookup returns the ISBN it was asked for.

## Model

| member | source | states |
|---|---|---|
| Catalog.DictRoundTrip | main.py:12-13 | `to_dict` holds each attribute under its own key, and reading the three keys back rebuilds the record |
| Catalog.ToDict | main.py:12-13 | the dictionary has exactly the keys title, author and isbn |
| Catalog.Serialize | main.py:28-30 | the persisted list has one entry per record, in order, each the record's `to_dict` |
| Catalog.Deserialize | main.py:24 | rebuilding succeeds exactly when every entry has the three keys; the records then correspond to the entries one by one, in order |
| Catalog.Load | main.py:20-26 | a missing or unparsable file loads as the empty catalog; a list loads exactly when every entry has the three keys, and record i is then built from entry i |
| Catalog.SaveLoadRoundTrip | main.py:20-30 | loading what `save_books` wrote gives back the same records in the same order |
| Catalog.FirstIndex | main.py:46-50 | the index of the first record whose isbn equals the query exactly; no earlier record matches; `\|books\|` when none matches |
| Catalog.Find | main.py:46-50 | absent exactly when no record has that isbn; when present it is a record of the catalog with that isbn |
| Catalog.RemoveFirst | api.py:175 | `list.remove(x)` for an `x` in the list (the only case the callers reach; Python raises ValueError otherwise): the list becomes one shorter |
| Catalog.RemoveFirstMultiset | api.py:175 | `list.remove(x)` removes one occurrence of `x` and keeps every other element |
| Catalog.RemoveFirstAt | main.py:37-40 | removing the record `find_book` returned removes exactly the element at its index; the rest keep their order |
| Catalog.AppendAbsent | api.py:119-124 | appending a record whose isbn is absent keeps isbns unique, and a lookup of that isbn then finds the new record |
| Catalog.AppendKeepsFound | main.py:32-33 | appending leaves the answer of every lookup that already succeeded unchanged |
| Catalog.RemoveAtKeepsUnique | api.py:171-175 | in a catalog with unique isbns, removing the found record keeps isbns unique and makes that isbn absent |
| Catalog.Library.constructor | main.py:16-18 | the new library holds the given file name, and the records the file loads as |
| Catalog.Open | main.py:16-26 | a library is built exactly when the file loads; it then holds the loaded records |
| Catalog.Library.SaveBooks | main.py:28-30 | the file now holds `Serialize(books)`; the records are unchanged |
| Catalog.Library.AddBook | main.py:32-34 | the records become the old list plus the new record at the end, with no duplicate check; the file is rewritten |
| Catalog.Library.FindBook | main.py:46-50 | the scan returns exactly `Find(books, isbn)`, and None exactly when no record has that isbn |
| Catalog.Library.RemoveBook | main.py:37-44 | for a present isbn, exactly the first matching record is removed and the file is rewritten; for an absent isbn, records and file are unchanged |
| Text.Strip | api.py:76 | the result is the input with only leading and trailing whitespace removed: the slice of the input that starts after its leading whitespace, with only whitespace before and after it, and it neither starts nor ends with whitespace |
| Text.StripEmptyIff | api.py:78 | a string is blank after `strip()` exactly when all its characters are whitespace in the sense of `str.isspace()` |
| Api.GetBooks | api.py:45-60 | the response lists every record, in catalog order |
| Api.Remote.Fetch | api.py:86 | one request to the lookup: the isbn is appended to the log of requests, and the answer is the table's entry for it, or None |
| Api.AddBookByIsbn | api.py:62-99 | blank after stripping: 400, the lookup's log unchanged and nothing else changed. Stripped isbn present: 409, the log unchanged and nothing else changed. Otherwise the stripped isbn is sent to the lookup exactly once (the log grows by it). A miss gives 404 with nothing changed. A hit appends exactly the returned record, rewrites the file and returns that record. Isbns stay unique when the lookup answers with the isbn it was asked for |
| Api.AddBookManually | api.py:101-131 | any field blank after stripping: 400 with nothing changed. Unstripped isbn present: 409 with nothing changed. Otherwise the record with the fields as given is appended, the file is rewritten and the record is returned. Isbns stay unique |
| Api.GetBookByIsbn | api.py:133-155 | 404 exactly when no record has the isbn; otherwise 200 with the record `find_book` finds; nothing changes |
| Api.RemoveBook | api.py:157-178 | absent isbn: 404 with nothing changed. Otherwise the first matching record is removed: the count drops by one, the others keep their order, the file is rewritten and the removed record is returned. With unique isbns, the isbn is then absent |
| Api.GetLibraryStats | api.py:185-197 | `total_books` equals the number of records; it also reports the library's file name and the API version 1.0.0 |

## Left out

- The web framework: application set-up, routing, the pydantic request and response models, CORS, and the root and health endpoints. These are glue code.
- Response details: message texts and the `detail` strings. A response is only its status code and its record.
- The Open Library lookup (`fetch_book_from_api`). main.py does not define it, so its author fan-out and its placeholder titles and authors are not part of this model. Its answers are the `Remote` table. A network failure is a miss.
- JSON syntax, indentation and encoding. A file is a `FileState`. Entry values are strings.
- JSON shapes other than a list of string-valued objects. `Entry` is `map<string, string>`, so non-string values cannot be expressed; main.py:4-7 and 24 would load them without error, since `book()` accepts any value. Some other shapes load silently: a top-level `{}` or `""` iterates as empty and loads as the empty catalog. Others raise a `TypeError` that main.py:25 does not catch: a top-level number, `null`, `true`, non-empty object or non-empty string, and a list with non-object entries such as `["x"]`.
- Write failures in `save_books`. A save always succeeds.
- `print` output, `book.__str__` and `list_books`. These are console text only.
- The default file name `Library.json` of the constructor (main.py:16). The model's constructor always takes the file name as an argument.
- Object identity. Records are values. Python's `list.remove` removes the first element that is the same object. The model removes the first value-equal element. `Catalog.RemoveFirstAt` shows that this is the record at the index `find_book` found.
- Concurrency between the asynchronous handlers, which share one library. Each handler is one atomic step.
