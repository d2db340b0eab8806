/**
 * The request handlers of api.py, each one atomic step over a library passed
 * in by the caller (the source uses one module-level library). The routing,
 * request/response schemas and message texts are not modelled; a response is
 * its status code and the record it carries, if any.
 */
module Api {
  import opened Options
  import opened Text
  import opened Catalog

  /** The file the service's library uses. */
  const ApiLibraryFile := "api_library.json"
  const ApiVersion := "1.0.0"

  const StatusOk := 200
  const StatusBadRequest := 400
  const StatusNotFound := 404
  const StatusConflict := 409

  datatype Response = Response(status: int, book: Option<Book>)

  datatype Stats = Stats(totalBooks: nat, libraryFile: string, apiVersion: string)

  /** GET /books: every record, in catalog order. */
  method GetBooks(lib: Library) returns (r: seq<Book>)
    ensures r == lib.books
  {
    r := [];
    var i := 0;
    while i < |lib.books|
      invariant 0 <= i <= |lib.books|
      invariant r == lib.books[..i]
    {
      r := r + [Book(lib.books[i].title, lib.books[i].author, lib.books[i].isbn)];
      i := i + 1;
    }
  }

  /** The metadata service's answer for an isbn, given what it knows; None for a miss or a failure. */
  function Answer(answers: map<string, Book>, isbn: string): Option<Book>
  {
    if isbn in answers then Some(answers[isbn]) else None
  }

  /**
   * The metadata lookup, which is not part of this model: a fixed table of
   * answers, and the log of the isbns it has been asked about, in order.
   */
  class Remote {
    const answers: map<string, Book>
    var log: seq<string>

    constructor (answers: map<string, Book>)
      ensures this.answers == answers && log == []
    {
      this.answers := answers;
      log := [];
    }

    /** One outbound request: it is logged, and answered from the table. */
    method Fetch(isbn: string) returns (r: Option<Book>)
      modifies this`log
      ensures log == old(log) + [isbn]
      ensures r == Answer(answers, isbn)
    {
      log := log + [isbn];
      r := Answer(answers, isbn);
    }
  }

  /** POST /books: strip, reject blank, reject a present isbn, then ask the lookup once. */
  method AddBookByIsbn(lib: Library, requested: string, remote: Remote)
    returns (resp: Response)
    modifies lib`books, lib`stored, remote`log
    ensures var isbn := Strip(requested);
      if isbn == [] then
        resp == Response(StatusBadRequest, None) && unchanged(lib) && remote.log == old(remote.log)
      else if Find(old(lib.books), isbn).Some? then
        resp == Response(StatusConflict, None) && unchanged(lib) && remote.log == old(remote.log)
      else
        remote.log == old(remote.log) + [isbn] &&
        match Answer(remote.answers, isbn)
        case None =>
          resp == Response(StatusNotFound, None) && unchanged(lib)
        case Some(b) =>
          resp == Response(StatusOk, Some(b)) &&
          lib.books == old(lib.books) + [b] && lib.stored == Entries(Serialize(lib.books))
    ensures var isbn := Strip(requested);
      UniqueIsbns(old(lib.books)) && (isbn in remote.answers ==> remote.answers[isbn].isbn == isbn) ==>
      UniqueIsbns(lib.books)
  {
    var isbn := Strip(requested);
    if isbn == [] {
      return Response(StatusBadRequest, None);
    }
    var existing := lib.FindBook(isbn);
    if existing.Some? {
      return Response(StatusConflict, None);
    }
    var data := remote.Fetch(isbn);
    if data.Some? {
      var book := Book(data.value.title, data.value.author, data.value.isbn);
      if book.isbn == isbn {
        AppendAbsent(lib.books, book);
      }
      lib.AddBook(book);
      resp := Response(StatusOk, Some(book));
    } else {
      resp := Response(StatusNotFound, None);
    }
  }

  /** POST /books/manual: every field must be non-blank; the duplicate check and the record use the fields as given. */
  method AddBookManually(lib: Library, title: string, author: string, isbn: string)
    returns (resp: Response)
    modifies lib`books, lib`stored
    ensures (Strip(title) == [] || Strip(author) == [] || Strip(isbn) == []) ==>
      resp == Response(StatusBadRequest, None) && unchanged(lib)
    ensures Strip(title) != [] && Strip(author) != [] && Strip(isbn) != [] && Find(old(lib.books), isbn).Some? ==>
      resp == Response(StatusConflict, None) && unchanged(lib)
    ensures Strip(title) != [] && Strip(author) != [] && Strip(isbn) != [] && Find(old(lib.books), isbn).None? ==>
      resp == Response(StatusOk, Some(Book(title, author, isbn))) &&
      lib.books == old(lib.books) + [Book(title, author, isbn)] &&
      lib.stored == Entries(Serialize(lib.books))
    ensures UniqueIsbns(old(lib.books)) ==> UniqueIsbns(lib.books)
  {
    if Strip(title) == [] || Strip(author) == [] || Strip(isbn) == [] {
      return Response(StatusBadRequest, None);
    }
    var existing := lib.FindBook(isbn);
    if existing.Some? {
      return Response(StatusConflict, None);
    }
    var book := Book(title, author, isbn);
    AppendAbsent(lib.books, book);
    lib.AddBook(book);
    resp := Response(StatusOk, Some(book));
  }

  /** GET /books/{isbn}: the record `find_book` finds, or 404. */
  method GetBookByIsbn(lib: Library, isbn: string) returns (resp: Response)
    ensures resp.status == StatusOk || resp.status == StatusNotFound
    ensures resp.status == StatusNotFound <==> forall j :: 0 <= j < |lib.books| ==> lib.books[j].isbn != isbn
    ensures resp.status == StatusOk ==> resp.book == Find(lib.books, isbn) && resp.book.value.isbn == isbn
    ensures resp.status == StatusNotFound ==> resp.book == None
  {
    var found := lib.FindBook(isbn);
    if found.None? {
      return Response(StatusNotFound, None);
    }
    resp := Response(StatusOk, found);
  }

  /** DELETE /books/{isbn}: 404 and nothing changes, or the found record leaves the catalog and the file is rewritten. */
  method RemoveBook(lib: Library, isbn: string) returns (resp: Response)
    modifies lib`books, lib`stored
    ensures var k := FirstIndex(old(lib.books), isbn);
      if k == |old(lib.books)| then
        resp == Response(StatusNotFound, None) && unchanged(lib)
      else
        resp == Response(StatusOk, Some(old(lib.books)[k])) &&
        lib.books == old(lib.books)[..k] + old(lib.books)[k + 1..] &&
        |lib.books| == |old(lib.books)| - 1 &&
        lib.stored == Entries(Serialize(lib.books))
    ensures UniqueIsbns(old(lib.books)) ==> UniqueIsbns(lib.books) && Find(lib.books, isbn).None?
  {
    var found := lib.FindBook(isbn);
    if found.None? {
      return Response(StatusNotFound, None);
    }
    var book := found.value;
    RemoveFirstAt(lib.books, isbn);
    if UniqueIsbns(lib.books) {
      RemoveAtKeepsUnique(lib.books, isbn);
    }
    lib.books := RemoveFirst(lib.books, book);
    lib.SaveBooks();
    resp := Response(StatusOk, Some(book));
  }

  /** GET /stats. */
  method GetLibraryStats(lib: Library) returns (s: Stats)
    ensures s.totalBooks == |lib.books|
    ensures s.libraryFile == lib.filename && s.apiVersion == ApiVersion
  {
    s := Stats(|lib.books|, lib.filename, ApiVersion);
  }

  /** Scenario: on a library that starts from a missing file, a lookup that succeeds stores the record it returns. */
  method ScenarioAddByIsbn(b: Book)
    requires b.isbn != [] && !IsSpace(b.isbn[0]) && !IsSpace(b.isbn[|b.isbn| - 1])
  {
    var lib := new Library(ApiLibraryFile, Missing);
    var remote := new Remote(map[b.isbn := b]);
    var resp := AddBookByIsbn(lib, b.isbn, remote);
    assert resp == Response(StatusOk, Some(b)) && lib.books == [b] && remote.log == [b.isbn];
    var found := lib.FindBook(b.isbn);
    assert found == Some(b);
    SaveLoadRoundTrip(lib.books);
    assert Load(lib.stored) == Loaded([b]);
  }

  /** Scenario: a second add of an isbn already present is a conflict and leaves the original record in place. */
  method ScenarioConflict(existing: Book, answers: map<string, Book>)
    requires existing.isbn != [] && !IsSpace(existing.isbn[0]) && !IsSpace(existing.isbn[|existing.isbn| - 1])
  {
    var lib := new Library(ApiLibraryFile, Missing);
    lib.AddBook(existing);
    var remote := new Remote(answers);
    var resp := AddBookByIsbn(lib, existing.isbn, remote);
    assert resp.status == StatusConflict && remote.log == [] && lib.books == [existing];
  }

  /** Scenario: a manual add with a blank title is rejected and changes nothing. */
  method ScenarioBlankTitle(start: FileState, author: string, isbn: string)
    requires Load(start).Loaded?
  {
    var lib := new Library(ApiLibraryFile, start);
    var resp := AddBookManually(lib, "", author, isbn);
    assert resp.status == StatusBadRequest && lib.books == Load(start).books && lib.stored == start;
  }
}
