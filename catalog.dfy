/**
 * The catalog store of main.py: book records, their dictionary form, the
 * catalog file's content, and the `library` object that keeps the records
 * in insertion order and rewrites the whole file after every change.
 */
module Catalog {
  import opened Options

  /** A catalog record. Nothing reassigns a record's attributes after construction. */
  datatype Book = Book(title: string, author: string, isbn: string)

  /** One element of the catalog file: a JSON object whose values are strings. */
  type Entry = map<string, string>

  /** `book.to_dict()`. */
  function ToDict(b: Book): (d: Entry)
    ensures HasBookKeys(d) && d.Keys == {"title", "author", "isbn"}
  {
    map["title" := b.title, "author" := b.author, "isbn" := b.isbn]
  }

  /** The keys `load_books` reads out of each entry. */
  predicate HasBookKeys(d: Entry)
  {
    "title" in d && "author" in d && "isbn" in d
  }

  /** `book(b['title'], b['author'], b['isbn'])`; extra keys are ignored. */
  function FromDict(d: Entry): Book
    requires HasBookKeys(d)
  {
    Book(d["title"], d["author"], d["isbn"])
  }

  /** `to_dict` keeps the three attributes under their own names, so reading them back gives the record. */
  lemma DictRoundTrip(b: Book)
    ensures ToDict(b)["title"] == b.title && ToDict(b)["author"] == b.author && ToDict(b)["isbn"] == b.isbn
    ensures FromDict(ToDict(b)) == b
  {
  }

  /** What the catalog file holds, as far as opening and parsing it goes. */
  datatype FileState =
    | Missing                       // `open` raises FileNotFoundError
    | Malformed                     // `json.load` raises JSONDecodeError; an empty file is one
    | Entries(entries: seq<Entry>)  // a JSON list of objects with string values

  /** The outcome of `load_books`: the records, or the KeyError it lets escape. */
  datatype LoadResult = Loaded(books: seq<Book>) | MissingKey

  /** The list comprehension of `save_books`: `to_dict` of every record, in order. */
  function Serialize(bs: seq<Book>): (r: seq<Entry>)
    ensures |r| == |bs|
    ensures forall i :: 0 <= i < |bs| ==> r[i] == ToDict(bs[i])
  {
    if bs == [] then [] else [ToDict(bs[0])] + Serialize(bs[1..])
  }

  /** The list comprehension of `load_books`; None when some entry lacks a key. */
  function Deserialize(es: seq<Entry>): (r: Option<seq<Book>>)
    ensures r.Some? <==> forall i :: 0 <= i < |es| ==> HasBookKeys(es[i])
    ensures r.Some? ==> |r.value| == |es| && forall i :: 0 <= i < |es| ==> r.value[i] == FromDict(es[i])
  {
    if es == [] then Some([])
    else if !HasBookKeys(es[0]) then None
    else match Deserialize(es[1..])
      case None => None
      case Some(rest) => Some([FromDict(es[0])] + rest)
  }

  /** `load_books`: a missing or unparsable file gives the empty catalog. */
  function Load(f: FileState): (r: LoadResult)
    ensures (f.Missing? || f.Malformed?) ==> r == Loaded([])
    ensures f.Entries? ==> (r.Loaded? <==> forall i :: 0 <= i < |f.entries| ==> HasBookKeys(f.entries[i]))
    ensures f.Entries? && r.Loaded? ==>
      |r.books| == |f.entries| && forall i :: 0 <= i < |f.entries| ==> r.books[i] == FromDict(f.entries[i])
  {
    match f
    case Missing => Loaded([])
    case Malformed => Loaded([])
    case Entries(es) =>
      match Deserialize(es)
      case None => MissingKey
      case Some(bs) => Loaded(bs)
  }

  /** Saving a catalog and loading the file back gives the same records in the same order. */
  lemma SaveLoadRoundTrip(bs: seq<Book>)
    ensures Load(Entries(Serialize(bs))) == Loaded(bs)
  {
  }

  /** The position of the first record whose isbn equals `isbn` exactly, or |s| when there is none. */
  function FirstIndex(s: seq<Book>, isbn: string): (k: nat)
    ensures k <= |s|
    ensures forall j :: 0 <= j < k ==> s[j].isbn != isbn
    ensures k < |s| ==> s[k].isbn == isbn
  {
    if s == [] then 0
    else if s[0].isbn == isbn then 0
    else 1 + FirstIndex(s[1..], isbn)
  }

  /** What `find_book` answers: the first record with that isbn, if any. */
  function Find(s: seq<Book>, isbn: string): (r: Option<Book>)
    ensures r.None? <==> forall j :: 0 <= j < |s| ==> s[j].isbn != isbn
    ensures r.Some? ==> r.value in s && r.value.isbn == isbn
  {
    var k := FirstIndex(s, isbn);
    if k < |s| then Some(s[k]) else None
  }

  /** Python's `list.remove(x)` on values: drop the first element equal to `x`. Python raises ValueError when `x`
      is absent; every caller passes a record the scan has just found, so that case is excluded. */
  function RemoveFirst<T(==)>(s: seq<T>, x: T): (r: seq<T>)
    requires x in s
    ensures |r| == |s| - 1
  {
    if s[0] == x then s[1..]
    else
      assert s == [s[0]] + s[1..];
      [s[0]] + RemoveFirst(s[1..], x)
  }

  /** `list.remove(x)` takes away one occurrence of `x` and keeps every other element. */
  lemma {:induction false} RemoveFirstMultiset<T>(s: seq<T>, x: T)
    requires x in s
    ensures multiset(RemoveFirst(s, x)) == multiset(s) - multiset{x}
  {
    assert s == [s[0]] + s[1..];
    if s[0] != x {
      RemoveFirstMultiset(s[1..], x);
    }
  }

  /** Removing the record `find_book` found removes exactly the element at its index. */
  lemma {:induction false} RemoveFirstAt(s: seq<Book>, isbn: string)
    requires FirstIndex(s, isbn) < |s|
    ensures var k := FirstIndex(s, isbn);
      RemoveFirst(s, s[k]) == s[..k] + s[k + 1..]
  {
    var k := FirstIndex(s, isbn);
    if k > 0 {
      assert FirstIndex(s[1..], isbn) == k - 1;
      RemoveFirstAt(s[1..], isbn);
      assert s[1..][k - 1] == s[k];
      assert s[0] != s[k];
      assert s[1..][..k - 1] + s[1..][k..] == s[1..k] + s[k + 1..];
      assert [s[0]] + s[1..k] == s[..k];
    }
  }

  /** The catalog invariant every handler relies on: no two records share an isbn. */
  predicate UniqueIsbns(s: seq<Book>)
  {
    forall i, j :: 0 <= i < j < |s| ==> s[i].isbn != s[j].isbn
  }

  /** Appending a record whose isbn is absent keeps isbns unique, and the record is then what a lookup finds. */
  lemma AppendAbsent(s: seq<Book>, b: Book)
    requires Find(s, b.isbn).None?
    ensures UniqueIsbns(s) ==> UniqueIsbns(s + [b])
    ensures Find(s + [b], b.isbn) == Some(b)
  {
    var t := s + [b];
    assert t[|s|] == b;
  }

  /** Appending a record leaves every lookup that already succeeded unchanged. */
  lemma AppendKeepsFound(s: seq<Book>, b: Book, isbn: string)
    requires Find(s, isbn).Some?
    ensures Find(s + [b], isbn) == Find(s, isbn)
  {
    var k := FirstIndex(s, isbn);
    var t := s + [b];
    assert t[k] == s[k];
  }

  /** Removing one element keeps isbns unique; in a catalog with unique isbns, the removed isbn is then absent. */
  lemma RemoveAtKeepsUnique(s: seq<Book>, isbn: string)
    requires UniqueIsbns(s)
    requires FirstIndex(s, isbn) < |s|
    ensures var k := FirstIndex(s, isbn);
      UniqueIsbns(s[..k] + s[k + 1..]) && Find(s[..k] + s[k + 1..], isbn).None?
  {
  }

  /** The catalog store: its file name, what its file holds, and the records in insertion order. */
  class Library {
    var filename: string
    var stored: FileState
    var books: seq<Book>

    /** `library(filename)`: read the file once. The source's constructor raises when an entry lacks a key. */
    constructor (filename: string, stored: FileState)
      requires Load(stored).Loaded?
      ensures this.filename == filename && this.stored == stored
      ensures books == Load(stored).books
    {
      this.filename := filename;
      this.stored := stored;
      books := Load(stored).books;
    }

    /** `save_books`: overwrite the whole file with the records, in order. */
    method SaveBooks()
      modifies this`stored
      ensures stored == Entries(Serialize(books))
    {
      stored := Entries(Serialize(books));
    }

    /** `add_book`: append at the end, with no duplicate check, then save. */
    method AddBook(b: Book)
      modifies this`books, this`stored
      ensures books == old(books) + [b]
      ensures stored == Entries(Serialize(books))
    {
      books := books + [b];
      SaveBooks();
    }

    /** `find_book`: a linear scan that returns the first record with exactly that isbn. */
    method FindBook(isbn: string) returns (r: Option<Book>)
      ensures r == Find(books, isbn)
      ensures r.Some? ==> r.value.isbn == isbn
      ensures r.None? <==> forall j :: 0 <= j < |books| ==> books[j].isbn != isbn
    {
      var i := 0;
      while i < |books|
        invariant 0 <= i <= |books|
        invariant forall j :: 0 <= j < i ==> books[j].isbn != isbn
      {
        if books[i].isbn == isbn {
          return Some(books[i]);
        }
        i := i + 1;
      }
      return None;
    }

    /** `remove_book`: remove the record `find_book` finds and save; when there is none, change nothing and do not save.
        Like the source, it reports nothing back. */
    method RemoveBook(isbn: string)
      modifies this`books, this`stored
      ensures var k := FirstIndex(old(books), isbn);
        if k < |old(books)| then
          books == old(books)[..k] + old(books)[k + 1..] && stored == Entries(Serialize(books))
        else
          books == old(books) && stored == old(stored)
    {
      var found := FindBook(isbn);
      if found.Some? {
        RemoveFirstAt(books, isbn);
        books := RemoveFirst(books, found.value);
        SaveBooks();
      }
    }
  }

  /** Constructing a library: None where the source's constructor raises KeyError. */
  method Open(filename: string, stored: FileState) returns (r: Option<Library>)
    ensures r.Some? <==> Load(stored).Loaded?
    ensures r.Some? ==> fresh(r.value) && r.value.filename == filename && r.value.stored == stored
    ensures r.Some? ==> r.value.books == Load(stored).books
  {
    if Load(stored).Loaded? {
      var lib := new Library(filename, stored);
      r := Some(lib);
    } else {
      r := None;
    }
  }
}
