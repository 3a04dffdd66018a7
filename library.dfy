/** The Book and Library classes: books are objects whose availability flag is
    updated in place, and a Library holds references to them in insertion order.
    Every Library method scans its books the way the for-each loops do, and is
    proved to change the catalog exactly as the matching function of module
    Catalog says. */
module Library {
  import opened Text
  import opened Catalog

  /** One catalog entry. Title, author and ISBN never change after construction;
      the availability flag does (setAvailable). The fields are what the getters return. */
  class Book {
    const title: string
    const author: string
    const isbn: string
    var available: bool

    /** A new book is always available. No check is made on the ISBN. */
    constructor (title: string, author: string, isbn: string)
      ensures this.title == title && this.author == author && this.isbn == isbn
      ensures available
    {
      this.title := title;
      this.author := author;
      this.isbn := isbn;
      available := true;
    }

    /** The book's current state as a value. */
    function Value(): Entry
      reads this
    {
      Entry(title, author, isbn, available)
    }

    /** setAvailable: only the flag changes. */
    method SetAvailable(available: bool)
      modifies this
      ensures this.available == available
    {
      this.available := available;
    }

    /** getBookDetails, read from the book's current state. */
    function Details(): string
      reads this
    {
      Value().Details()
    }
  }

  /** The catalog: an ordered list of book references, no two with the same ISBN. */
  class Library {
    var books: seq<Book>

    /** The catalog as values, in insertion order. */
    ghost function View(): (v: seq<Entry>)
      reads this, books
      ensures |v| == |books|
      ensures forall i :: 0 <= i < |books| ==> v[i] == books[i].Value()
    {
      var bs := books;
      seq(|bs|, i requires 0 <= i < |bs| reads bs => bs[i].Value())
    }

    /** The catalog invariant: ISBNs are unique. */
    ghost predicate Valid()
      reads this, books
    {
      UniqueIsbns(View())
    }

    /** A new library is empty, and the invariant holds. */
    constructor ()
      ensures Valid() && books == [] && View() == []
    {
      books := [];
    }

    /** addBook: false and no change when some book already has this ISBN;
        otherwise the book is appended at the end and the answer is true. */
    method AddBook(book: Book) returns (added: bool)
      requires Valid()
      modifies this
      ensures Valid()
      ensures (added, View()) == Add(old(View()), book.Value())
      ensures books == if added then old(books) + [book] else old(books)
    {
      var i := 0;
      while i < |books|
        invariant 0 <= i <= |books|
        invariant forall j :: 0 <= j < i ==> books[j].isbn != book.isbn
      {
        if books[i].isbn == book.isbn {
          assert View()[i].isbn == book.isbn;
          return false;
        }
        i := i + 1;
      }
      ghost var before := View();
      books := books + [book];
      assert View() == before + [book.Value()];
      AddKeepsUnique(before, book.Value());
      return true;
    }

    /** removeBook: deletes the book with this ISBN, keeping the others in order;
        false and no change when there is none. */
    method RemoveBook(isbn: string) returns (removed: bool)
      requires Valid()
      modifies this
      ensures Valid()
      ensures (removed, View()) == Remove(old(View()), isbn)
      ensures removed ==>
        exists k :: 0 <= k < |old(books)| && old(books)[k].isbn == isbn && books == old(books)[..k] + old(books)[k + 1..]
      ensures !removed ==> books == old(books)
    {
      var i := 0;
      while i < |books|
        invariant 0 <= i <= |books|
        invariant forall j :: 0 <= j < i ==> books[j].isbn != isbn
      {
        if books[i].isbn == isbn {
          ghost var before := View();
          assert Find(before, isbn) == Some(i) by {
            UniqueFirst(before, isbn, i);
          }
          books := books[..i] + books[i + 1..];
          assert View() == before[..i] + before[i + 1..];
          RemoveKeepsUnique(before, isbn);
          return true;
        }
        i := i + 1;
      }
      return false;
    }

    /** checkOutBook: the book with this ISBN becomes unavailable, provided it is
        found and currently available; otherwise false and no change. */
    method CheckOutBook(isbn: string) returns (ok: bool)
      requires Valid()
      modifies books
      ensures Valid()
      ensures (ok, View()) == SetAvailability(old(View()), isbn, false)
    {
      ok := SetFirst(isbn, false);
    }

    /** returnBook: the book with this ISBN becomes available, provided it is
        found and currently checked out; otherwise false and no change. */
    method ReturnBook(isbn: string) returns (ok: bool)
      requires Valid()
      modifies books
      ensures Valid()
      ensures (ok, View()) == SetAvailability(old(View()), isbn, true)
    {
      ok := SetFirst(isbn, true);
    }

    /** The scan shared by checkOutBook and returnBook: find the book, and flip its
        flag to `to` unless it is already there. */
    method SetFirst(isbn: string, to: bool) returns (ok: bool)
      requires Valid()
      modifies books
      ensures Valid()
      ensures (ok, View()) == SetAvailability(old(View()), isbn, to)
    {
      ghost var before := View();
      var i := 0;
      while i < |books|
        invariant 0 <= i <= |books|
        invariant forall j :: 0 <= j < i ==> books[j].isbn != isbn
      {
        var book := books[i];
        if book.isbn == isbn {
          UniqueFirst(before, isbn, i);
          if book.available != to {
            forall j | 0 <= j < |books| && j != i ensures books[j] != book {
              assert before[j].isbn != before[i].isbn;
            }
            book.SetAvailable(to);
            assert View() == before[i := before[i].(available := to)];
            SetAvailabilityKeepsUnique(before, isbn, to);
            return true;
          }
          return false;
        }
        i := i + 1;
      }
      return false;
    }

    /** displayAllBooks: the details line of every book, in insertion order;
        no lines exactly when the library is empty ("No books in the library"). */
    method DisplayAllBooks() returns (lines: seq<string>)
      ensures |lines| == |books|
      ensures lines == [] <==> books == []
      ensures forall i :: 0 <= i < |books| ==> lines[i] == View()[i].Details()
    {
      lines := [];
      for i := 0 to |books|
        invariant |lines| == i
        invariant forall j :: 0 <= j < i ==> lines[j] == books[j].Details()
      {
        lines := lines + [books[i].Details()];
      }
    }

    /** searchByTitle: the books whose title equals the query ignoring case, in
        insertion order; `found` is false exactly when there are none. */
    method SearchByTitle(title: string) returns (matches: seq<Entry>, found: bool)
      ensures matches == Matching(View(), ByTitle, title)
      ensures found <==> matches != []
    {
      matches, found := Search(ByTitle, title);
    }

    /** searchByAuthor: the books whose author equals the query ignoring case, in
        insertion order; `found` is false exactly when there are none. */
    method SearchByAuthor(author: string) returns (matches: seq<Entry>, found: bool)
      ensures matches == Matching(View(), ByAuthor, author)
      ensures found <==> matches != []
    {
      matches, found := Search(ByAuthor, author);
    }

    /** The scan both searches make, collecting matches and raising `found`. */
    method Search(key: Key, query: string) returns (matches: seq<Entry>, found: bool)
      ensures matches == Matching(View(), key, query)
      ensures found <==> matches != []
    {
      ghost var v := View();
      matches, found := [], false;
      for i := 0 to |books|
        invariant matches == Matching(v[..i], key, query)
        invariant found <==> matches != []
      {
        var book := books[i];
        MatchingStep(v, i, key, query);
        if EqualsIgnoreCase(Field(book.Value(), key), query) {
          matches := matches + [book.Value()];
          found := true;
        }
      }
      assert v[..|books|] == v;
    }
  }

  /** A session on a fresh library: add a book, add another with the same ISBN,
      check out, list, return, remove twice. The answers are the ones the
      contracts above determine. */
  method DuneScenario() returns (add1: bool, add2: bool, out: bool, listed: seq<string>,
                                 back: bool, gone: bool, goneAgain: bool)
    ensures add1 && !add2 && out && back && gone && !goneAgain
    ensures |listed| == 1 && |listed[0]| >= 19 && listed[0][|listed[0]| - 19..] == "Status: Checked Out"
  {
    var library := new Library();
    var dune := new Book("Dune", "Herbert", "1234567890");
    var dune2 := new Book("Dune2", "Herbert", "1234567890");
    add1 := library.AddBook(dune);
    add2 := library.AddBook(dune2);
    out := library.CheckOutBook("1234567890");
    listed := library.DisplayAllBooks();
    back := library.ReturnBook("1234567890");
    gone := library.RemoveBook("1234567890");
    goneAgain := library.RemoveBook("1234567890");
  }
}
