# Library catalog model

A Dafny model of the in-memory library catalog in `Homework6/src/hw6/Main.java`.
It covers:

- a `Book`, which holds a title, an author, an ISBN and an availability flag;
- a `Library`, which holds an ordered list of books with no two sharing an ISBN,
  and lets the user add, remove, list, search, check out and return books;
- the ISBN acceptance rule the interactive shell applies before it adds a book.

Files:

- `text.dfy` (module `Text`): case-insensitive string equality, as
  `String.equalsIgnoreCase` provides it, restricted to ASCII letters.
- `catalog.dfy` (module `Catalog`): the catalog as a value. `Entry` is the state
  of one book. `getBookDetails` is `Entry.Details`; `Book.Details` in
  `library.dfy` is a wrapper that applies it to the book's current state.
  There is one function on a `seq<Entry>` for each Library operation that
  changes or selects books: `Add`, `Remove`, `SetAvailability` (checkout and
  return) and `Matching` (the two searches). `displayAllBooks` has no such
  function; `DisplayAllBooks` states its result directly.
  The module also holds the lemmas about these functions: ISBN uniqueness is
  preserved, add then remove is a round trip, the checkout/return cycle, and
  searches ignore case and keep catalog order.
- `library.dfy` (module `Library`): the classes `Book` and `Library`.
  - A book's flag is updated in place.
  - The library keeps references to the book objects in a `seq<Book>` field.
  - Each method scans that sequence with a loop, as the Java for-each loops do.
  - Each method is proved to change `View()` (the catalog as values) exactly as
    the matching `Catalog` function says.
  - `Valid()` is the ISBN-uniqueness invariant.
  - `DuneScenario` is a client session verified against these contracts.
- `isbn.dfy` (module `IsbnEntry`): one pass of the ISBN entry check from
  `addBookToLibrary`. Its verdict names the first check that failed. The
  source prints a message for a mismatch and for a wrong length; a non-digit
  (`NotDigits`) is rejected without a message.

`displayAllBooks` and the searches print their results. The model returns the
detail lines (`DisplayAllBooks`), or the matching entries together with the
`found` flag (the searches). `removeBook` removes the object it found
(`books.remove(book)`, Main.java:116). With unique ISBNs that is the entry at
the found index, so the model removes by index.

## Model

| member | source | states |
|---|---|---|
| Library.Book.constructor | Homework6/src/hw6/Main.java:23-28 | a new book carries the given title, author and ISBN and is available |
| Library.Book.SetAvailable | Homework6/src/hw6/Main.java:64-66 | the flag takes the given value; title, author and ISBN cannot change |
| Catalog.Entry.Details | Homework6/src/hw6/Main.java:73-76 | the line starts with "Title: " and the title; it ends in "Status: Available" exactly when the book is available and in "Status: Checked Out" exactly when it is not |
| Library.Library.constructor | Homework6/src/hw6/Main.java:88-90 | a new library is empty and satisfies the unique-ISBN invariant |
| Catalog.Find | Homework6/src/hw6/Main.java:99-103 | the scan finds nothing exactly when no entry has the ISBN, and otherwise returns the first index that has it |
| Catalog.Add | Homework6/src/hw6/Main.java:98-106 | true exactly when no entry has the ISBN, and then the entry is appended at the end; otherwise the catalog is unchanged |
| Library.Library.AddBook | Homework6/src/hw6/Main.java:98-106 | keeps the invariant; answer and new catalog are those of Catalog.Add; on success the book object itself is appended, on failure the list is unchanged |
| Catalog.AddKeepsUnique | Homework6/src/hw6/Main.java:98-106 | adding keeps ISBNs unique |
| Catalog.Remove | Homework6/src/hw6/Main.java:113-121 | true exactly when some entry has the ISBN; then the first such entry is deleted and the rest keep their order; otherwise no change |
| Library.Library.RemoveBook | Homework6/src/hw6/Main.java:113-121 | keeps the invariant; answer and new catalog are those of Catalog.Remove; on success the book list loses exactly one position, whose book has the ISBN; otherwise the list is unchanged |
| Catalog.UniqueFirst | Homework6/src/hw6/Main.java:113-121 | with unique ISBNs, the first entry with an ISBN is the only one, so removing or flipping the first match touches exactly "the" book |
| Catalog.RemoveKeepsUnique | Homework6/src/hw6/Main.java:113-121 | removal keeps ISBNs unique; on success the catalog shrinks by one, the ISBN is gone and every other entry remains; on failure every entry remains |
| Catalog.AddThenRemove | Homework6/src/hw6/Main.java:98-121 | adding a book with a new ISBN and then removing that ISBN both succeed and give back the original catalog |
| Library.Library.DisplayAllBooks | Homework6/src/hw6/Main.java:126-136 | one details line per book, in order; no lines exactly when the library is empty |
| Catalog.Matching | Homework6/src/hw6/Main.java:141-173 | the result holds exactly the entries whose title (or author) equals the query ignoring case, and is no longer than the catalog |
| Catalog.MatchingAppend | Homework6/src/hw6/Main.java:144-149 | the search keeps catalog order: the result for a concatenation is the concatenation of the results |
| Catalog.MatchingStep | Homework6/src/hw6/Main.java:144-149 | one loop step: the result for a prefix one entry longer grows by that entry exactly when it matches |
| Catalog.MatchingEmpty | Homework6/src/hw6/Main.java:150-152 | the result is empty ("No books found") exactly when no entry matches |
| Catalog.MatchingIgnoresCase | Homework6/src/hw6/Main.java:145 | two queries that are equal ignoring case ("Moby Dick", "MOBY DICK") give the same result |
| Library.Library.SearchByTitle | Homework6/src/hw6/Main.java:141-154 | returns the matching entries by title in insertion order, as Catalog.Matching gives them; `found` is false exactly when there are none; modifies nothing |
| Library.Library.SearchByAuthor | Homework6/src/hw6/Main.java:160-173 | the same by author |
| Library.Library.Search | Homework6/src/hw6/Main.java:142-153 | the scan shared by both searches returns Catalog.Matching of the catalog, with `found` raised exactly when something matched |
| Catalog.SetAvailability | Homework6/src/hw6/Main.java:180-212 | true exactly when the first entry with the ISBN exists and is not already in the target state; then only that entry's flag changes, to the target; otherwise nothing changes |
| Library.Library.SetFirst | Homework6/src/hw6/Main.java:180-212 | the scan shared by checkout and return keeps the invariant and changes the books as Catalog.SetAvailability says |
| Library.Library.CheckOutBook | Homework6/src/hw6/Main.java:180-193 | keeps the invariant; answer and new state are those of Catalog.SetAvailability with target "checked out" |
| Library.Library.ReturnBook | Homework6/src/hw6/Main.java:200-212 | keeps the invariant; answer and new state are those of Catalog.SetAvailability with target "available" |
| Catalog.SetAvailabilityKeepsUnique | Homework6/src/hw6/Main.java:180-212 | checkout and return keep ISBNs unique |
| Catalog.CheckOutReturnCycle | Homework6/src/hw6/Main.java:180-212 | for an available book: checkout, checkout, return, return answer true, false, true, false; the book is checked out after the first call; the catalog ends as it began |
| Library.DuneScenario | Homework6/src/hw6/Main.java:98-212 | on a new library: add succeeds, a second add with the same ISBN fails, checkout succeeds, the single listed line ends "Status: Checked Out", return succeeds, remove succeeds, a second remove fails |
| Catalog.MobyDickQueries | Homework6/src/hw6/Main.java:145 | for every catalog, the title search for "Moby Dick" and for "MOBY DICK" give the same books |
| Text.ToLower | Homework6/src/hw6/Main.java:145 | the case folding used by equalsIgnoreCase: the result is never an upper-case ASCII letter, and only upper-case ASCII letters change |
| Text.ToLowerIdempotent | Homework6/src/hw6/Main.java:145 | folding twice is folding once |
| Text.EqualsIgnoreCaseEquivalence | Homework6/src/hw6/Main.java:164 | equality ignoring case is reflexive, symmetric and transitive |
| IsbnEntry.CheckIsbn | Homework6/src/hw6/Main.java:324-348 | Accepted exactly when the two entries agree, the length is 10 to 13 and every character is a digit; otherwise it reports the first failing check: mismatch, then length, then a non-digit |

## Left out

- The menu loop in `main`, `displayMenu`, the `Scanner` reads and `System.exit` are not modelled. They are interactive input and process control.
- The shell helpers `removeBookFromLibrary`, `searchByTitle`, `searchByAuthor`, `checkOutBook` and `returnBook` in `Main` are not modelled. Each reads one line and passes it to the matching Library method (`removeBook`, `searchByTitle`, `searchByAuthor`, `checkOutBook`, `returnBook`), which is modelled. The helpers for remove, checkout and return then print a success or error message chosen by the method's answer.
- The console output of `displayAllBooks` and the searches is not modelled. This includes the header, the footer and the "No books ..." messages. The model returns the lines or entries, and the empty result stands for the message.
- `addBookToLibrary`: only its ISBN check is modelled, as `CheckIsbn`. Its prompts and its re-prompt loop are left out. The loop repeats `CheckIsbn` until the verdict is `Accepted`, and then calls `AddBook`.
- The getters `getTitle`, `getAuthor`, `getIsbn` and `isAvailable` are not separate members. They are reads of the `const` fields and of the `available` field.
- Text.EqualsIgnoreCase: case folding covers only the ASCII letters. Java's `equalsIgnoreCase` folds every Unicode letter.
- IsbnEntry.CheckIsbn: the length is counted in characters, not in UTF-16 code units as Java's `length()` counts it. The accepted entries are the same, but for a confirmed entry that holds a character outside the Basic Multilingual Plane, the model can report `NotDigits` where the source reports a wrong length. In the other direction, for a confirmed entry of 9 or fewer characters that holds such a character, the model can report `BadLength` where the source passes the length check and then re-prompts silently after the digit scan.
- IsbnEntry.IsDigit: accepts only `'0'..'9'`. Java's `Character.isDigit` also accepts other Unicode decimal digits.
- Null references are not modelled (for example, `addBook(null)`). Every `Book` in the model is a real object.
