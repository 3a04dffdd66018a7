/** The catalog as values: what a Library holds at one moment, and what each of
    its operations does to it. The classes in module Library are proved to
    behave as these functions say; the lemmas here are what follows for any
    sequence of operations. */
module Catalog {
  import opened Text

  datatype Option<T> = None | Some(value: T)

  /** The state of one Book: what getTitle, getAuthor, getIsbn and isAvailable report. */
  datatype Entry = Entry(title: string, author: string, isbn: string, available: bool)
  {
    /** The status word getBookDetails prints. */
    function Status(): string
    {
      if available then "Available" else "Checked Out"
    }

    /** getBookDetails: one line naming title, author, ISBN and status. The
        status can be read back from the end of the line. */
    function Details(): (r: string)
      ensures |r| >= 7 + |title| + 19
      ensures r[..7] == "Title: " && r[7..7 + |title|] == title
      ensures available <==> r[|r| - 17..] == "Status: Available"
      ensures !available <==> r[|r| - 19..] == "Status: Checked Out"
    {
      var lead := "Title: " + title + ", Author: " + author + ", ISBN: " + isbn + ", ";
      var status := "Status: " + Status();
      var r := lead + status;
      assert lead[..7] == "Title: " && lead[7..7 + |title|] == title;
      assert r[|lead|..] == status;
      assert available ==> r[|r| - 17..] == status == "Status: Available";
      assert available ==> r[|r| - 19] == lead[|lead| - 2] == ',';
      assert !available ==> r[|r| - 19..] == status == "Status: Checked Out";
      assert !available ==> r[|r| - 17] == status[2] == 'a';
      r
    }
  }

  /** The catalog invariant: no two entries share an ISBN. */
  ghost predicate UniqueIsbns(s: seq<Entry>)
  {
    forall i, j :: 0 <= i < j < |s| ==> s[i].isbn != s[j].isbn
  }

  /** Some entry carries this ISBN. */
  ghost predicate HasIsbn(s: seq<Entry>, isbn: string)
  {
    exists i :: 0 <= i < |s| && s[i].isbn == isbn
  }

  /** Index k holds the first entry carrying this ISBN: the one a for-each scan with early return stops at. */
  ghost predicate FirstWithIsbn(s: seq<Entry>, isbn: string, k: int)
  {
    0 <= k < |s| && s[k].isbn == isbn && forall j :: 0 <= j < k ==> s[j].isbn != isbn
  }

  /** The linear scan every Library operation starts with: the index of the first entry with this ISBN. */
  function Find(s: seq<Entry>, isbn: string): (r: Option<nat>)
    ensures r.None? <==> !HasIsbn(s, isbn)
    ensures r.Some? ==> FirstWithIsbn(s, isbn, r.value)
  {
    if s == [] then None
    else if s[0].isbn == isbn then Some(0)
    else match Find(s[1..], isbn)
      case None => None
      case Some(k) => Some(k + 1)
  }

  /** addBook: rejected when the ISBN is already present, otherwise appended at the end. */
  function Add(s: seq<Entry>, e: Entry): (r: (bool, seq<Entry>))
    ensures r.0 <==> !HasIsbn(s, e.isbn)
    ensures r.0 ==> r.1 == s + [e]
    ensures !r.0 ==> r.1 == s
  {
    if Find(s, e.isbn).Some? then (false, s) else (true, s + [e])
  }

  /** removeBook: the first entry with the ISBN is deleted, the rest keep their order. */
  function Remove(s: seq<Entry>, isbn: string): (r: (bool, seq<Entry>))
    ensures r.0 <==> HasIsbn(s, isbn)
    ensures r.0 ==> exists k :: FirstWithIsbn(s, isbn, k) && r.1 == s[..k] + s[k + 1..]
    ensures !r.0 ==> r.1 == s
  {
    match Find(s, isbn)
    case None => (false, s)
    case Some(k) => (true, s[..k] + s[k + 1..])
  }

  /** checkOutBook (to == false) and returnBook (to == true): the first entry with
      the ISBN gets the target availability, provided it does not have it already.
      Not found and already in the target state both give false and no change. */
  function SetAvailability(s: seq<Entry>, isbn: string, to: bool): (r: (bool, seq<Entry>))
    ensures r.0 <==> exists k :: FirstWithIsbn(s, isbn, k) && s[k].available != to
    ensures |r.1| == |s|
    ensures forall j :: 0 <= j < |s| ==>
      r.1[j] == if r.0 && FirstWithIsbn(s, isbn, j) then s[j].(available := to) else s[j]
  {
    match Find(s, isbn)
    case None => (false, s)
    case Some(k) =>
      if s[k].available == to then (false, s)
      else (true, s[k := s[k].(available := to)])
  }

  /** The two searches: by title or by author. */
  datatype Key = ByTitle | ByAuthor

  /** The field of an entry that a search looks at. */
  function Field(e: Entry, key: Key): string
  {
    match key
    case ByTitle => e.title
    case ByAuthor => e.author
  }

  /** searchByTitle / searchByAuthor: the entries whose field equals the query ignoring case, in catalog order. */
  function Matching(s: seq<Entry>, key: Key, query: string): (r: seq<Entry>)
    ensures |r| <= |s|
    ensures forall e :: e in r <==> e in s && EqualsIgnoreCase(Field(e, key), query)
  {
    if s == [] then []
    else (if EqualsIgnoreCase(Field(s[0], key), query) then [s[0]] else []) + Matching(s[1..], key, query)
  }

  /** A search result is empty ("No books found") exactly when no entry matches. */
  lemma MatchingEmpty(s: seq<Entry>, key: Key, query: string)
    ensures Matching(s, key, query) == [] <==>
      forall i :: 0 <= i < |s| ==> !EqualsIgnoreCase(Field(s[i], key), query)
  {
  }

  /** Searching keeps catalog order: the result over a concatenation is the
      concatenation of the results. */
  lemma {:induction false} MatchingAppend(s: seq<Entry>, t: seq<Entry>, key: Key, query: string)
    ensures Matching(s + t, key, query) == Matching(s, key, query) + Matching(t, key, query)
  {
    if s == [] {
      assert s + t == t;
    } else {
      assert (s + t)[1..] == s[1..] + t;
      MatchingAppend(s[1..], t, key, query);
    }
  }

  /** One step of the scan: extending the prefix by one entry extends the result
      by that entry exactly when it matches. */
  lemma MatchingStep(s: seq<Entry>, i: nat, key: Key, query: string)
    requires i < |s|
    ensures Matching(s[..i + 1], key, query) ==
      Matching(s[..i], key, query) + (if EqualsIgnoreCase(Field(s[i], key), query) then [s[i]] else [])
  {
    assert s[..i + 1] == s[..i] + [s[i]];
    MatchingAppend(s[..i], [s[i]], key, query);
  }

  /** Queries that are equal ignoring case give the same result ("Moby Dick" and "MOBY DICK"). */
  lemma {:induction false} MatchingIgnoresCase(s: seq<Entry>, key: Key, q1: string, q2: string)
    requires EqualsIgnoreCase(q1, q2)
    ensures Matching(s, key, q1) == Matching(s, key, q2)
  {
    if s != [] {
      EqualsIgnoreCaseEquivalence(Field(s[0], key), q1, q2);
      EqualsIgnoreCaseEquivalence(Field(s[0], key), q2, q1);
      EqualsIgnoreCaseEquivalence(q1, q2, q2);
      MatchingIgnoresCase(s[1..], key, q1, q2);
    }
  }

  /** The title search gives the same books for "Moby Dick" as for "MOBY DICK". */
  lemma MobyDickQueries(s: seq<Entry>)
    ensures Matching(s, ByTitle, "Moby Dick") == Matching(s, ByTitle, "MOBY DICK")
  {
    assert EqualsIgnoreCase("Moby Dick", "MOBY DICK");
    MatchingIgnoresCase(s, ByTitle, "Moby Dick", "MOBY DICK");
  }

  /** Under the invariant, the first entry with an ISBN is the only one. */
  lemma UniqueFirst(s: seq<Entry>, isbn: string, k: int)
    requires UniqueIsbns(s)
    ensures FirstWithIsbn(s, isbn, k) <==> 0 <= k < |s| && s[k].isbn == isbn
  {
  }

  /** addBook keeps ISBNs unique. */
  lemma AddKeepsUnique(s: seq<Entry>, e: Entry)
    requires UniqueIsbns(s)
    ensures UniqueIsbns(Add(s, e).1)
  {
  }

  /** removeBook keeps ISBNs unique, and on success the ISBN is gone, every other
      entry is still there and the catalog shrank by one. */
  lemma RemoveKeepsUnique(s: seq<Entry>, isbn: string)
    requires UniqueIsbns(s)
    ensures UniqueIsbns(Remove(s, isbn).1)
    ensures Remove(s, isbn).0 ==> |Remove(s, isbn).1| == |s| - 1 && !HasIsbn(Remove(s, isbn).1, isbn)
    ensures forall e :: e in Remove(s, isbn).1 <==> e in s && (Remove(s, isbn).0 ==> e.isbn != isbn)
  {
  }

  /** checkOutBook and returnBook keep ISBNs unique. */
  lemma SetAvailabilityKeepsUnique(s: seq<Entry>, isbn: string, to: bool)
    requires UniqueIsbns(s)
    ensures UniqueIsbns(SetAvailability(s, isbn, to).1)
  {
  }

  /** Adding a new book and removing it again gives back the catalog as it was. */
  lemma AddThenRemove(s: seq<Entry>, e: Entry)
    requires !HasIsbn(s, e.isbn)
    ensures Add(s, e) == (true, s + [e])
    ensures Remove(s + [e], e.isbn) == (true, s)
  {
    var t := s + [e];
    assert t[|s|].isbn == e.isbn;
    assert HasIsbn(t, e.isbn);
    var k := Find(t, e.isbn).value;
    assert t[..k] == s && t[k + 1..] == [];
    assert Remove(t, e.isbn) == (true, t[..k] + t[k + 1..]);
    assert t[..k] + t[k + 1..] == s;
  }

  /** For a book that is in the catalog and available: check out, check out, return,
      return answers true, false, true, false and ends where it started. */
  lemma CheckOutReturnCycle(s: seq<Entry>, k: nat)
    requires UniqueIsbns(s)
    requires k < |s| && s[k].available
    ensures var isbn := s[k].isbn;
      var (ok1, s1) := SetAvailability(s, isbn, false);
      var (ok2, s2) := SetAvailability(s1, isbn, false);
      var (ok3, s3) := SetAvailability(s2, isbn, true);
      var (ok4, s4) := SetAvailability(s3, isbn, true);
      ok1 && !ok2 && ok3 && !ok4 && s4 == s && !s1[k].available
  {
  }
}
