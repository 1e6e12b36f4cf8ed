/**
  The book records of the catalog and, as functions of the list of records,
  what every catalog operation does to it: the searches, the first-match
  rule, insertion, deletion, the borrow/return state machine and the
  derived views. The class in `Store` runs these operations in place and is
  specified by the functions here.
 */
module Records {
  import opened Wrappers
  import opened Text
  import opened Seqs
  import opened Primes
  import opened Fines

  /**
    One record. `borrowDate` is a day number; records added through the
    catalog start without one, and a return leaves it in place.
   */
  datatype Book = Book(
    id: int,
    title: string,
    author: string,
    inShelf: bool,
    timesBorrowed: nat,
    borrowDate: Option<int>)

  /** The two keys a record is looked up by. */
  datatype Field = Title | Author

  function KeyOf(b: Book, field: Field): string {
    match field
    case Title => b.title
    case Author => b.author
  }

  /** Case-insensitive exact comparison of the query with the record's title or author. */
  predicate Matches(b: Book, field: Field, key: string) {
    SameIgnoringCase(key, KeyOf(b, field))
  }

  function MatchesOf(field: Field, key: string): Book -> bool {
    (b: Book) => Matches(b, field, key)
  }

  /**
    The catalog invariant: a record that is off the shelf has a borrow date,
    so returning it can compute a fine.
   */
  predicate BorrowDatesPresent(books: seq<Book>) {
    forall i :: 0 <= i < |books| ==> !books[i].inShelf ==> books[i].borrowDate.Some?
  }

  // ---------------------------------------------------------------- search

  /** Every record whose title (or author) matches the query, in list order. */
  function Select(books: seq<Book>, field: Field, key: string): seq<Book> {
    Filter(books, MatchesOf(field, key))
  }

  /**
    The matches are exactly the matching records: each is a record of the
    list that matches, each matching record is kept as often as it occurs,
    and they come at increasing positions of the list.
   */
  lemma SelectExactly(books: seq<Book>, field: Field, key: string) returns (pos: seq<nat>)
    ensures forall b :: b in Select(books, field, key) ==> b in books && Matches(b, field, key)
    ensures forall b :: b in books && Matches(b, field, key) ==> b in Select(books, field, key)
    ensures forall b :: Matches(b, field, key) ==> multiset(Select(books, field, key))[b] == multiset(books)[b]
    ensures |pos| == |Select(books, field, key)|
    ensures forall k :: 0 <= k < |pos| ==> pos[k] < |books| && Select(books, field, key)[k] == books[pos[k]]
    ensures forall k, l :: 0 <= k < l < |pos| ==> pos[k] < pos[l]
    ensures forall i :: 0 <= i < |books| ==> (Matches(books[i], field, key) <==> i in pos)
  {
    FilterMembers(books, MatchesOf(field, key));
    FilterCounts(books, MatchesOf(field, key));
    pos := FilterPositions(books, MatchesOf(field, key));
  }

  /** The result of a search: the "Book not Found" marker, or the non-empty list of matches. */
  datatype SearchResult = BookNotFound | Found(books: seq<Book>)

  /** `get_book_by_title` and the author search: the matches, or the marker when there are none. */
  function Search(books: seq<Book>, field: Field, key: string): (r: SearchResult)
    ensures r.BookNotFound? <==> forall i :: 0 <= i < |books| ==> !Matches(books[i], field, key)
    ensures r.Found? ==> r.books == Select(books, field, key) && r.books != []
  {
    FilterEmpty(books, MatchesOf(field, key));
    var hits := Select(books, field, key);
    if hits == [] then BookNotFound else Found(hits)
  }

  /** Lower-casing the query first does not change what a search finds. */
  lemma SearchIgnoresQueryCase(books: seq<Book>, field: Field, key: string)
    ensures Select(books, field, Lower(key)) == Select(books, field, key)
    ensures Search(books, field, Lower(key)) == Search(books, field, key)
  {
    SameIgnoringCaseOfLower(key);
    FilterAgree(books, MatchesOf(field, Lower(key)), MatchesOf(field, key));
  }

  // ----------------------------------------------------------- first match

  /** The position of the first record that matches, the one every single-record operation acts on. */
  function FirstMatch(books: seq<Book>, field: Field, key: string): (r: Option<nat>)
    ensures r.None? <==> forall i :: 0 <= i < |books| ==> !Matches(books[i], field, key)
    ensures r.Some? ==>
      && r.value < |books|
      && Matches(books[r.value], field, key)
      && forall i :: 0 <= i < r.value ==> !Matches(books[i], field, key)
  {
    FirstMatchFrom(books, field, key, 0)
  }

  /** The scan of the request loops: the first matching position at or after `from`. */
  function FirstMatchFrom(books: seq<Book>, field: Field, key: string, from: nat): (r: Option<nat>)
    requires from <= |books|
    ensures r.None? <==> forall i :: from <= i < |books| ==> !Matches(books[i], field, key)
    ensures r.Some? ==>
      && from <= r.value < |books|
      && Matches(books[r.value], field, key)
      && forall i :: from <= i < r.value ==> !Matches(books[i], field, key)
    decreases |books| - from
  {
    if from == |books| then None
    else if Matches(books[from], field, key) then Some(from)
    else FirstMatchFrom(books, field, key, from + 1)
  }

  /**
    When `k` is the first matching position, the matches are the record at
    `k` followed by the matches after it.
   */
  lemma SelectFrom(books: seq<Book>, field: Field, key: string, k: nat)
    requires k < |books| && Matches(books[k], field, key)
    requires forall i :: 0 <= i < k ==> !Matches(books[i], field, key)
    ensures Select(books, field, key) == [books[k]] + Select(books[k + 1..], field, key)
  {
    var p := MatchesOf(field, key);
    var before, rest := books[..k], books[k + 1..];
    assert books == before + ([books[k]] + rest);
    assert Filter(before, p) == [] by {
      assert forall i :: 0 <= i < |before| ==> before[i] == books[i];
      FilterEmpty(before, p);
    }
    assert Filter([books[k]], p) == [books[k]] by {
      assert [] + [books[k]] == [books[k]];
      FilterSnoc([], books[k], p);
    }
    calc {
      Filter(books, p);
      { FilterConcat(before, [books[k]] + rest, p); }
      Filter(before, p) + Filter([books[k]] + rest, p);
      Filter([books[k]] + rest, p);
      { FilterConcat([books[k]], rest, p); }
      [books[k]] + Filter(rest, p);
    }
  }

  /** A matching record with no match before it is the first match. */
  lemma FirstMatchAt(books: seq<Book>, field: Field, key: string, k: nat)
    requires k < |books| && Matches(books[k], field, key)
    requires forall i :: 0 <= i < k ==> !Matches(books[i], field, key)
    ensures FirstMatch(books, field, key) == Some(k)
  {
    assert FirstMatch(books, field, key).Some?;
  }

  /** The first match is the first entry of the search result. */
  lemma FirstMatchIsFirstHit(books: seq<Book>, field: Field, key: string)
    requires FirstMatch(books, field, key).Some?
    ensures Select(books, field, key) != []
    ensures Select(books, field, key)[0] == books[FirstMatch(books, field, key).value]
  {
    SelectFrom(books, field, key, FirstMatch(books, field, key).value);
  }

  /** Two lists whose records have the same keys, position by position, have the same first match. */
  lemma FirstMatchKeysOnly(a: seq<Book>, b: seq<Book>, field: Field, key: string)
    requires |a| == |b|
    requires forall i :: 0 <= i < |a| ==> KeyOf(a[i], field) == KeyOf(b[i], field)
    ensures FirstMatch(a, field, key) == FirstMatch(b, field, key)
  {
    assert forall i :: 0 <= i < |a| ==> Matches(a[i], field, key) == Matches(b[i], field, key);
    var r := FirstMatch(b, field, key);
    if r.Some? {
      FirstMatchAt(a, field, key, r.value);
    }
  }

  // ------------------------------------------------------------ insertion

  datatype AddStatus = BookAdded | AlreadyExists

  /** Some record has both this title and this author, ignoring case. */
  predicate HasPair(books: seq<Book>, title: string, author: string) {
    exists i :: 0 <= i < |books| && Matches(books[i], Title, title) && Matches(books[i], Author, author)
  }

  /**
    `add_book`: refused when the (title, author) pair is already present;
    otherwise one new record goes at the end, on the shelf, never borrowed.
   */
  function Adding(books: seq<Book>, id: int, title: string, author: string): (r: (seq<Book>, AddStatus))
    ensures r.1 == AlreadyExists <==> HasPair(books, title, author)
    ensures r.1 == AlreadyExists ==> r.0 == books
    ensures r.1 == BookAdded ==>
      && |r.0| == |books| + 1
      && r.0[..|books|] == books
      && r.0[|books|].id == id && r.0[|books|].title == title && r.0[|books|].author == author
      && r.0[|books|].inShelf && r.0[|books|].timesBorrowed == 0 && r.0[|books|].borrowDate.None?
    ensures BorrowDatesPresent(books) ==> BorrowDatesPresent(r.0)
  {
    if HasPair(books, title, author) then (books, AlreadyExists)
    else (books + [Book(id, title, author, true, 0, None)], BookAdded)
  }

  /** A book just added is found by its title and by its author, after the earlier matches. */
  lemma AddThenSearch(books: seq<Book>, id: int, title: string, author: string)
    requires Adding(books, id, title, author).1 == BookAdded
    ensures var after := Adding(books, id, title, author).0;
      && Search(after, Title, title) == Found(Select(books, Title, title) + [after[|books|]])
      && Search(after, Author, author) == Found(Select(books, Author, author) + [after[|books|]])
  {
    var after := Adding(books, id, title, author).0;
    var added := after[|books|];
    assert after == books + [added];
    FilterSnoc(books, added, MatchesOf(Title, title));
    FilterSnoc(books, added, MatchesOf(Author, author));
  }

  /** Adding the same title and author a second time is refused, whatever the id. */
  lemma AddTwiceRefused(books: seq<Book>, id: int, id': int, title: string, author: string)
    ensures var once := Adding(books, id, title, author).0;
      Adding(once, id', title, author) == (once, AlreadyExists)
  {
    var once := Adding(books, id, title, author).0;
    if !HasPair(books, title, author) {
      assert Matches(once[|books|], Title, title) && Matches(once[|books|], Author, author);
    }
    assert HasPair(once, title, author);
  }

  // ------------------------------------------------------------- deletion

  datatype DeleteStatus = BookDeleted | DeleteNotFound

  /**
    `delete_book_by_name`: removes the first record whose title matches and
    keeps every other record in its order; with no match nothing changes.
   */
  function Deleting(books: seq<Book>, title: string): (r: (seq<Book>, DeleteStatus))
    ensures r.1 == DeleteNotFound <==> FirstMatch(books, Title, title).None?
    ensures r.1 == DeleteNotFound ==> r.0 == books
    ensures r.1 == BookDeleted ==>
      var k := FirstMatch(books, Title, title).value;
      && |r.0| == |books| - 1
      && (forall j :: 0 <= j < k ==> r.0[j] == books[j])
      && (forall j :: k <= j < |r.0| ==> r.0[j] == books[j + 1])
    ensures BorrowDatesPresent(books) ==> BorrowDatesPresent(r.0)
  {
    match FirstMatch(books, Title, title)
    case None => (books, DeleteNotFound)
    case Some(k) => (books[..k] + books[k + 1..], BookDeleted)
  }

  /**
    Deleting removes exactly the first hit of the title search: the later
    records with the same title stay, in order, and are still found.
   */
  lemma DeleteDropsFirstHit(books: seq<Book>, title: string)
    ensures var after := Deleting(books, title).0;
      Select(after, Title, title) ==
        if Select(books, Title, title) == [] then [] else Select(books, Title, title)[1..]
  {
    FilterEmpty(books, MatchesOf(Title, title));
    var first := FirstMatch(books, Title, title);
    if first.Some? {
      RemoveFirstHit(books, Title, title, first.value);
    }
  }

  /** Removing the first matching record from a list removes the first entry of its matches. */
  lemma RemoveFirstHit(books: seq<Book>, field: Field, key: string, k: nat)
    requires k < |books| && Matches(books[k], field, key)
    requires forall i :: 0 <= i < k ==> !Matches(books[i], field, key)
    ensures Select(books, field, key) != []
    ensures Select(books[..k] + books[k + 1..], field, key) == Select(books, field, key)[1..]
  {
    var p := MatchesOf(field, key);
    SelectFrom(books, field, key, k);
    FilterConcat(books[..k], books[k + 1..], p);
    assert forall i :: 0 <= i < k ==> books[..k][i] == books[i];
    FilterEmpty(books[..k], p);
  }

  /** With a title present twice, the second copy is still found after a delete. */
  lemma DeleteKeepsLaterDuplicate(books: seq<Book>, title: string)
    requires |Select(books, Title, title)| >= 2
    ensures Search(Deleting(books, title).0, Title, title) == Found(Select(books, Title, title)[1..])
  {
    DeleteDropsFirstHit(books, title);
  }

  // -------------------------------------------------------- borrow / return

  datatype BorrowStatus = BookBorrowed | NotInShelf | BorrowNotFound

  /** The record as it leaves the shelf on day `now`: dated, counted once more, otherwise the same. */
  function Lend(b: Book, now: int): (r: Book)
    ensures !r.inShelf && r.borrowDate == Some(now) && r.timesBorrowed == b.timesBorrowed + 1
    ensures r.id == b.id && r.title == b.title && r.author == b.author
  {
    b.(inShelf := false, borrowDate := Some(now), timesBorrowed := b.timesBorrowed + 1)
  }

  /**
    `borrow_book_by_title` / `_by_author`: only the first match is
    considered. On the shelf, it leaves the shelf with today's date and one
    more borrow; off the shelf, nothing changes; no match, nothing changes.
   */
  function Borrowing(books: seq<Book>, field: Field, key: string, now: int): (r: (seq<Book>, BorrowStatus))
    ensures |r.0| == |books|
    ensures r.1 == BorrowNotFound <==> FirstMatch(books, field, key).None?
    ensures r.1 != BookBorrowed ==> r.0 == books
    ensures FirstMatch(books, field, key).Some? ==>
      var k := FirstMatch(books, field, key).value;
      && (r.1 == BookBorrowed <==> books[k].inShelf)
      && r.0 == books[k := r.0[k]]
      && (r.1 == BookBorrowed ==> r.0[k] == Lend(books[k], now))
    ensures BorrowDatesPresent(books) ==> BorrowDatesPresent(r.0)
  {
    match FirstMatch(books, field, key)
    case None => (books, BorrowNotFound)
    case Some(k) =>
      if books[k].inShelf then
        (books[k := Lend(books[k], now)], BookBorrowed)
      else (books, NotInShelf)
  }

  datatype ReturnStatus = BookReturned | AlreadyInShelf | ReturnNotFound

  /** The `{"fine": ..., "status": ...}` reply of a return. */
  datatype ReturnReply = ReturnReply(fine: nat, status: ReturnStatus)

  /**
    `return_book_by_title` / `_by_author`: only the first match is
    considered. Off the shelf, it goes back on the shelf and the fine is
    computed from its borrow date; its borrow date and count stay. On the
    shelf or no match: fine 0 and nothing changes.
   */
  function Returning(books: seq<Book>, field: Field, key: string, now: int): (r: (seq<Book>, ReturnReply))
    requires BorrowDatesPresent(books)
    ensures |r.0| == |books|
    ensures BorrowDatesPresent(r.0)
    ensures r.1.status == ReturnNotFound <==> FirstMatch(books, field, key).None?
    ensures r.1.status != BookReturned ==> r.0 == books && r.1.fine == 0
    ensures FirstMatch(books, field, key).Some? ==>
      var k := FirstMatch(books, field, key).value;
      && (r.1.status == BookReturned <==> !books[k].inShelf)
      && r.0 == books[k := r.0[k]]
      && (r.1.status == BookReturned ==>
            && r.0[k] == books[k].(inShelf := true)
            && r.1.fine == Fine(books[k].borrowDate.value, now))
  {
    match FirstMatch(books, field, key)
    case None => (books, ReturnReply(0, ReturnNotFound))
    case Some(k) =>
      if !books[k].inShelf then
        (books[k := books[k].(inShelf := true)], ReturnReply(Fine(books[k].borrowDate.value, now), BookReturned))
      else (books, ReturnReply(0, AlreadyInShelf))
  }

  /** The borrow transition when the first match, at `k`, is on the shelf. */
  lemma BorrowAt(books: seq<Book>, field: Field, key: string, now: int, k: nat)
    requires FirstMatch(books, field, key) == Some(k) && books[k].inShelf
    ensures Borrowing(books, field, key, now) ==
      (books[k := Lend(books[k], now)], BookBorrowed)
  {
  }

  /** The return transition when the first match, at `k`, is off the shelf. */
  lemma ReturnAt(books: seq<Book>, field: Field, key: string, now: int, k: nat)
    requires BorrowDatesPresent(books)
    requires FirstMatch(books, field, key) == Some(k) && !books[k].inShelf
    ensures Returning(books, field, key, now) ==
      (books[k := books[k].(inShelf := true)], ReturnReply(Fine(books[k].borrowDate.value, now), BookReturned))
  {
  }

  /** Replacing a record by one with the same key leaves the first match where it was. */
  lemma UpdateKeepsFirstMatch(books: seq<Book>, field: Field, key: string, k: nat, b: Book)
    requires k < |books| && KeyOf(b, field) == KeyOf(books[k], field)
    ensures FirstMatch(books[k := b], field, key) == FirstMatch(books, field, key)
  {
    var updated := books[k := b];
    assert forall i :: 0 <= i < |books| ==> KeyOf(updated[i], field) == KeyOf(books[i], field);
    FirstMatchKeysOnly(updated, books, field, key);
  }

  /**
    Borrowing and then returning by the same key puts the first match back
    on the shelf, charges the fine for the days in between and leaves the
    new borrow date and the raised count behind; no other record changes.
   */
  lemma BorrowThenReturn(books: seq<Book>, field: Field, key: string, k: nat, lentOn: int, now: int)
    requires BorrowDatesPresent(books)
    requires FirstMatch(books, field, key) == Some(k) && books[k].inShelf
    ensures Returning(Borrowing(books, field, key, lentOn).0, field, key, now) ==
      (books[k := books[k].(borrowDate := Some(lentOn), timesBorrowed := books[k].timesBorrowed + 1)],
       ReturnReply(Fine(lentOn, now), BookReturned))
  {
    BorrowAt(books, field, key, lentOn, k);
    UpdateKeepsFirstMatch(books, field, key, k, Lend(books[k], lentOn));
    ReturnAt(books[k := Lend(books[k], lentOn)], field, key, now, k);
    ShelveLent(books, k, lentOn);
  }

  /** Putting a lent record back on the shelf keeps its new date and count. */
  lemma ShelveLent(books: seq<Book>, k: nat, lentOn: int)
    requires k < |books| && books[k].inShelf
    ensures var lent := books[k := Lend(books[k], lentOn)];
      lent[k := lent[k].(inShelf := true)] ==
        books[k := books[k].(borrowDate := Some(lentOn), timesBorrowed := books[k].timesBorrowed + 1)]
  {
    var lent := books[k := Lend(books[k], lentOn)];
    assert lent[k] == Lend(books[k], lentOn);
  }

  /** A second borrow of the same book, before it is returned, is refused and changes nothing. */
  lemma BorrowTwiceRefused(books: seq<Book>, field: Field, key: string, day1: int, day2: int)
    requires Borrowing(books, field, key, day1).1 == BookBorrowed
    ensures var lent := Borrowing(books, field, key, day1).0;
      Borrowing(lent, field, key, day2) == (lent, NotInShelf)
  {
    var k := FirstMatch(books, field, key).value;
    BorrowAt(books, field, key, day1, k);
    UpdateKeepsFirstMatch(books, field, key, k, Lend(books[k], day1));
  }

  /** A second return of the same book is answered "already in shelf" with fine 0 and changes nothing. */
  lemma ReturnTwiceRefused(books: seq<Book>, field: Field, key: string, day1: int, day2: int)
    requires BorrowDatesPresent(books)
    requires Returning(books, field, key, day1).1.status == BookReturned
    ensures var back := Returning(books, field, key, day1).0;
      Returning(back, field, key, day2) == (back, ReturnReply(0, AlreadyInShelf))
  {
    var k := FirstMatch(books, field, key).value;
    ReturnAt(books, field, key, day1, k);
    UpdateKeepsFirstMatch(books, field, key, k, books[k].(inShelf := true));
  }

  // ---------------------------------------------------------------- views

  predicate OnShelf(b: Book) {
    b.inShelf
  }

  predicate OffShelf(b: Book) {
    !b.inShelf
  }

  /** `get_borrowed_books`: the records off the shelf, in list order. */
  function BorrowedBooks(books: seq<Book>): (r: seq<Book>)
    ensures forall b :: b in r ==> b in books && !b.inShelf
    ensures forall b :: b in books && !b.inShelf ==> b in r
    ensures forall b: Book :: !b.inShelf ==> multiset(r)[b] == multiset(books)[b]
  {
    FilterMembers(books, OffShelf);
    FilterCounts(books, OffShelf);
    Filter(books, OffShelf)
  }

  /** `get_available_books`: the records on the shelf, in list order. */
  function AvailableBooks(books: seq<Book>): (r: seq<Book>)
    ensures forall b :: b in r ==> b in books && b.inShelf
    ensures forall b :: b in books && b.inShelf ==> b in r
    ensures forall b: Book :: b.inShelf ==> multiset(r)[b] == multiset(books)[b]
  {
    FilterMembers(books, OnShelf);
    FilterCounts(books, OnShelf);
    Filter(books, OnShelf)
  }

  /** Every record is in exactly one of the two shelf views. */
  lemma {:induction false} ShelfViewsPartition(books: seq<Book>)
    ensures multiset(BorrowedBooks(books)) + multiset(AvailableBooks(books)) == multiset(books)
    ensures |BorrowedBooks(books)| + |AvailableBooks(books)| == |books|
  {
    FilterCounts(books, OffShelf);
    FilterCounts(books, OnShelf);
    assert multiset(BorrowedBooks(books)) + multiset(AvailableBooks(books)) == multiset(books);
    assert |multiset(BorrowedBooks(books)) + multiset(AvailableBooks(books))| == |multiset(books)|;
  }

  /** The largest borrow count in a non-empty list. */
  function MaxBorrowed(books: seq<Book>): (m: nat)
    requires books != []
    ensures exists i :: 0 <= i < |books| && books[i].timesBorrowed == m
    ensures forall i :: 0 <= i < |books| ==> books[i].timesBorrowed <= m
  {
    if |books| == 1 then books[0].timesBorrowed
    else
      var rest := MaxBorrowed(books[..|books| - 1]);
      var last := books[|books| - 1].timesBorrowed;
      if last >= rest then last else rest
  }

  /** The largest count of a one-record prefix is that record's count. */
  lemma MaxBorrowedOne(books: seq<Book>)
    requires books != []
    ensures MaxBorrowed(books[..1]) == books[0].timesBorrowed
  {
    assert |books[..1]| == 1 && books[..1][0] == books[0];
  }

  /** One more record raises the largest count to its own count when that is at least as large. */
  lemma MaxBorrowedSnoc(books: seq<Book>, i: nat)
    requires 1 <= i < |books|
    ensures MaxBorrowed(books[..i + 1]) ==
      if books[i].timesBorrowed >= MaxBorrowed(books[..i]) then books[i].timesBorrowed else MaxBorrowed(books[..i])
  {
    assert books[..i + 1][..i] == books[..i];
    assert books[..i + 1][i] == books[i];
  }

  function BorrowedTimes(m: nat): Book -> bool {
    (b: Book) => b.timesBorrowed == m
  }

  /**
    `most_borrowed_book`: every record borrowed as often as the most
    borrowed one, in list order, ties included. Never empty.
   */
  function MostBorrowed(books: seq<Book>): (r: seq<Book>)
    requires books != []
    ensures r != []
    ensures forall b :: b in r ==> b in books && forall i :: 0 <= i < |books| ==> books[i].timesBorrowed <= b.timesBorrowed
    ensures forall i :: 0 <= i < |books| && books[i].timesBorrowed == MaxBorrowed(books) ==> books[i] in r
    ensures forall b: Book :: b.timesBorrowed == MaxBorrowed(books) ==> multiset(r)[b] == multiset(books)[b]
  {
    var m := MaxBorrowed(books);
    var p := BorrowedTimes(m);
    FilterMembers(books, p);
    FilterCounts(books, p);
    FilterEmpty(books, p);
    Filter(books, p)
  }

  /** The most borrowed records are those whose count is the maximum. */
  lemma MostBorrowedByMax(books: seq<Book>)
    requires books != []
    ensures MostBorrowed(books) == Filter(books, BorrowedTimes(MaxBorrowed(books)))
  {
  }

  /**
    The most borrowed records keep list order: they are the records at the
    positions whose count is the maximum, those positions increasing.
   */
  lemma MostBorrowedInOrder(books: seq<Book>) returns (pos: seq<nat>)
    requires books != []
    ensures |pos| == |MostBorrowed(books)|
    ensures forall k :: 0 <= k < |pos| ==> pos[k] < |books| && MostBorrowed(books)[k] == books[pos[k]]
    ensures forall k, l :: 0 <= k < l < |pos| ==> pos[k] < pos[l]
    ensures forall i :: 0 <= i < |books| ==> (books[i].timesBorrowed == MaxBorrowed(books) <==> i in pos)
  {
    MostBorrowedByMax(books);
    pos := FilterPositions(books, BorrowedTimes(MaxBorrowed(books)));
  }

  /** The records whose title's first number is prime: the view of `get_books_with_prime_suffix`. */
  predicate HasPrimeNumber(b: Book) {
    var n := FirstNumber(b.title);
    n.Some? && Prime(n.value)
  }

  /**
    The prime-number view keeps exactly the records whose title holds a
    digit and whose first run of digits reads as a prime, each as often as
    it occurs, in list order.
   */
  lemma PrimeNumberedExactly(books: seq<Book>)
    ensures forall b :: b in Filter(books, HasPrimeNumber) ==>
      b in books && (exists k :: 0 <= k < |b.title| && IsDigit(b.title[k])) && Prime(FirstNumber(b.title).value)
    ensures forall b :: b in books && HasPrimeNumber(b) ==> b in Filter(books, HasPrimeNumber)
    ensures forall b :: HasPrimeNumber(b) ==> multiset(Filter(books, HasPrimeNumber))[b] == multiset(books)[b]
  {
    FilterMembers(books, HasPrimeNumber);
    FilterCounts(books, HasPrimeNumber);
  }

  /** A title made of digit-free text followed by the numeral of `n` is in the prime view exactly when `n` is prime. */
  lemma NumberedTitle(b: Book, prefix: string, n: nat)
    requires forall k :: 0 <= k < |prefix| ==> !IsDigit(prefix[k])
    requires b.title == prefix + ShowDecimal(n)
    ensures HasPrimeNumber(b) <==> Prime(n)
  {
    FirstNumberOfSuffix(prefix, n);
  }
}
