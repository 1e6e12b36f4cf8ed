/**
  The catalog itself: the shared list of records that every request reads
  and updates in place. Each method runs the loop of its request over the
  list (the list comprehensions of the three views included) and is proved
  to leave the list, and to answer, exactly as the matching function of
  `Records` says.
 */
module Store {
  import opened Wrappers
  import opened Seqs
  import opened Text
  import opened Primes
  import opened Fines
  import opened Records

  /** 2025-04-01, 2025-04-15 and 2025-04-25 as day numbers (days since 0001-01-01, that day being 1). */
  const APRIL_1: int := 739342
  const APRIL_15: int := 739356
  const APRIL_25: int := 739366

  /** The ten records the catalog starts with; three are out on loan. */
  const SEED_BOOKS: seq<Book> := [
    Book(101, "The Pragmatic Programmer 1", "Andrew Hunt", true, 5, None),
    Book(203, "Clean Code 4", "Robert C. Martin", false, 12, Some(APRIL_1)),
    Book(283, "Introduction to Algorithms 5", "Thomas H. Cormen", true, 7, None),
    Book(428, "Design Patterns 6", "Erich Gamma", true, 4, None),
    Book(285, "Python Crash Course 2", "Eric Matthes", false, 8, Some(APRIL_15)),
    Book(628, "Data Science from Scratch 7", "Joel Grus", true, 3, None),
    Book(773, "You Don't Know JS 3", "Kyle Simpson", true, 6, None),
    Book(838, "Deep Learning 9", "Ian Goodfellow", true, 2, None),
    Book(937, "Fluent Python 8", "Luciano Ramalho", true, 12, None),
    Book(100, "Effective Java 10", "Joshua Bloch", false, 9, Some(APRIL_25))
  ]

  class Catalog {
    var books: seq<Book>

    /** Every record off the shelf carries the date it was lent on. */
    ghost predicate Valid()
      reads this
    {
      BorrowDatesPresent(books)
    }

    constructor ()
      ensures Valid() && books == SEED_BOOKS
    {
      books := SEED_BOOKS;
    }

    /** The scan shared by the title and the author search. */
    method SearchBy(field: Field, key: string) returns (r: SearchResult)
      ensures r == Search(books, field, key)
    {
      var found: seq<Book> := [];
      var i := 0;
      while i < |books|
        invariant 0 <= i <= |books|
        invariant found == Select(books[..i], field, key)
      {
        assert books[..i + 1] == books[..i] + [books[i]];
        FilterSnoc(books[..i], books[i], MatchesOf(field, key));
        if SameIgnoringCase(key, KeyOf(books[i], field)) {
          found := found + [books[i]];
        }
        i := i + 1;
      }
      assert books[..i] == books;
      if found == [] {
        return BookNotFound;
      }
      return Found(found);
    }

    /** `get_book_by_title`. */
    method GetBookByTitle(title: string) returns (r: SearchResult)
      ensures r == Search(books, Title, title)
    {
      r := SearchBy(Title, title);
    }

    /** The author search of `book_by_author`. */
    method GetBooksByAuthor(author: string) returns (r: SearchResult)
      ensures r == Search(books, Author, author)
    {
      r := SearchBy(Author, author);
    }

    /** `get_books_with_prime_suffix`: the records whose title's first number is prime. */
    method GetBooksWithPrimeSuffix() returns (r: seq<Book>)
      ensures r == Filter(books, HasPrimeNumber)
    {
      r := [];
      var i := 0;
      while i < |books|
        invariant 0 <= i <= |books|
        invariant r == Filter(books[..i], HasPrimeNumber)
      {
        assert books[..i + 1] == books[..i] + [books[i]];
        FilterSnoc(books[..i], books[i], HasPrimeNumber);
        var number := FirstNumber(books[i].title);
        if number.Some? {
          var prime := IsPrime(number.value);
          if prime {
            r := r + [books[i]];
          }
        }
        i := i + 1;
      }
      assert books[..i] == books;
    }

    /** `get_borrowed_books`: the records out on loan, in list order. */
    method GetBorrowedBooks() returns (r: seq<Book>)
      ensures r == BorrowedBooks(books)
    {
      r := [];
      var i := 0;
      while i < |books|
        invariant 0 <= i <= |books|
        invariant r == Filter(books[..i], OffShelf)
      {
        assert books[..i + 1] == books[..i] + [books[i]];
        FilterSnoc(books[..i], books[i], OffShelf);
        if !books[i].inShelf {
          r := r + [books[i]];
        }
        i := i + 1;
      }
      assert books[..i] == books;
    }

    /** `get_available_books`: the records on the shelf, in list order. */
    method GetAvailableBooks() returns (r: seq<Book>)
      ensures r == AvailableBooks(books)
    {
      r := [];
      var i := 0;
      while i < |books|
        invariant 0 <= i <= |books|
        invariant r == Filter(books[..i], OnShelf)
      {
        assert books[..i + 1] == books[..i] + [books[i]];
        FilterSnoc(books[..i], books[i], OnShelf);
        if books[i].inShelf {
          r := r + [books[i]];
        }
        i := i + 1;
      }
      assert books[..i] == books;
    }

    /** The `max` pass of `most_borrowed_book`: the largest borrow count. */
    method LargestCount() returns (most: nat)
      requires books != []
      ensures most == MaxBorrowed(books)
    {
      most := books[0].timesBorrowed;
      MaxBorrowedOne(books);
      var i := 1;
      while i < |books|
        invariant 1 <= i <= |books|
        invariant most == MaxBorrowed(books[..i])
      {
        MaxBorrowedSnoc(books, i);
        if books[i].timesBorrowed >= most {
          most := books[i].timesBorrowed;
        }
        i := i + 1;
      }
      assert books[..i] == books;
    }

    /** The `filter` pass of `most_borrowed_book`: the records with count `m`, in list order. */
    method BorrowedExactly(m: nat) returns (r: seq<Book>)
      ensures r == Filter(books, BorrowedTimes(m))
    {
      r := [];
      var i := 0;
      while i < |books|
        invariant 0 <= i <= |books|
        invariant r == Filter(books[..i], BorrowedTimes(m))
      {
        assert books[..i + 1] == books[..i] + [books[i]];
        FilterSnoc(books[..i], books[i], BorrowedTimes(m));
        if books[i].timesBorrowed == m {
          r := r + [books[i]];
        }
        i := i + 1;
      }
      assert books[..i] == books;
    }

    /**
      `most_borrowed_book`: the largest count, then every record with that
      count. None where `max` raises on an empty list.
     */
    method MostBorrowedBook() returns (r: Option<seq<Book>>)
      ensures r.None? <==> books == []
      ensures r.Some? ==> books != [] && r.value == MostBorrowed(books)
    {
      if books == [] {
        return None;
      }
      var most := LargestCount();
      var top := BorrowedExactly(most);
      MostBorrowedByMax(books);
      return Some(top);
    }

    /** `add_book`: refused when the title and author are both present already, else appended. */
    method AddBook(id: int, title: string, author: string) returns (status: AddStatus)
      requires Valid()
      modifies this
      ensures Valid()
      ensures (books, status) == Adding(old(books), id, title, author)
    {
      var i := 0;
      while i < |books|
        invariant 0 <= i <= |books|
        invariant forall j :: 0 <= j < i ==> !(Matches(books[j], Title, title) && Matches(books[j], Author, author))
      {
        if SameIgnoringCase(title, books[i].title) && SameIgnoringCase(author, books[i].author) {
          return AlreadyExists;
        }
        i := i + 1;
      }
      books := books + [Book(id, title, author, true, 0, None)];
      return BookAdded;
    }

    /** `delete_book_by_name`: removes the first record with the title, if any. */
    method DeleteBookByName(title: string) returns (status: DeleteStatus)
      requires Valid()
      modifies this
      ensures Valid()
      ensures (books, status) == Deleting(old(books), title)
    {
      var index := 0;
      status := DeleteNotFound;
      while index < |books|
        invariant 0 <= index <= |books|
        invariant forall j :: 0 <= j < index ==> !Matches(books[j], Title, title)
      {
        if SameIgnoringCase(title, books[index].title) {
          FirstMatchAt(books, Title, title, index);
          status := BookDeleted;
          books := books[..index] + books[index + 1..];
          return;
        }
        index := index + 1;
      }
    }

    /** The loop shared by the two borrow requests: lends the first match if it is on the shelf. */
    method BorrowFirst(field: Field, key: string, now: int) returns (status: BorrowStatus)
      requires Valid()
      modifies this
      ensures Valid()
      ensures (books, status) == Borrowing(old(books), field, key, now)
    {
      status := BorrowNotFound;
      var i := 0;
      while i < |books|
        invariant 0 <= i <= |books|
        invariant forall j :: 0 <= j < i ==> !Matches(books[j], field, key)
      {
        if SameIgnoringCase(key, KeyOf(books[i], field)) {
          FirstMatchAt(books, field, key, i);
          if books[i].inShelf {
            books := books[i := books[i].(inShelf := false, borrowDate := Some(now),
                                           timesBorrowed := books[i].timesBorrowed + 1)];
            status := BookBorrowed;
          } else {
            status := NotInShelf;
          }
          return;
        }
        i := i + 1;
      }
    }

    /** `borrow_book_by_title`. */
    method BorrowByTitle(title: string, now: int) returns (status: BorrowStatus)
      requires Valid()
      modifies this
      ensures Valid()
      ensures (books, status) == Borrowing(old(books), Title, title, now)
    {
      status := BorrowFirst(Title, title, now);
    }

    /** `borrow_book_by_author`. */
    method BorrowByAuthor(author: string, now: int) returns (status: BorrowStatus)
      requires Valid()
      modifies this
      ensures Valid()
      ensures (books, status) == Borrowing(old(books), Author, author, now)
    {
      status := BorrowFirst(Author, author, now);
    }

    /** The loop shared by the two return requests: shelves the first match if it is out, with its fine. */
    method ReturnFirst(field: Field, key: string, now: int) returns (reply: ReturnReply)
      requires Valid()
      modifies this
      ensures Valid()
      ensures (books, reply) == Returning(old(books), field, key, now)
    {
      var status := ReturnNotFound;
      var fine := 0;
      var i := 0;
      while i < |books|
        invariant 0 <= i <= |books|
        invariant forall j :: 0 <= j < i ==> !Matches(books[j], field, key)
      {
        if SameIgnoringCase(key, KeyOf(books[i], field)) {
          FirstMatchAt(books, field, key, i);
          if !books[i].inShelf {
            books := books[i := books[i].(inShelf := true)];
            fine := Fine(books[i].borrowDate.value, now);
            status := BookReturned;
          } else {
            status := AlreadyInShelf;
          }
          break;
        }
        i := i + 1;
      }
      reply := ReturnReply(fine, status);
    }

    /** `return_book_by_title`. */
    method ReturnByTitle(title: string, now: int) returns (reply: ReturnReply)
      requires Valid()
      modifies this
      ensures Valid()
      ensures (books, reply) == Returning(old(books), Title, title, now)
    {
      reply := ReturnFirst(Title, title, now);
    }

    /** `return_book_by_author`. */
    method ReturnByAuthor(author: string, now: int) returns (reply: ReturnReply)
      requires Valid()
      modifies this
      ensures Valid()
      ensures (books, reply) == Returning(old(books), Author, author, now)
    {
      reply := ReturnFirst(Author, author, now);
    }
  }
}
