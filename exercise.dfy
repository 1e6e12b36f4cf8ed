/**
  The smaller catalog of the class exercise: ten fixed entries and a title
  search that answers with the list of matches, empty when there are none.
 */
module Exercise {
  import opened Text
  import opened Seqs

  datatype Entry = Entry(title: string, author: string)

  /** The fixed list the exercise reads and never changes. */
  const BOOKS: seq<Entry> := [
    Entry("Book 1", "Author 1"),
    Entry("Book 2", "Author 2"),
    Entry("Book 3", "Author 3"),
    Entry("Book 4", "Author 4"),
    Entry("Book 5", "Author 5"),
    Entry("Book 6", "Author 6"),
    Entry("Book 7", "Author 7"),
    Entry("Book 8", "Author 8"),
    Entry("Book 9", "Author 9"),
    Entry("Book 10", "Author 10")
  ]

  /** `get_all_books`: the fixed list, whose n-th entry is "Book n" by "Author n". */
  function GetAllBooks(): (r: seq<Entry>)
    ensures |r| == 10
    ensures forall i :: 0 <= i < |r| ==>
      r[i] == Entry("Book " + ShowDecimal(i + 1), "Author " + ShowDecimal(i + 1))
  {
    BOOKS
  }

  predicate TitleMatches(e: Entry, bookTitle: string) {
    SameIgnoringCase(bookTitle, e.title)
  }

  function TitleIs(bookTitle: string): Entry -> bool {
    (e: Entry) => TitleMatches(e, bookTitle)
  }

  /**
    `get_book_by_title`: the entries whose title equals the query ignoring
    case, in list order; empty exactly when no title matches.
   */
  method GetBookByTitle(bookTitle: string) returns (newBooks: seq<Entry>)
    ensures newBooks == Filter(BOOKS, TitleIs(bookTitle))
    ensures newBooks == [] <==> forall i :: 0 <= i < |BOOKS| ==> !TitleMatches(BOOKS[i], bookTitle)
    ensures forall e :: e in newBooks ==> e in BOOKS && TitleMatches(e, bookTitle)
    ensures forall e :: e in BOOKS && TitleMatches(e, bookTitle) ==> e in newBooks
    ensures |newBooks| <= |BOOKS|
  {
    newBooks := [];
    var i := 0;
    while i < |BOOKS|
      invariant 0 <= i <= |BOOKS|
      invariant newBooks == Filter(BOOKS[..i], TitleIs(bookTitle))
    {
      assert BOOKS[..i + 1] == BOOKS[..i] + [BOOKS[i]];
      FilterSnoc(BOOKS[..i], BOOKS[i], TitleIs(bookTitle));
      if SameIgnoringCase(bookTitle, BOOKS[i].title) {
        newBooks := newBooks + [BOOKS[i]];
      }
      i := i + 1;
    }
    assert BOOKS[..i] == BOOKS;
    TitleSearchExactly(BOOKS, bookTitle);
  }

  /** The title filter of any list keeps exactly its matching entries, and nothing more. */
  lemma TitleSearchExactly(books: seq<Entry>, bookTitle: string)
    ensures Filter(books, TitleIs(bookTitle)) == [] <==>
      forall i :: 0 <= i < |books| ==> !TitleMatches(books[i], bookTitle)
    ensures forall e :: e in Filter(books, TitleIs(bookTitle)) ==> e in books && TitleMatches(e, bookTitle)
    ensures forall e :: e in books && TitleMatches(e, bookTitle) ==> e in Filter(books, TitleIs(bookTitle))
    ensures |Filter(books, TitleIs(bookTitle))| <= |books|
  {
    FilterEmpty(books, TitleIs(bookTitle));
    FilterMembers(books, TitleIs(bookTitle));
    FilterLength(books, TitleIs(bookTitle));
  }

  /** The lower-case query "book 1" finds "Book 1" and not "Book 10". */
  lemma BookOneFound()
    ensures Filter(BOOKS, TitleIs("book 1")) == [BOOKS[0]]
  {
    var q := "book 1";
    var rest := BOOKS[1..];
    BookOneMatches();
    assert Filter([BOOKS[0]], TitleIs(q)) == [BOOKS[0]] by {
      FilterSnoc([], BOOKS[0], TitleIs(q));
    }
    OthersMissBookOne();
    FilterEmpty(rest, TitleIs(q));
    assert BOOKS == [BOOKS[0]] + rest;
    FilterConcat([BOOKS[0]], rest, TitleIs(q));
  }

  lemma BookOneMatches()
    ensures TitleMatches(BOOKS[0], "book 1")
  {
    var q := "book 1";
    assert forall k :: 0 <= k < |q| ==> Lower(q)[k] == Lower(BOOKS[0].title)[k];
  }

  lemma OthersMissBookOne()
    ensures forall i :: 0 <= i < |BOOKS[1..]| ==> !TitleMatches(BOOKS[1..][i], "book 1")
  {
    var q := "book 1";
    var rest := BOOKS[1..];
    forall i | 0 <= i < |rest| ensures !TitleMatches(rest[i], q) {
      if i < 8 {
        assert Lower(rest[i].title)[5] != Lower(q)[5];
      } else {
        assert |Lower(rest[i].title)| != |Lower(q)|;
      }
    }
  }

  /** A title that is not in the list gives the empty list, not a marker. */
  lemma MissingTitleGivesEmpty()
    ensures Filter(BOOKS, TitleIs("Book 11")) == []
  {
    var q := "Book 11";
    forall i | 0 <= i < |BOOKS| ensures !TitleMatches(BOOKS[i], q) {
      if i < 9 {
        assert |Lower(BOOKS[i].title)| != |Lower(q)|;
      } else {
        assert Lower(BOOKS[i].title)[6] != Lower(q)[6];
      }
    }
    FilterEmpty(BOOKS, TitleIs(q));
  }
}
