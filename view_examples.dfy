/**
  The worked examples of the derived views, each over three records whose
  other fields are arbitrary: the most borrowed view keeps ties, and the
  prime view reads the first number in a title.
 */
module ViewExamples {
  import opened Seqs
  import opened Primes
  import opened Records

  /** Counts 5, 12 and 12: the two records with 12 are the most borrowed, in order. */
  lemma MostBorrowedExample(a: Book, b: Book, c: Book)
    requires a.timesBorrowed == 5 && b.timesBorrowed == 12 && c.timesBorrowed == 12
    ensures MostBorrowed([a, b, c]) == [b, c]
  {
    MaxOfThree(a, b, c);
    MostBorrowedByMax([a, b, c]);
    TopCountsOfThree(a, b, c);
  }

  lemma TopCountsOfThree(a: Book, b: Book, c: Book)
    requires a.timesBorrowed == 5 && b.timesBorrowed == 12 && c.timesBorrowed == 12
    ensures Filter([a, b, c], BorrowedTimes(12)) == [b, c]
  {
    var p := BorrowedTimes(12);
    assert !p(a) && p(b) && p(c);
    FilterThree(a, b, c, p);
  }

  lemma MaxOfThree(a: Book, b: Book, c: Book)
    requires a.timesBorrowed == 5 && b.timesBorrowed == 12 && c.timesBorrowed == 12
    ensures MaxBorrowed([a, b, c]) == 12
  {
    assert [a, b, c][..2] == [a, b] && [a, b][..1] == [a];
  }

  /** Of the titles "Book 4", "Book 7" and "Book 9" only "Book 7" is in the prime view. */
  lemma PrimeViewExample(a: Book, b: Book, c: Book)
    requires a.title == "Book 4" && b.title == "Book 7" && c.title == "Book 9"
    ensures Filter([a, b, c], HasPrimeNumber) == [b]
  {
    NumberedTitle(a, "Book ", 4);
    NumberedTitle(b, "Book ", 7);
    NumberedTitle(c, "Book ", 9);
    assert !Prime(4) by { assert 4 % 2 == 0; }
    assert !Prime(9) by { assert 9 % 3 == 0; }
    assert Prime(7) by { SmallDivisorsSuffice(7, 3); }
    FilterThree(a, b, c, HasPrimeNumber);
  }
}
