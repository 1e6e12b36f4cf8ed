# Library catalog — a verified Dafny model

This project models the in-memory library catalog of `assignment_2.py` and the small title search of `class_exercise.py`.

The catalog is a shared list of book records. Each record has an id, a title, an author, an `in_shelf` flag, a `times_borrowed` count and, once lent, a `borrow_date`. The requests work on that list as follows:

- **Search.** Find records by exact title or author, ignoring letter case. The answer is the matches in list order, or the "Book not Found" marker when there are none.
- **Add.** Add a record unless a record with the same title and author is already present.
- **Delete.** Delete the first record with a given title.
- **Borrow and return.** Borrow or return the first record matching a title or an author.
- **Fine.** On a return, charge 500 for every day beyond the 14 free days.
- **Views.** List the borrowed books, the available books and the most borrowed books (ties kept). List the books whose title's first number is prime.

The model has two layers:

- **`Records`** says what each request does, as a function of the list of records. `Search`, `FirstMatch`, `Adding`, `Deleting`, `Borrowing` and `Returning` each state the source's outcome cases in their contracts. The lemmas beside them relate the operations to one another:
  - a book just added is found;
  - adding twice is refused;
  - a delete removes only the first hit;
  - borrowing and then returning puts the book back with the fine for the days it was out;
  - a second borrow, or a second return, is refused.
- **`Store.Catalog`** is the shared list as a class with a `books` field. Each request is a method: the title and author searches, the prime view, add, delete, the two borrows, the two returns, and the borrowed, available and most borrowed views. Each runs the source's loop over the list, with the first-match `break` where the source has one. A list comprehension of the source becomes the loop it stands for. Each method is proved to leave the list, and to answer, exactly as the matching `Records` function says. The class invariant `Valid()` says that every record off the shelf carries a borrow date, so a return can always compute its fine. Every request preserves it.

The supporting modules are:

- **`Primes`**: trial division, proved to decide primality.
- **`Fines`**: the fine rule.
- **`Text`**: ASCII case folding, and the scanner for the first run of digits in a title, with its decimal value.
- **`Seqs`**: list filtering and its facts.
- **`ViewExamples`**: the worked examples of the most borrowed and the prime views.

`Exercise` models `class_exercise.py`. It holds the fixed ten-entry list and a title search that answers with the empty list, not a marker, when nothing matches.

Dates are whole day numbers counted from 0001-01-01, which is day 1. The current day is a parameter `now` of every request that needs it.

## Model

| member | source | states |
|---|---|---|
| Primes.IsPrime | assignment_2.py:69-81 | the answer is true exactly for the primes: at least 2 and with no divisor strictly between 1 and n |
| Primes.SmallDivisorsSuffice | assignment_2.py:77-81 | if no number from 2 up to the first i with i*i > n divides n, then n is prime, so trial division may stop at the square root |
| Primes.CoDivisor | assignment_2.py:77-79 | a divisor d of n strictly between 1 and n has the co-divisor n/d, in the same range |
| Primes.OddHasNoEvenDivisor | assignment_2.py:75-78 | an odd n has no even divisor, so only the odd candidates 3, 5, ... need testing |
| Primes.DivisorFound | assignment_2.py:78-80 | a divisor i with 3 <= i and i*i <= n shows that n is not prime |
| Primes.TrialStep | assignment_2.py:78-79 | an odd n not divisible by the odd candidate i has no divisor below i + 2 |
| Fines.DaysBetween | assignment_2.py:105 | the absolute whole-day difference between the borrow date and today, in either order |
| Fines.Fine | assignment_2.py:96-112 | the fine is 0 within 14 days, and (days - 14) * 500 beyond them |
| Fines.FineIsRatePerOverdueDay | assignment_2.py:100-112 | the fine is max(0, days - 14) * 500, never negative, and a whole multiple of the rate |
| Fines.FineSymmetric | assignment_2.py:105 | the fine does not depend on which date is the later one, because of the absolute value |
| Fines.FineMonotone | assignment_2.py:107-110 | keeping a book longer never lowers its fine |
| Fines.FineExamples | assignment_2.py:97-98 | 20 days out costs 3000; 10 or 14 days costs nothing; 15 days costs 500 |
| Text.LowerChar | assignment_2.py:88 | a capital letter becomes its small letter (code point + 32), and any other character stays the same |
| Text.Lower | assignment_2.py:88 | definition: `.lower()` of a whole string, `LowerChar` applied to each character |
| Text.SameIgnoringCase | assignment_2.py:88 | definition: the comparison `a.lower() == b.lower()`, also used at lines 144, 159, 188, 203, 221, 241 and 261 by every search and single-record request |
| Text.LowerIdempotent | assignment_2.py:88 | lower-casing twice is the same as lower-casing once |
| Text.SameIgnoringCaseOfLower | assignment_2.py:88 | a query compares equal to its own lower-cased form |
| Text.FirstDigitFrom | assignment_2.py:172 | the first digit at or after a position, with no digit skipped on the way |
| Text.DigitRunEnd | assignment_2.py:172 | the end of a run of digits: every character up to it is a digit, and the one at it is not |
| Text.FirstDigitRun | assignment_2.py:172-173 | the leftmost maximal run of digits; absent exactly when the title holds no digit |
| Text.DigitChar | assignment_2.py:174 | the numeral character of a digit value, which reads back as that value |
| Text.ParseDecimal | assignment_2.py:174 | definition: `int()` of a string of decimal digits, most significant first, leading zeros allowed |
| Text.ShowDecimal | assignment_2.py:174 | the decimal numeral of n is a non-empty string of digits, with no leading zero when n > 0 |
| Text.ParseShowDecimal | assignment_2.py:174 | reading the numeral of n as a decimal gives back n |
| Text.FirstNumber | assignment_2.py:172-174 | the number in the first run of digits; absent exactly when the title has no digit |
| Text.FirstNumberOfSuffix | assignment_2.py:171-174 | a title of digit-free text followed by the numeral of n carries the number n |
| Seqs.FilterSnoc | assignment_2.py:86-89 | appending a record extends the matches by that record exactly when it matches |
| Seqs.Filter | assignment_2.py:276 | definition: the comprehension `[x for x in s if p(x)]` here and at line 282, and `list(filter(p, s))` at line 291, which keep the elements satisfying p in list order |
| Seqs.FilterThree | assignment_2.py:276 | filtering a three-element list keeps each element that satisfies the condition, in order |
| Seqs.FilterConcat | assignment_2.py:276 | filtering a concatenation concatenates the filtered parts |
| Seqs.FilterMembers | assignment_2.py:276 | an element is kept exactly when it is in the list and satisfies the condition |
| Seqs.FilterCounts | assignment_2.py:276 | each kept element is kept as often as it occurs, and every other element is dropped |
| Seqs.FilterEmpty | assignment_2.py:90-91 | nothing is kept exactly when no element satisfies the condition |
| Seqs.FilterPositions | assignment_2.py:87-89 | the kept elements are those at the satisfying positions, in increasing order |
| Seqs.Hits | assignment_2.py:87-89 | one position of the list per kept element, each a valid position |
| Seqs.HitsSelect | assignment_2.py:87-89 | the k-th kept element is the element at the k-th listed position |
| Seqs.HitsIncreasing | assignment_2.py:87 | the listed positions increase, so the kept elements keep list order |
| Seqs.HitsExact | assignment_2.py:88-89 | a position is listed exactly when its element satisfies the condition |
| Seqs.FilterLength | class_exercise.py:24-27 | the kept list is never longer than the input |
| Records.SelectExactly | assignment_2.py:85-92 | the matches are exactly the matching records of the list, each as often as it occurs, at increasing positions |
| Records.Select | assignment_2.py:86-89 | definition: the accumulating loop of the title search, and of the author search at lines 142-145: the matching records in list order |
| Records.SearchIgnoresQueryCase | assignment_2.py:88 | lower-casing the query first changes neither the matches nor the answer of a search, by title here or by author at line 144 |
| Records.Search | assignment_2.py:85-92 | "Book not Found" exactly when no title (or author) matches ignoring case; otherwise the non-empty list of matches in list order |
| Records.FirstMatch | assignment_2.py:220-229 | the position of the record the break stops at: it matches and no earlier record does; absent exactly when nothing matches |
| Records.FirstMatchFrom | assignment_2.py:220-229 | the scan from a position: the first matching position at or after it, and absent exactly when none of the later records matches |
| Records.FirstMatchAt | assignment_2.py:187-191 | a matching record with no match before it is the one the loop stops at |
| Records.SelectFrom | assignment_2.py:187-191 | the matches are the first match followed by the matches after it |
| Records.FirstMatchIsFirstHit | assignment_2.py:187-191 | the record a single-record request acts on is the first entry of the search result |
| Records.FirstMatchKeysOnly | assignment_2.py:220-221 | the first match depends only on the titles (or authors), not on the shelf state or counts |
| Records.Adding | assignment_2.py:153-163 | "Book already exists" exactly when some record has both the title and the author ignoring case, and then nothing changes; otherwise one record with the given id, on the shelf, never borrowed and undated, is appended and the earlier records stay; the borrow-date invariant is kept |
| Records.AddThenSearch | assignment_2.py:158-163 | a book just added is found by its title and by its author, after the earlier matches |
| Records.AddTwiceRefused | assignment_2.py:158-160 | adding the same title and author again is refused, whatever the id |
| Records.HasPair | assignment_2.py:158-160 | definition: some record has both the title and the author, ignoring case |
| Records.Deleting | assignment_2.py:182-194 | "Not found" exactly when no title matches, and then nothing changes; otherwise the list is one shorter, the records before the first match stay, and the records after it move up one, in order; the invariant is kept |
| Records.DeleteDropsFirstHit | assignment_2.py:187-194 | after a delete, the title search gives the earlier matches minus their first entry |
| Records.RemoveFirstHit | assignment_2.py:188-191 | removing the first matching record removes exactly the first search hit |
| Records.DeleteKeepsLaterDuplicate | assignment_2.py:187-192 | with a title present twice, the later copies are still found after a delete |
| Records.Lend | assignment_2.py:222-226 | the lent record is off the shelf, dated today, and counted once more; its id, title and author stay |
| Records.Borrowing | assignment_2.py:199-230 | only the first match is touched: on the shelf it is lent ("Book has been borrowed"); off the shelf or with no match nothing changes ("Book not in shelf", "Book Not Found"); every other record stays; the length and the invariant are kept |
| Records.Returning | assignment_2.py:235-270 | only the first match is touched: off the shelf it goes back on the shelf with its date and count untouched, and the fine is computed from its borrow date ("Book has been Returned"); already on the shelf or with no match, the fine is 0 and nothing changes; every other record stays; the invariant is kept |
| Records.BorrowAt | assignment_2.py:220-226 | proof helper: the borrow outcome when the first match, at k, is on the shelf, as it follows from the definition |
| Records.ReturnAt | assignment_2.py:260-265 | proof helper: the return outcome when the first match, at k, is off the shelf, as it follows from the definition |
| Records.UpdateKeepsFirstMatch | assignment_2.py:220-229 | changing a record's shelf state, date or count leaves the first match where it was |
| Records.BorrowThenReturn | assignment_2.py:216-270 | borrowing and then returning by the same key leaves the record on the shelf with the new date and one more borrow; the fine is for the days in between; no other record changes |
| Records.ShelveLent | assignment_2.py:222-226 | shelving a record just lent gives the original record with the new date and count |
| Records.BorrowTwiceRefused | assignment_2.py:220-229 | a second borrow before a return is answered "Book not in shelf" and changes nothing |
| Records.ReturnTwiceRefused | assignment_2.py:260-268 | a second return is answered "Book already in shelf" with fine 0 and changes nothing |
| Records.BorrowedBooks | assignment_2.py:274-276 | the records off the shelf, each as often as it occurs, and no others |
| Records.AvailableBooks | assignment_2.py:280-282 | the records on the shelf, each as often as it occurs, and no others |
| Records.ShelfViewsPartition | assignment_2.py:274-282 | every record is in exactly one of the two views |
| Records.MaxBorrowed | assignment_2.py:289 | the largest borrow count of a non-empty list: some record has it and none exceeds it |
| Records.MostBorrowed | assignment_2.py:286-291 | every record borrowed as often as the most borrowed one, ties included, as often as it occurs; never empty for a non-empty list |
| Records.MostBorrowedInOrder | assignment_2.py:291 | the most borrowed records keep list order: they are the records at the increasing positions whose count is the maximum, and no others |
| Records.MaxBorrowedOne | assignment_2.py:289 | proof helper: the largest count of a one-record list is that record's count |
| Records.MaxBorrowedSnoc | assignment_2.py:289 | one more record makes its own count the largest when it is at least the previous largest, and otherwise keeps the previous largest |
| Records.MostBorrowedByMax | assignment_2.py:289-291 | proof helper: the most borrowed records are the filter for the maximum count, as the definition computes them |
| Records.PrimeNumberedExactly | assignment_2.py:168-177 | the prime view keeps exactly the records whose title holds a digit and whose first number is prime, each as often as it occurs |
| Records.HasPrimeNumber | assignment_2.py:171-175 | definition: the title holds a digit, and the number in its first run of digits is prime |
| Records.NumberedTitle | assignment_2.py:171-175 | a title of the form "text n" is in the prime view exactly when n is prime |
| ViewExamples.MaxOfThree | assignment_2.py:289 | the maximum of the counts 5, 12 and 12 is 12 |
| ViewExamples.TopCountsOfThree | assignment_2.py:291 | with counts 5, 12 and 12, keeping the records with count 12 keeps the last two |
| ViewExamples.MostBorrowedExample | assignment_2.py:286-291 | with counts 5, 12 and 12, the two records with 12 are the most borrowed, in order |
| ViewExamples.PrimeViewExample | assignment_2.py:166-177 | of "Book 4", "Book 7" and "Book 9" only "Book 7" is kept |
| Store.Catalog.constructor | assignment_2.py:49-60 | the catalog starts with the ten sample records, and the invariant holds |
| Store.Catalog.SearchBy | assignment_2.py:85-92 | the scan answers as the title or author search does |
| Store.Catalog.GetBookByTitle | assignment_2.py:85-92 | answers as the title search |
| Store.Catalog.GetBooksByAuthor | assignment_2.py:140-148 | answers as the author search |
| Store.Catalog.GetBooksWithPrimeSuffix | assignment_2.py:168-177 | the accumulating loop with the regex and the primality test yields the prime view |
| Store.Catalog.GetBorrowedBooks | assignment_2.py:274-276 | the comprehension's loop yields the borrowed view of the list |
| Store.Catalog.GetAvailableBooks | assignment_2.py:280-282 | the comprehension's loop yields the available view of the list |
| Store.Catalog.LargestCount | assignment_2.py:289 | the `max` pass over a non-empty list yields the largest borrow count |
| Store.Catalog.BorrowedExactly | assignment_2.py:291 | the `filter` pass yields the records with the given count, in list order |
| Store.Catalog.MostBorrowedBook | assignment_2.py:286-291 | no answer exactly for the empty list, where `max` raises; otherwise the most borrowed view of the list |
| Store.Catalog.AddBook | assignment_2.py:153-163 | the new list and the status are those of add; the invariant is kept |
| Store.Catalog.DeleteBookByName | assignment_2.py:182-194 | the new list and the status are those of delete; the invariant is kept |
| Store.Catalog.BorrowFirst | assignment_2.py:199-230 | the new list and the status are those of borrow; the invariant is kept |
| Store.Catalog.BorrowByTitle | assignment_2.py:216-230 | borrow by title |
| Store.Catalog.BorrowByAuthor | assignment_2.py:198-212 | borrow by author |
| Store.Catalog.ReturnFirst | assignment_2.py:235-270 | the new list, the fine and the status are those of return; the invariant is kept |
| Store.Catalog.ReturnByTitle | assignment_2.py:254-270 | return by title |
| Store.Catalog.ReturnByAuthor | assignment_2.py:234-250 | return by author |
| Exercise.GetAllBooks | class_exercise.py:5-19 | the fixed list of ten entries, the n-th being "Book n" by "Author n" |
| Exercise.GetBookByTitle | class_exercise.py:23-28 | the entries whose title equals the query ignoring case, in list order; empty exactly when none matches; every entry returned is from the list and matches, and every match is returned; no longer than the list |
| Exercise.TitleSearchExactly | class_exercise.py:24-28 | the title filter is empty exactly when no title matches, keeps only matching entries of the list, keeps every matching entry, and is no longer than the list |
| Exercise.BookOneFound | class_exercise.py:49 | the query "book 1" finds "Book 1" only, not "Book 10" |
| Exercise.BookOneMatches | class_exercise.py:26 | "book 1" equals "Book 1" ignoring case |
| Exercise.OthersMissBookOne | class_exercise.py:26 | "book 1" equals none of "Book 2" to "Book 10" ignoring case |
| Exercise.MissingTitleGivesEmpty | class_exercise.py:28 | a title not in the list gives the empty list |

## Left out

- HTTP transport is not modelled: the FastAPI app, the route decorators, `read_root`, the `all_books` handler and the `request: dict` handler. The request handlers take plain strings and integers instead.
- The pydantic request models and their `__getitem__` bridges are not modelled. They are validation glue.
- `get_all_books` of `assignment_2.py` (lines 64-65) is not modelled. It only returns the list, which is the `books` field of `Catalog`.
- `datetime.now()` and datetime subtraction are not modelled. Dates are whole day numbers, and the current day is the parameter `now`. The code stores the time of day with a borrow, and `(now - borrowed_date).days` rounds the elapsed time down to whole days; a borrow date after `now` gives a negative count, whose absolute value rounds up. So the model's day count can differ from the code's by one day, and the fine by 500. For example, a book lent at 14:00 on day D and returned at 10:00 on day D + 15 is 14 days out for the code, with fine 0, while `Fines.Fine(D, D + 15)` is 500.
- The float square root `int(n**0.5)` is not modelled. `Primes.IsPrime` bounds its loop by `i * i <= n`, which tests the same divisors for every n that float rounding gets right. Above 2^53 the conversion to float rounds n, and the rounded root can fall below the true one. Then the source skips the last candidate and can call a composite prime. For the prime p = 17623186739992331, `int((p*p)**0.5)` is p - 1. So `is_prime` answers True for p*p = 310576710872641523161781938813561, a 33-digit number. A record titled "Vol 310576710872641523161781938813561" is then kept by `get_books_with_prime_suffix` and left out by `Store.Catalog.GetBooksWithPrimeSuffix`. Its error path is not modelled either. Converting n to a float rounds to nearest, so for every odd n from 2^1024 - 2^970 upward `n**0.5` raises `OverflowError`. So a title whose first number is that large makes `get_books_with_prime_suffix` fail, while `Store.Catalog.GetBooksWithPrimeSuffix` returns a list.
- `Text.ParseDecimal` has no length limit on the digit string. On Python versions that cap integer-string conversion (3.11 and later, and the security releases that backported the cap, 4300 digits by default), `int(match.group())` raises `ValueError` when the first run of digits in a title is longer than that. The error comes before `is_prime`, so it applies to even numbers too. `Store.Catalog.GetBooksWithPrimeSuffix` then returns a list where the source request fails.
- The regular expression `\d+` is modelled by a scanner for the first maximal run of ASCII digits. Python also matches other Unicode decimal digits.
- Text.LowerChar: `.lower()` is modelled as ASCII lower-casing. Full Unicode case mapping is not modelled.
- Records.MostBorrowed: `max` raises on an empty list, so the function requires a non-empty list. `Store.Catalog.MostBorrowedBook` answers None for that case, which stands for the error.
- Records.Returning: the code leaves `borrow_date` in place after a return, until the next borrow overwrites it, and the model does the same; it does not clear the date. The invariant kept is therefore one-directional: off the shelf implies a borrow date, but a record on the shelf may still carry an old date.
- Records.Returning: requires every record off the shelf to carry a borrow date. The code would raise `KeyError` in `pay_fine` otherwise. The invariant `Valid()` of `Catalog` rules that case out: the seed list satisfies it and every request keeps it.
- Python dictionaries are shared by reference: a search result holds the same record objects as the catalog. Records are values here, so that aliasing is not modelled.
- The `books` reply of `add_book` and `delete_book_by_name` is not modelled. It is the catalog list itself, which is the `books` field after the call.
- Concurrency is not modelled, since the code has no locking.
