/**
  The overdue fine charged when a borrowed book comes back. Dates are whole
  day numbers; the first 14 days are free and every further day costs 500.
 */
module Fines {

  const BORROWING_LIMIT: nat := 14
  const FINE_RATE: nat := 500

  /** The whole number of days between two day numbers, in either order. */
  function DaysBetween(borrowDate: int, now: int): (d: nat)
    ensures d == now - borrowDate || d == borrowDate - now
  {
    if now >= borrowDate then now - borrowDate else borrowDate - now
  }

  /** `pay_fine`: 500 for each day beyond the 14 free days, and nothing within them. */
  function Fine(borrowDate: int, now: int): (fine: nat)
    ensures DaysBetween(borrowDate, now) <= BORROWING_LIMIT ==> fine == 0
    ensures DaysBetween(borrowDate, now) > BORROWING_LIMIT ==>
              fine == (DaysBetween(borrowDate, now) - BORROWING_LIMIT) * FINE_RATE
  {
    var days := DaysBetween(borrowDate, now);
    if days > BORROWING_LIMIT then (days - BORROWING_LIMIT) * FINE_RATE else 0
  }

  function Max(a: int, b: int): int {
    if a >= b then a else b
  }

  /** The fine is `max(0, days - 14) * 500`: a whole number of days' rate, never negative. */
  lemma FineIsRatePerOverdueDay(borrowDate: int, now: int)
    ensures Fine(borrowDate, now) == Max(0, DaysBetween(borrowDate, now) - BORROWING_LIMIT) * FINE_RATE
    ensures Fine(borrowDate, now) % FINE_RATE == 0
  {
  }

  /** The fine does not depend on which of the two dates is the later one. */
  lemma FineSymmetric(borrowDate: int, now: int)
    ensures Fine(borrowDate, now) == Fine(now, borrowDate)
  {
  }

  /** Keeping a book longer never lowers the fine. */
  lemma FineMonotone(borrowDate: int, now: int, later: int)
    requires borrowDate <= now <= later
    ensures Fine(borrowDate, now) <= Fine(borrowDate, later)
  {
  }

  /** Borrowed 20 days ago costs 6 * 500; borrowed 10 days ago costs nothing. */
  lemma FineExamples(today: int)
    ensures Fine(today - 20, today) == 3000
    ensures Fine(today - 10, today) == 0
    ensures Fine(today - 14, today) == 0 && Fine(today - 15, today) == 500
  {
  }
}
