/** The lending policy constants and the overdue fine. */
module LoanPolicy {

  /** Days from issue to due date. */
  const LOAN_PERIOD_DAYS: int := 14

  /** Open loans a user may hold; issuing is refused at this count. */
  const MAX_BOOKS_PER_USER: int := 3

  /** Dollars charged per day past the due date. */
  const FINE_PER_DAY: nat := 1

  /** The fine for a copy returned on day `returnDate` that was due on `dueDate`:
      nothing up to and including the due date, then one rate per whole day late. */
  function Fine(dueDate: int, returnDate: int): (f: nat)
    ensures f == 0 <==> returnDate <= dueDate
    ensures returnDate > dueDate ==> f == (returnDate - dueDate) * FINE_PER_DAY
  {
    if returnDate > dueDate then (returnDate - dueDate) * FINE_PER_DAY else 0
  }

  /** Returning later never costs less. */
  lemma FineMonotone(dueDate: int, day1: int, day2: int)
    requires day1 <= day2
    ensures Fine(dueDate, day1) <= Fine(dueDate, day2)
  {
  }

  /** Each extra day past the due date adds exactly one day's rate. */
  lemma FineGrowsByRate(dueDate: int, day: int)
    requires day >= dueDate
    ensures Fine(dueDate, day + 1) == Fine(dueDate, day) + FINE_PER_DAY
  {
  }
}
