/** The three repositories as one in-memory database, and the counting of open loans
    that the lending counters must agree with. */
module Store {
  import opened Wrappers
  import opened JavaInt
  import opened Model
  import opened LoanPolicy

  /** Whose loans are being counted or listed: a book's or a user's. */
  datatype Party = OfBook(bookId: int) | OfUser(userId: int)

  /** The transaction's join column names the party. */
  predicate Involves(t: Transaction, p: Party)
  {
    match p
    case OfBook(b) => t.bookId == b
    case OfUser(u) => t.userId == u
  }

  /** The transaction is an open (ISSUED) loan of the party. */
  predicate OpenFor(t: Transaction, p: Party)
  {
    t.status == Issued && Involves(t, p)
  }

  /** Number of open loans of `p` in the ledger. */
  function OpenCount(ledger: seq<Transaction>, p: Party): (n: nat)
    ensures n <= |ledger|
  {
    if ledger == [] then 0
    else (if OpenFor(ledger[0], p) then 1 else 0) + OpenCount(ledger[1..], p)
  }

  /** Appending a loan adds one to the count exactly when the new loan is open for `p`. */
  lemma {:induction false} OpenCountAppend(ledger: seq<Transaction>, t: Transaction, p: Party)
    ensures OpenCount(ledger + [t], p) == OpenCount(ledger, p) + (if OpenFor(t, p) then 1 else 0)
  {
    if ledger != [] {
      assert (ledger + [t])[1..] == ledger[1..] + [t];
      OpenCountAppend(ledger[1..], t, p);
    }
  }

  /** Rewriting one ledger row changes the count by that row's change of openness. */
  lemma {:induction false} OpenCountUpdate(ledger: seq<Transaction>, i: nat, t: Transaction, p: Party)
    requires i < |ledger|
    ensures OpenCount(ledger[i := t], p)
         == OpenCount(ledger, p) - (if OpenFor(ledger[i], p) then 1 else 0) + (if OpenFor(t, p) then 1 else 0)
  {
    if i == 0 {
      assert ledger[i := t][1..] == ledger[1..];
    } else {
      assert ledger[i := t][1..] == ledger[1..][i - 1 := t];
      OpenCountUpdate(ledger[1..], i - 1, t, p);
    }
  }

  /** A party no row involves has no open loans. */
  lemma {:induction false} OpenCountUninvolved(ledger: seq<Transaction>, p: Party)
    requires forall i :: 0 <= i < |ledger| ==> !Involves(ledger[i], p)
    ensures OpenCount(ledger, p) == 0
  {
    if ledger != [] {
      assert forall i :: 0 <= i < |ledger[1..]| ==> ledger[1..][i] == ledger[i + 1];
      OpenCountUninvolved(ledger[1..], p);
    }
  }

  /** What every stored loan satisfies: due LOAN_PERIOD_DAYS after issue; while open, no
      return date and no fine; once returned, a return date and the fine for that date. */
  predicate WellFormedLoan(t: Transaction)
  {
    && t.dueDate == t.issueDate + LOAN_PERIOD_DAYS
    && (t.status == Issued ==> t.returnDate == None && t.fine == 0)
    && (t.status == Returned ==> t.returnDate.Some? && t.fine == Fine(t.dueDate, t.returnDate.value))
  }

  /** The lending counters agree with the ledger: each book's shelf count plus its open
      loans is its quantity, and each user's `booksIssued` is their open-loan count. */
  predicate Lockstep(books: map<int, Book>, users: map<int, User>, ledger: seq<Transaction>)
  {
    && (forall k :: k in books ==> books[k].available + OpenCount(ledger, OfBook(k)) == books[k].quantity)
    && (forall k :: k in users ==> users[k].booksIssued == Some(OpenCount(ledger, OfUser(k))))
  }

  /** Under lockstep a book's shelf count never exceeds its quantity, and it is
      non-negative exactly when the book's open loans fit within its quantity. */
  lemma LockstepBounds(books: map<int, Book>, users: map<int, User>, ledger: seq<Transaction>, k: int)
    requires Lockstep(books, users, ledger) && k in books
    ensures books[k].available <= books[k].quantity
    ensures books[k].available >= 0 <==> OpenCount(ledger, OfBook(k)) <= books[k].quantity
  {
  }

  /** The persisted state: book and user tables keyed by id, the append-only loan
      ledger, and the identity counters for new book and user rows. */
  class Database {
    var books: map<int, Book>
    var users: map<int, User>
    var ledger: seq<Transaction>
    var nextBookId: int
    var nextUserId: int

    /** Keys match ids and were handed out by the identity counters; loan `i` has id
        `i + 1` and refers to ids that were handed out; every loan is well formed. */
    ghost predicate Valid()
      reads this
    {
      && 1 <= nextBookId && 1 <= nextUserId
      && (forall k :: k in books ==> books[k].id == k && 1 <= k < nextBookId)
      && (forall k :: k in users ==> users[k].id == k && 1 <= k < nextUserId)
      && (forall i :: 0 <= i < |ledger| ==>
            && ledger[i].id == i + 1
            && 1 <= ledger[i].bookId < nextBookId
            && 1 <= ledger[i].userId < nextUserId
            && WellFormedLoan(ledger[i]))
    }

    /** The lending counters agree with the ledger. */
    ghost predicate Consistent()
      reads this
    {
      Lockstep(books, users, ledger)
    }

    /** An empty database. */
    constructor ()
      ensures Valid() && Consistent()
      ensures books == map[] && users == map[] && ledger == []
      ensures nextBookId == 1 && nextUserId == 1
    {
      books, users, ledger := map[], map[], [];
      nextBookId, nextUserId := 1, 1;
    }
  }
}
