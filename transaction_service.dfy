/** The lending engine: issuing and returning copies, the per-party loan listings and
    the transaction DTO. */
module TransactionService {
  import opened Wrappers
  import opened JavaInt
  import opened Model
  import opened LoanPolicy
  import opened Store

  /** Loan ids are the ledger positions plus one. */
  predicate IdsArePositions(ledger: seq<Transaction>)
  {
    forall i :: 0 <= i < |ledger| ==> ledger[i].id == i + 1
  }

  /** `findById` on the transaction table. */
  function FindTransaction(ledger: seq<Transaction>, id: int): (r: Option<Transaction>)
    ensures IdsArePositions(ledger) ==>
      (r.Some? <==> exists i :: 0 <= i < |ledger| && ledger[i].id == id)
    ensures r.Some? ==> r.value in ledger && (IdsArePositions(ledger) ==> r.value.id == id)
  {
    if 1 <= id <= |ledger| then Some(ledger[id - 1]) else None
  }

  /** The DTO of a loan: its id, join columns, dates, status name and fine. */
  function ToDto(t: Transaction): (d: TransactionDto)
    ensures d.id == t.id && d.userId == t.userId && d.bookId == t.bookId
    ensures d.issueDate == t.issueDate && d.dueDate == t.dueDate && d.returnDate == t.returnDate
    ensures d.status == "ISSUED" <==> t.status == Issued
    ensures d.status == "RETURNED" <==> t.status == Returned
    ensures d.fine == t.fine
  {
    TransactionDto(t.id, t.userId, t.bookId, t.issueDate, t.dueDate, t.returnDate, StatusName(t.status), t.fine)
  }

  /** The loan as `returnBook` leaves it when the copy comes back on day `today`. */
  function Closed(t: Transaction, today: int): (c: Transaction)
    ensures WellFormedLoan(t) && t.status == Issued ==> WellFormedLoan(c)
    ensures c.status == Returned && c.returnDate == Some(today)
    ensures c.id == t.id && c.userId == t.userId && c.bookId == t.bookId
    ensures c.issueDate == t.issueDate && c.dueDate == t.dueDate
  {
    t.(returnDate := Some(today), status := Returned, fine := Fine(t.dueDate, today))
  }

  predicate IdsIncreasing(ledger: seq<Transaction>)
  {
    forall i, j :: 0 <= i < j < |ledger| ==> ledger[i].id < ledger[j].id
  }

  predicate DtoIdsIncreasing(ds: seq<TransactionDto>)
  {
    forall i, j :: 0 <= i < j < |ds| ==> ds[i].id < ds[j].id
  }

  /** The DTOs of the loans that involve `p`, in ledger order. */
  function Listing(ledger: seq<Transaction>, p: Party): (r: seq<TransactionDto>)
    ensures |r| <= |ledger|
    ensures forall d :: d in r ==> exists t :: t in ledger && Involves(t, p) && d == ToDto(t)
    ensures forall t :: t in ledger && Involves(t, p) ==> ToDto(t) in r
  {
    if ledger == [] then []
    else
      var rest := Listing(ledger[1..], p);
      assert forall t :: t in ledger[1..] ==> t in ledger;
      assert forall t :: t in ledger ==> t == ledger[0] || t in ledger[1..];
      if Involves(ledger[0], p) then [ToDto(ledger[0])] + rest else rest
  }

  /** Prefixing a DTO whose id is below every id of an ascending list keeps it ascending. */
  lemma PrefixKeepsOrder(x: TransactionDto, rest: seq<TransactionDto>)
    requires DtoIdsIncreasing(rest)
    requires forall d :: d in rest ==> x.id < d.id
    ensures DtoIdsIncreasing([x] + rest)
  {
    var r := [x] + rest;
    forall i, j | 0 <= i < j < |r| ensures r[i].id < r[j].id {
      assert r[j] == rest[j - 1] && r[j] in rest;
      if i > 0 {
        assert r[i] == rest[i - 1];
      }
    }
  }

  /** A listing of a ledger in ascending id order is itself in ascending id order. */
  lemma {:induction false} ListingOrdered(ledger: seq<Transaction>, p: Party)
    requires IdsIncreasing(ledger)
    ensures DtoIdsIncreasing(Listing(ledger, p))
  {
    if ledger != [] {
      var tail := ledger[1..];
      assert IdsIncreasing(tail) by {
        forall i, j | 0 <= i < j < |tail| ensures tail[i].id < tail[j].id {
          assert tail[i] == ledger[i + 1] && tail[j] == ledger[j + 1];
        }
      }
      ListingOrdered(tail, p);
      var rest := Listing(tail, p);
      forall d | d in rest ensures ledger[0].id < d.id {
        var t :| t in tail && Involves(t, p) && d == ToDto(t);
        var j :| 0 <= j < |tail| && tail[j] == t;
        assert t == ledger[j + 1];
      }
      if Involves(ledger[0], p) {
        PrefixKeepsOrder(ToDto(ledger[0]), rest);
      }
    }
  }

  /** `getUserTransactions`: one DTO per loan of that user and nothing else, in
      ascending id order. */
  function UserTransactions(ledger: seq<Transaction>, userId: int): (r: seq<TransactionDto>)
    ensures forall d :: d in r <==> exists t :: t in ledger && t.userId == userId && d == ToDto(t)
    ensures IdsIncreasing(ledger) ==> DtoIdsIncreasing(r)
  {
    if IdsIncreasing(ledger) then
      ListingOrdered(ledger, OfUser(userId));
      Listing(ledger, OfUser(userId))
    else
      Listing(ledger, OfUser(userId))
  }

  /** `getBookTransactions`: one DTO per loan of that book and nothing else, in
      ascending id order. */
  function BookTransactions(ledger: seq<Transaction>, bookId: int): (r: seq<TransactionDto>)
    ensures forall d :: d in r <==> exists t :: t in ledger && t.bookId == bookId && d == ToDto(t)
    ensures IdsIncreasing(ledger) ==> DtoIdsIncreasing(r)
  {
    if IdsIncreasing(ledger) then
      ListingOrdered(ledger, OfBook(bookId));
      Listing(ledger, OfBook(bookId))
    else
      Listing(ledger, OfBook(bookId))
  }

  /** Issuing: one copy off the shelf, one more open loan for the user, and a new open
      loan in the ledger keep the counters in lockstep. */
  lemma IssueKeepsLockstep(books: map<int, Book>, users: map<int, User>, ledger: seq<Transaction>,
                           loan: Transaction)
    requires Lockstep(books, users, ledger)
    requires loan.bookId in books && loan.userId in users && loan.status == Issued
    requires books[loan.bookId].available > 0
    requires users[loan.userId].booksIssued.value < MAX_BOOKS_PER_USER
    ensures Lockstep(
      books[loan.bookId := books[loan.bookId].(available := Sub32(books[loan.bookId].available, 1))],
      users[loan.userId := users[loan.userId].(booksIssued := Some(Add32(users[loan.userId].booksIssued.value, 1)))],
      ledger + [loan])
  {
    forall k | k in books {
      OpenCountAppend(ledger, loan, OfBook(k));
    }
    forall k | k in users {
      OpenCountAppend(ledger, loan, OfUser(k));
    }
  }

  /** Returning an open loan: one copy back on the shelf, one open loan fewer for the
      user, and the loan closed keep the counters in lockstep; the lockstep also rules
      out any 32-bit wrap-around in the two counter updates. */
  lemma ReturnKeepsLockstep(books: map<int, Book>, users: map<int, User>, ledger: seq<Transaction>,
                            i: nat, today: int)
    requires Lockstep(books, users, ledger)
    requires i < |ledger| && ledger[i].status == Issued
    requires ledger[i].bookId in books && ledger[i].userId in users
    ensures var t := ledger[i];
      && books[t.bookId].available < MAX_INT
      && users[t.userId].booksIssued.value > 0
      && Lockstep(
           books[t.bookId := books[t.bookId].(available := Add32(books[t.bookId].available, 1))],
           users[t.userId := users[t.userId].(booksIssued := Some(Sub32(users[t.userId].booksIssued.value, 1)))],
           ledger[i := Closed(t, today)])
  {
    var t := ledger[i];
    OpenCountUpdate(ledger, i, Closed(t, today), OfBook(t.bookId));
    OpenCountUpdate(ledger, i, Closed(t, today), OfUser(t.userId));
    assert OpenCount(ledger, OfBook(t.bookId)) >= 1 && OpenCount(ledger, OfUser(t.userId)) >= 1;
    forall k | k in books {
      OpenCountUpdate(ledger, i, Closed(t, today), OfBook(k));
    }
    forall k | k in users {
      OpenCountUpdate(ledger, i, Closed(t, today), OfUser(k));
    }
  }

  /** `issueBook(userId, bookId)` on day `today`. The checks run in the source's order
      and all precede the writes, so a failure leaves the database as it was. The
      user's membership status is not consulted. */
  method IssueBook(db: Database, userId: int, bookId: int, today: int)
    returns (r: Result<TransactionDto, Error>)
    requires db.Valid()
    modifies db
    ensures db.Valid()
    ensures userId !in old(db.users) ==> r == Err(UserNotFound)
    ensures userId in old(db.users) && bookId !in old(db.books) ==> r == Err(BookNotFound)
    ensures userId in old(db.users) && bookId in old(db.books) && old(db.books[bookId].available) <= 0
      ==> r == Err(BookNotAvailable)
    ensures userId in old(db.users) && bookId in old(db.books) && old(db.books[bookId].available) > 0
      && old(db.users[userId].booksIssued) == None
      ==> r == Err(NullBooksIssued)
    ensures userId in old(db.users) && bookId in old(db.books) && old(db.books[bookId].available) > 0
      && old(db.users[userId].booksIssued).Some? && old(db.users[userId].booksIssued.value) >= MAX_BOOKS_PER_USER
      ==> r == Err(LoanLimitReached)
    ensures r.Ok? <==>
      && userId in old(db.users) && bookId in old(db.books) && old(db.books[bookId].available) > 0
      && old(db.users[userId].booksIssued).Some? && old(db.users[userId].booksIssued.value) < MAX_BOOKS_PER_USER
    ensures r.Err? ==> unchanged(db)
    ensures r.Ok? ==>
      && userId in old(db.users) && bookId in old(db.books)
      && old(db.books[bookId].available) > 0
      && old(db.users[userId].booksIssued).Some?
      && old(db.users[userId].booksIssued.value) < MAX_BOOKS_PER_USER
      && var loan := Transaction(|old(db.ledger)| + 1, userId, bookId,
                                 today, today + LOAN_PERIOD_DAYS, None, Issued, 0);
         && r == Ok(ToDto(loan))
         && db.ledger == old(db.ledger) + [loan]
         && db.books == old(db.books)[bookId :=
              old(db.books[bookId]).(available := old(db.books[bookId].available) - 1)]
         && db.users == old(db.users)[userId :=
              old(db.users[userId]).(booksIssued := Some(old(db.users[userId].booksIssued.value) + 1))]
         && db.nextBookId == old(db.nextBookId) && db.nextUserId == old(db.nextUserId)
    ensures r.Ok? ==> db.users[userId].booksIssued.value <= MAX_BOOKS_PER_USER
    ensures old(db.Consistent()) ==> db.Consistent()
  {
    if userId !in db.users {
      return Err(UserNotFound);
    }
    var user := db.users[userId];
    if bookId !in db.books {
      return Err(BookNotFound);
    }
    var book := db.books[bookId];
    if book.available <= 0 {
      return Err(BookNotAvailable);
    }
    if user.booksIssued.None? {
      return Err(NullBooksIssued);
    }
    if user.booksIssued.value >= MAX_BOOKS_PER_USER {
      return Err(LoanLimitReached);
    }
    var loan := Transaction(|db.ledger| + 1, userId, bookId, today, today + LOAN_PERIOD_DAYS, None, Issued, 0);
    if db.Consistent() {
      IssueKeepsLockstep(db.books, db.users, db.ledger, loan);
    }
    db.books := db.books[bookId := book.(available := Sub32(book.available, 1))];
    db.users := db.users[userId := user.(booksIssued := Some(Add32(user.booksIssued.value, 1)))];
    db.ledger := db.ledger + [loan];
    r := Ok(ToDto(loan));
  }

  /** `returnBook(transactionId)` on day `today`. A loan that is missing or already
      returned is refused with the database unchanged, so each loan is closed at most
      once. On success the loan records the return day and its fine, the book gains a
      copy and the user loses an open loan, computed in 32-bit arithmetic; under the
      lockstep invariant neither wraps. */
  method ReturnBook(db: Database, transactionId: int, today: int)
    returns (r: Result<TransactionDto, Error>)
    requires db.Valid()
    modifies db
    ensures db.Valid()
    ensures FindTransaction(old(db.ledger), transactionId) == None ==> r == Err(TransactionNotFound)
    ensures var found := FindTransaction(old(db.ledger), transactionId);
      found.Some? && found.value.status == Returned ==> r == Err(AlreadyReturned)
    ensures var found := FindTransaction(old(db.ledger), transactionId);
      found.Some? && found.value.status == Issued
      && (found.value.bookId !in old(db.books) || found.value.userId !in old(db.users))
      ==> r == Err(DanglingReference)
    ensures var found := FindTransaction(old(db.ledger), transactionId);
      found.Some? && found.value.status == Issued
      && found.value.bookId in old(db.books) && found.value.userId in old(db.users)
      && old(db.users[found.value.userId].booksIssued) == None
      ==> r == Err(NullBooksIssued)
    ensures var found := FindTransaction(old(db.ledger), transactionId);
      r.Ok? <==>
        && found.Some? && found.value.status == Issued
        && found.value.bookId in old(db.books) && found.value.userId in old(db.users)
        && old(db.users[found.value.userId].booksIssued).Some?
    ensures r.Err? ==> unchanged(db)
    ensures r.Ok? ==>
      && 1 <= transactionId <= |old(db.ledger)|
      && var t := old(db.ledger)[transactionId - 1];
         && t.status == Issued && t.bookId in old(db.books) && t.userId in old(db.users)
         && old(db.users[t.userId].booksIssued).Some?
         && var closed := t.(returnDate := Some(today), status := Returned, fine := Fine(t.dueDate, today));
            && r == Ok(ToDto(closed))
            && db.ledger == old(db.ledger)[transactionId - 1 := closed]
            && db.books == old(db.books)[t.bookId :=
                 old(db.books[t.bookId]).(available := Add32(old(db.books[t.bookId].available), 1))]
            && db.users == old(db.users)[t.userId :=
                 old(db.users[t.userId]).(booksIssued := Some(Sub32(old(db.users[t.userId].booksIssued.value), 1)))]
            && db.nextBookId == old(db.nextBookId) && db.nextUserId == old(db.nextUserId)
    ensures r.Ok? && old(db.Consistent()) ==>
      var t := old(db.ledger)[transactionId - 1];
      && db.books[t.bookId].available == old(db.books[t.bookId].available) + 1
      && db.users[t.userId].booksIssued.value == old(db.users[t.userId].booksIssued.value) - 1
    ensures old(db.Consistent()) ==> db.Consistent()
  {
    var found := FindTransaction(db.ledger, transactionId);
    if found.None? {
      return Err(TransactionNotFound);
    }
    var t := found.value;
    if t.status == Returned {
      return Err(AlreadyReturned);
    }
    if t.bookId !in db.books || t.userId !in db.users {
      return Err(DanglingReference);
    }
    var book, user := db.books[t.bookId], db.users[t.userId];
    if user.booksIssued.None? {
      return Err(NullBooksIssued);
    }
    var closed := Closed(t, today);
    if db.Consistent() {
      ReturnKeepsLockstep(db.books, db.users, db.ledger, transactionId - 1, today);
    }
    db.ledger := db.ledger[transactionId - 1 := closed];
    db.books := db.books[t.bookId := book.(available := Add32(book.available, 1))];
    db.users := db.users[t.userId := user.(booksIssued := Some(Sub32(user.booksIssued.value, 1)))];
    r := Ok(ToDto(closed));
  }
}
