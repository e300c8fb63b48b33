/** A client of the services that relies on their contracts alone: two copies of a
    book, three readers, a late return and a second return. */
module Scenarios {
  import opened Wrappers
  import opened Model
  import opened Store
  import opened BookService
  import opened UserService
  import opened TransactionService

  /** A fresh catalog with one title of two copies (book 1), no members and no loans. */
  method OneTitleOfTwoCopies() returns (db: Database)
    ensures fresh(db) && db.Valid() && db.Consistent()
    ensures db.books.Keys == {1} && db.books[1].available == 2 && db.books[1].quantity == 2
    ensures db.users == map[] && db.ledger == [] && db.nextUserId == 1
  {
    db := new Database();
    var book := CreateBook(db, BookDto(0, "Title", "Author", "Fiction", "978-0", 2, 0, 2020, ""));
  }

  /** The catalog of `OneTitleOfTwoCopies` and three new members (users 1 to 3). */
  method TwoCopiesThreeReadersSetup() returns (db: Database)
    ensures fresh(db) && db.Valid() && db.Consistent()
    ensures db.books.Keys == {1} && db.books[1].available == 2 && db.books[1].quantity == 2
    ensures db.users.Keys == {1, 2, 3}
    ensures forall k :: k in db.users ==> db.users[k].booksIssued == Some(0)
    ensures db.ledger == []
  {
    db := OneTitleOfTwoCopies();
    var readerA := CreateUser(db, UserDto(0, "A", "a@example.org", "1", "Student", "M-A", None, None, None), 100);
    assert db.users.Keys == {1} && db.users[1].membershipId == "M-A";
    assert !MembershipIdTaken(db.users, "M-B");
    var readerB := CreateUser(db, UserDto(0, "B", "b@example.org", "2", "Student", "M-B", None, None, None), 100);
    assert db.users.Keys == {1, 2} && db.users[2].membershipId == "M-B";
    assert !MembershipIdTaken(db.users, "M-C");
    var readerC := CreateUser(db, UserDto(0, "C", "c@example.org", "3", "Student", "M-C", None, None, None), 100);
  }

  /** Readers 1 and 2 borrow the two copies on day 100, reader 3 is refused, reader 1
      returns on day 120 (six days late) and a second return of that loan is refused. */
  method TwoCopiesThreeReaders()
    returns (third: Result<TransactionDto, Error>, back: Result<TransactionDto, Error>,
             again: Result<TransactionDto, Error>, shelf: int)
    ensures third == Err(BookNotAvailable)
    ensures back.Ok? && back.value.status == "RETURNED" && back.value.fine == 6
    ensures again == Err(AlreadyReturned)
    ensures shelf == 1
  {
    var db := TwoCopiesThreeReadersSetup();
    var first := IssueBook(db, 1, 1, 100);
    assert first.Ok? && db.books[1].available == 1 && |db.ledger| == 1;
    assert db.users[1].booksIssued == Some(1) && db.users[2].booksIssued == Some(0);
    var second := IssueBook(db, 2, 1, 100);
    assert second.Ok? && db.books[1].available == 0 && |db.ledger| == 2;
    assert db.ledger[0].status == Issued && db.ledger[0].dueDate == 114;
    assert db.users[1].booksIssued == Some(1);
    third := IssueBook(db, 3, 1, 100);
    back := ReturnBook(db, 1, 120);
    assert back.Ok? && db.books[1].available == 1;
    again := ReturnBook(db, 1, 121);
    shelf := db.books[1].available;
  }
}
