/** The three persisted entities (books, users, transactions), the DTOs the services
    return, and the failures the services raise. Dates are day numbers. */
module Model {
  import opened Wrappers
  import opened JavaInt

  /** A catalog row. `available` copies are on the shelf out of `quantity` owned. */
  datatype Book = Book(
    id: int,
    title: string,
    author: string,
    category: string,
    isbn: string,
    quantity: Int32,
    available: Int32,
    publishedYear: Int32,
    description: string)

  /** A member row. The three optional fields are the ones the service tests for null. */
  datatype User = User(
    id: int,
    name: string,
    email: string,
    phone: string,
    role: string,
    membershipId: string,
    joinDate: Option<int>,
    status: Option<string>,
    booksIssued: Option<Int32>)

  /** The two statuses the lending service ever writes. */
  datatype LoanStatus = Issued | Returned

  /** A loan row; `userId` and `bookId` are the join columns to the user and book rows. */
  datatype Transaction = Transaction(
    id: int,
    userId: int,
    bookId: int,
    issueDate: int,
    dueDate: int,
    returnDate: Option<int>,
    status: LoanStatus,
    fine: int)

  datatype BookDto = BookDto(
    id: int,
    title: string,
    author: string,
    category: string,
    isbn: string,
    quantity: Int32,
    available: Int32,
    publishedYear: Int32,
    description: string)

  datatype UserDto = UserDto(
    id: int,
    name: string,
    email: string,
    phone: string,
    role: string,
    membershipId: string,
    joinDate: Option<int>,
    status: Option<string>,
    booksIssued: Option<Int32>)

  datatype TransactionDto = TransactionDto(
    id: int,
    userId: int,
    bookId: int,
    issueDate: int,
    dueDate: int,
    returnDate: Option<int>,
    status: string,
    fine: int)

  /** The exceptions the services throw, one constructor per distinct cause. */
  datatype Error =
    | UserNotFound                       // "User not found"
    | BookNotFound                       // "Book not found"
    | BookNotAvailable                   // "Book is not available"
    | LoanLimitReached                   // "User has reached maximum book limit"
    | TransactionNotFound                // "Transaction not found"
    | AlreadyReturned                    // "Book already returned"
    | NullBooksIssued                    // unboxing a null `booksIssued`
    | DanglingReference                  // a loan whose book or user row is gone
    | DuplicateIsbn(isbn: string)        // IllegalArgumentException on create
    | DuplicateMembershipId(membershipId: string)
    | BookIdNotFound(bookId: int)        // "Book not found with id …"
    | UserIdNotFound(userId: int)        // "User not found with id …"
    | NonUniqueResult(count: nat)        // single-result query matched several rows

  /** The status column as the transaction DTO carries it. */
  function StatusName(s: LoanStatus): (name: string)
    ensures name == "RETURNED" <==> s == Returned
    ensures name == "ISSUED" <==> s == Issued
  {
    match s
    case Issued => "ISSUED"
    case Returned => "RETURNED"
  }
}
