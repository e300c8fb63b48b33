# Book Beacon lending, catalog and membership model

This project models the Java backend of Book Beacon, a library administration
system. It covers the three Spring services that hold the business rules:

- **TransactionService**, the lending engine. `issueBook` and `returnBook` move a loan
  from ISSUED to RETURNED. They keep `Book.available` and `User.booksIssued` in step
  with the open loans, cap a member at three open loans, and charge $1 for each day
  past the due date. The service also lists the loans of a user or of a book.
- **BookService**, the catalog. Books are created with every copy on the shelf.
  Updates shift `available` by the change in `quantity`. Books can be deleted and
  looked up by id or ISBN.
- **UserService**, the membership. Users are created with defaults filled in. Updates
  overwrite every field. Deletion fails for an unknown id. Users can be looked up by
  id or membership id.

The database is one object, `Store.Database`. It holds a book table and a user table,
each a `map` from id to row, and an append-only loan ledger, a `seq` in which loan
`i` has id `i + 1`. Two counters stand in for the identity columns of new book and
user rows. Repository calls (`findById`, `save`, `existsBy…`, `deleteById`) become
map lookups and updates. Each service operation that writes is a method over the
database. Its contract states the error it raises, in the order the code checks, and
the whole new state. The pure parts are functions: conversions, lookups, the fine and
the listings. Spring Data's derived queries `existsByX` and `findByX` on a string column
are defined once, generically, in `SingleResult`, and the ISBN and membership-id
lookups instantiate them.

`Store.Lockstep` is the counter invariant. For every book, `available` plus its number
of open loans equals `quantity`. For every user, `booksIssued` equals their number of
open loans. Issue, return, book creation and deletion, and user deletion preserve it.
A book update preserves it exactly when the new quantity minus the open loans fits in
an `int`. User creation preserves it exactly when the loan count starts at 0. A user
update preserves it exactly when the DTO carries the user's true open-loan count.

Some inputs become parameters or model-level values:

- `LocalDate.now()` becomes a parameter `today`, and dates are day numbers.
- The `BigDecimal` fine is a whole number of dollars.
- Java `int` arithmetic on the counters wraps at 32 bits, and the model says so
  explicitly (`JavaInt`). Under the lockstep invariant, issue and return never wrap.

Some checks a library system might be expected to make are absent from the code, and
the model does not add them:

- The code makes no `Active`-status check on issue.
- The code makes no over-release check on return: `available` may exceed `quantity`
  when the counters are already out of step.
- The code stores no OVERDUE status.
- The code does not order the loan listings by issue date.

## Model

| member | source | states |
|---|---|---|
| TransactionService.IssueBook | book-beacon-backend/src/main/java/com/example/bookbeacon/service/TransactionService.java:31-65 | Errors in the code's order: user missing, then book missing, then no copy available, then a null loan count, then three or more loans open. Any error leaves the database unchanged. Success happens exactly when every check passes. A success takes one copy off that book, adds one loan to that user and appends one ISSUED loan with fine 0, issue date today, due date today + 14 and no return date. Nothing else changes. The loan count after a success is at most 3, and lockstep is preserved. |
| TransactionService.ReturnBook | book-beacon-backend/src/main/java/com/example/bookbeacon/service/TransactionService.java:67-101 | Errors: unknown id, then already returned, then a missing book or user row, then a null loan count. Any error leaves the database unchanged, so a loan is closed at most once. Success happens exactly when none of these apply. A success sets the return date to today, the status to RETURNED and the fine for that day. It adds a copy back with 32-bit `+ 1` and takes a loan off the user with 32-bit `- 1`. Nothing else changes. Under lockstep both moves are exact, and lockstep is preserved. |
| TransactionService.IssueKeepsLockstep | book-beacon-backend/src/main/java/com/example/bookbeacon/service/TransactionService.java:47-63 | Taking one copy off the shelf, adding one loan to the user and appending an open loan keeps the counters in lockstep. |
| TransactionService.ReturnKeepsLockstep | book-beacon-backend/src/main/java/com/example/bookbeacon/service/TransactionService.java:87-99 | Under lockstep, a returned book's shelf count is below the `int` maximum and its user's count is positive, so neither counter update wraps. The return keeps the lockstep. |
| LoanPolicy.Fine | book-beacon-backend/src/main/java/com/example/bookbeacon/service/TransactionService.java:79-85 | The fine is 0 exactly when the return day is on or before the due day. Otherwise it is $1 for each day late. |
| LoanPolicy.FineMonotone | book-beacon-backend/src/main/java/com/example/bookbeacon/service/TransactionService.java:80-85 | A later return never gets a smaller fine. |
| LoanPolicy.FineGrowsByRate | book-beacon-backend/src/main/java/com/example/bookbeacon/service/TransactionService.java:81-84 | From the due day on, each extra day adds exactly the daily rate. |
| TransactionService.FindTransaction | book-beacon-backend/src/main/java/com/example/bookbeacon/service/TransactionService.java:69-70 | `findById` on the ledger. Any loan it finds is in the ledger. When each loan's id is its ledger position plus one, as the database keeps it, it finds a loan exactly when a loan with that id exists, and the loan it finds has that id. |
| TransactionService.Closed | book-beacon-backend/src/main/java/com/example/bookbeacon/service/TransactionService.java:87-89 | The returned loan is RETURNED and dated today. It keeps its ids and dates, and it is still a well-formed loan: its fine is the fine for its return date. |
| TransactionService.ToDto | book-beacon-backend/src/main/java/com/example/bookbeacon/service/TransactionService.java:115-124 | The DTO carries the loan's id, user id, book id, dates and fine. Its status string is "ISSUED" exactly when the loan is open and "RETURNED" exactly when it is returned. |
| Model.StatusName | book-beacon-backend/src/main/java/com/example/bookbeacon/service/TransactionService.java:52-88 | The status column is "ISSUED" exactly for open loans, as set at issue, and "RETURNED" exactly for returned loans, as set at return and tested by `"RETURNED".equals`. |
| TransactionService.Listing | book-beacon-backend/src/main/java/com/example/bookbeacon/service/TransactionService.java:103-113 | Each listed DTO is the DTO of a ledger loan involving the party, and every such loan's DTO is listed. |
| TransactionService.ListingOrdered | book-beacon-backend/src/main/java/com/example/bookbeacon/service/TransactionService.java:103-113 | A listing of a ledger in ascending id order is in ascending id order, so no loan is listed twice. |
| TransactionService.UserTransactions | book-beacon-backend/src/main/java/com/example/bookbeacon/service/TransactionService.java:103-107 | A DTO is listed exactly when it is the DTO of a loan of that user. The list is in ascending id order when the ledger is. |
| TransactionService.BookTransactions | book-beacon-backend/src/main/java/com/example/bookbeacon/service/TransactionService.java:109-113 | A DTO is listed exactly when it is the DTO of a loan of that book. The list is in ascending id order when the ledger is. |
| Store.LockstepBounds | book-beacon-backend/src/main/java/com/example/bookbeacon/service/TransactionService.java:56-61 | Under lockstep, no book has more copies on the shelf than it owns. Its shelf count is non-negative exactly when its open loans fit within its quantity. |
| Store.OpenCountUpdate | book-beacon-backend/src/main/java/com/example/bookbeacon/service/TransactionService.java:87-99 | Rewriting one ledger row changes a party's open-loan count by that row's change of openness. |
| BookService.CreateBook | book-beacon-backend/src/main/java/com/example/bookbeacon/service/BookService.java:33-40 | An ISBN already in the catalog gives the duplicate-ISBN error and stores nothing. Otherwise exactly one new row is stored, with a fresh id, the DTO's fields and `available == quantity`, whatever the DTO's available. ISBN uniqueness and lockstep are preserved. |
| BookService.UpdateBook | book-beacon-backend/src/main/java/com/example/bookbeacon/service/BookService.java:42-57 | An unknown id gives the not-found error and changes nothing. Otherwise only that row is replaced by its revision. Lockstep survives exactly when the new quantity minus the book's open loans fits in an `int`. |
| BookService.DeleteBook | book-beacon-backend/src/main/java/com/example/bookbeacon/service/BookService.java:59-61 | Afterwards no book has that id, and every other book, user and loan is unchanged. Lockstep is preserved. |
| BookService.Revised | book-beacon-backend/src/main/java/com/example/bookbeacon/service/BookService.java:44-55 | Title, author, category, ISBN, quantity, published year and description come from the DTO, and the id is kept. `available` becomes the 32-bit wrap of `available + (new quantity - old quantity)`, so `available - quantity` is unchanged whenever that sum fits in an `int`. |
| BookService.RevisedLockstepIff | book-beacon-backend/src/main/java/com/example/bookbeacon/service/BookService.java:45-46 | For a book in lockstep with a number of open loans, the revision stays in lockstep exactly when the new quantity minus those loans is at least the `int` minimum. |
| BookService.RevisedCanGoNegative | book-beacon-backend/src/main/java/com/example/bookbeacon/service/BookService.java:45-46 | For a book in lockstep, cutting the quantity below the open loans makes `available` negative, provided the new quantity minus the open loans is at least the `int` minimum. Below that, the 32-bit sum wraps. |
| BookService.NewBookKeepsLockstep | book-beacon-backend/src/main/java/com/example/bookbeacon/service/BookService.java:37-39 | A new row that no loan refers to, with every copy available, keeps the lockstep. |
| BookService.GetBookById | book-beacon-backend/src/main/java/com/example/bookbeacon/service/BookService.java:25-27 | There is a result exactly when the id is present, and converting it back gives the stored row. |
| BookService.GetBookByIsbn | book-beacon-backend/src/main/java/com/example/bookbeacon/service/BookService.java:29-31 | The result is empty exactly when no book has the ISBN. It fails exactly when two rows share the ISBN. Otherwise it is the DTO of the one matching book. |
| BookService.IsbnLookupFinds | book-beacon-backend/src/main/java/com/example/bookbeacon/service/BookService.java:29-31 | With unique ISBNs, looking up a stored book's ISBN returns that book. |
| BookService.ToEntity | book-beacon-backend/src/main/java/com/example/bookbeacon/service/BookService.java:77-89 | Converting a DTO to an entity and back gives the DTO, with all nine fields equal. |
| BookService.EntityRoundTrip | book-beacon-backend/src/main/java/com/example/bookbeacon/service/BookService.java:63-89 | Converting a book to a DTO and back gives the book, with all nine fields equal. |
| UserService.CreateUser | book-beacon-backend/src/main/java/com/example/bookbeacon/service/UserService.java:39-55 | A registered membership id gives the duplicate error and stores nothing. Otherwise exactly one new row is stored, with a fresh id, the DTO's fields and the defaults. Membership-id uniqueness is preserved. Lockstep survives exactly when the DTO's loan count is null or 0. |
| UserService.UpdateUser | book-beacon-backend/src/main/java/com/example/bookbeacon/service/UserService.java:57-72 | An unknown id gives the not-found error and changes nothing. Otherwise only that row is overwritten. Lockstep survives exactly when the DTO's loan count equals the user's open loans. |
| UserService.DeleteUser | book-beacon-backend/src/main/java/com/example/bookbeacon/service/UserService.java:74-80 | An unknown id gives the not-found error and changes nothing. Otherwise exactly that user is removed and nothing else changes. Lockstep is preserved. |
| UserService.WithDefaults | book-beacon-backend/src/main/java/com/example/bookbeacon/service/UserService.java:45-53 | Afterwards the join date, a non-empty status and the loan count are all present. A value that was present is kept. A missing join date becomes today, a null or empty status becomes "Active", and a null loan count becomes 0. No other field changes. |
| UserService.WithDefaultsIdempotent | book-beacon-backend/src/main/java/com/example/bookbeacon/service/UserService.java:45-53 | Filling defaults twice gives the same row as filling them once. |
| UserService.Overwritten | book-beacon-backend/src/main/java/com/example/bookbeacon/service/UserService.java:62-69 | The overwritten row's DTO is the input DTO with the stored id: all eight other fields are taken from the DTO, nulls included. |
| UserService.NewUserLockstepIff | book-beacon-backend/src/main/java/com/example/bookbeacon/service/UserService.java:51-53 | A new user that no loan refers to keeps the lockstep exactly when its loan count is 0. |
| UserService.OverwriteLockstepIff | book-beacon-backend/src/main/java/com/example/bookbeacon/service/UserService.java:69-69 | After an overwrite, lockstep holds exactly when the new loan count equals the user's open loans. Any other value breaks it. |
| UserService.GetUserById | book-beacon-backend/src/main/java/com/example/bookbeacon/service/UserService.java:31-33 | There is a result exactly when the id is present, and converting it back gives the stored row. |
| UserService.GetUserByMembershipId | book-beacon-backend/src/main/java/com/example/bookbeacon/service/UserService.java:35-37 | The result is empty exactly when no user has the membership id. It fails exactly when two rows share it. Otherwise it is the DTO of the one matching user. |
| UserService.MembershipLookupFinds | book-beacon-backend/src/main/java/com/example/bookbeacon/service/UserService.java:35-37 | With unique membership ids, looking up a stored user's membership id returns that user. |
| UserService.ToEntity | book-beacon-backend/src/main/java/com/example/bookbeacon/service/UserService.java:96-108 | Converting a DTO to an entity and back gives the DTO, with all nine fields equal. |
| UserService.EntityRoundTrip | book-beacon-backend/src/main/java/com/example/bookbeacon/service/UserService.java:82-108 | Converting a user to a DTO and back gives the user, with all nine fields equal. |
| JavaInt.Add32 | book-beacon-backend/src/main/java/com/example/bookbeacon/service/TransactionService.java:92-92 | Java `int` `+`: the exact sum when it fits in 32 bits. Otherwise the sum is shifted by 2^32 into range, down on overflow and up on underflow. |
| JavaInt.Sub32 | book-beacon-backend/src/main/java/com/example/bookbeacon/service/BookService.java:45-45 | Java `int` `-`: the exact difference when it fits in 32 bits. Otherwise the difference is shifted by 2^32 into range, down on overflow and up on underflow. |
| SingleResult.Taken | book-beacon-backend/src/main/java/com/example/bookbeacon/repository/UserRepository.java:12-12 | A derived `existsBy…` query: true exactly when some row's column holds the key. |
| SingleResult.FindBy | book-beacon-backend/src/main/java/com/example/bookbeacon/repository/UserRepository.java:11-11 | A derived single-result `findBy…` query: empty exactly when no row matches, a failure exactly when two distinct rows match, and otherwise the one matching row. |
| BookService.IsbnTaken | book-beacon-backend/src/main/java/com/example/bookbeacon/service/BookService.java:34-34 | `existsByIsbn` is true exactly when some catalog row carries the ISBN. |
| BookService.ToDto | book-beacon-backend/src/main/java/com/example/bookbeacon/service/BookService.java:63-75 | The DTO carries each of the book's nine fields unchanged. |
| UserService.MembershipIdTaken | book-beacon-backend/src/main/java/com/example/bookbeacon/service/UserService.java:41-41 | `existsByMembershipId` is true exactly when some member row carries the membership id. |
| UserService.ToDto | book-beacon-backend/src/main/java/com/example/bookbeacon/service/UserService.java:82-94 | The DTO carries each of the user's nine fields unchanged, nulls included. |
| Store.Database.constructor | book-beacon-backend/src/main/java/com/example/bookbeacon/service/TransactionService.java:22-29 | The three repositories start empty: no books, no users and no loans, with both identity counters at 1. That state satisfies the row invariants and the lockstep. |
| Scenarios.TwoCopiesThreeReaders | book-beacon-backend/src/main/java/com/example/bookbeacon/service/TransactionService.java:31-101 | Two copies and three readers: the third issue fails for lack of a copy. A return 20 days after issue is RETURNED with a $6 fine. A second return of the same loan fails as already returned. One copy is back on the shelf. |

## Left out

- Concurrency: `@Transactional` is reduced to this. Each call runs alone and is atomic, and a failing call leaves the state unchanged. There are no locks, no interleavings and no races.
- HTTP controllers, the React pages, the HTTP client and the static scripts are view, transport and error-to-status plumbing. They are not part of this model.
- The TransactionDTO display fields `userName`, `bookTitle` and `bookIsbn` are not modelled, and neither are IssueRequestDTO and ReturnRequestDTO. No modelled code path needs them.
- `getAllBooks` and `getAllUsers` are not modelled. They return whole tables in the database's own order, which the model does not fix.
- Database constraints are not modelled. This covers the unique indexes on `isbn`, `email` and `membershipId` and the foreign keys from loans to books and users. An update may therefore create a duplicate ISBN or membership id, and the single-result lookups then fail with `NonUniqueResult`, as Spring's single-result query does. A delete of a row that loans refer to succeeds, and a later return of such a loan fails with `DanglingReference`, where the ORM would fail to load the row.
- The id in the DTO given to `createBook` or `createUser` is ignored. The new row gets the next identity value. What JPA's merge would do with a caller-chosen id is not modelled.
- Null values are modelled only for the three user fields the code tests for null: `joinDate`, `status` and `booksIssued`. `updateUser` may set these back to null. Unboxing a null loan count raises `NullBooksIssued`. The other columns may also be null in the source: a new row has a null id, and the frontend sends a null phone or published year. The services copy such nulls through their setters and converters without raising, and `createBook` with a null quantity stores a null `available`. The model's non-null field types cannot represent these values. The only nulls that would raise are a null id passed to a repository lookup or delete, and a null count unboxed in arithmetic or a comparison (BookService.java:45, TransactionService.java:39). Neither is modelled.
- Error messages are constructors of `Model.Error`, not strings. The id embedded in the "not found with id" messages is a constructor argument. The distinction between IllegalArgumentException and RuntimeException is not kept.
- Dates are unbounded day numbers. `LocalDate`'s range limit is not modelled. The fine is exact dollars, not a `BigDecimal` with a scale.
- The listings keep ledger order, which is ascending id. The repository queries have no ORDER BY, so the database's actual order is not fixed by the code.
- The clock is read once per call in the model: `today` is both the issue date and the base of the due date, and on return it is the fine's day and the return date. The source reads `LocalDate.now()` twice in `issueBook` (TransactionService.java:50-51) and three times in `returnBook` (81, 83, 87). A call that runs across midnight could therefore store a due date 15 days after the issue date, or a fine that disagrees with the stored return date. That case is not modelled, and the loan well-formedness in `Store.Database.Valid` holds only under the single reading.
