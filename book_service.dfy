/** Catalog maintenance: creating, revising, deleting and looking up books. */
module BookService {
  import opened Wrappers
  import opened JavaInt
  import opened Model
  import opened Store
  import opened SingleResult

  /** `convertToDto`: the nine fields, copied. */
  function ToDto(b: Book): (d: BookDto)
    ensures d.id == b.id && d.title == b.title && d.author == b.author && d.category == b.category
    ensures d.isbn == b.isbn && d.quantity == b.quantity && d.available == b.available
    ensures d.publishedYear == b.publishedYear && d.description == b.description
  {
    BookDto(b.id, b.title, b.author, b.category, b.isbn, b.quantity, b.available, b.publishedYear, b.description)
  }

  /** `convertToEntity`: converting back to a DTO gives the DTO unchanged. */
  function ToEntity(d: BookDto): (b: Book)
    ensures ToDto(b) == d
  {
    Book(d.id, d.title, d.author, d.category, d.isbn, d.quantity, d.available, d.publishedYear, d.description)
  }

  /** Converting a book to its DTO and back gives the book unchanged. */
  lemma EntityRoundTrip(b: Book)
    ensures ToEntity(ToDto(b)) == b
  {
  }

  /** The ISBN column. */
  function Isbn(b: Book): string { b.isbn }

  /** `existsByIsbn`: some catalog row carries the ISBN. */
  predicate IsbnTaken(books: map<int, Book>, isbn: string): (taken: bool)
    ensures taken <==> exists k :: k in books && books[k].isbn == isbn
  {
    Taken(books, Isbn, isbn)
  }

  /** No two catalog rows share an ISBN. */
  predicate IsbnsUnique(books: map<int, Book>)
  {
    forall j, k :: j in books && k in books && books[j].isbn == books[k].isbn ==> j == k
  }

  /** `getBookById`: the book's DTO when the id is present, empty otherwise. */
  function GetBookById(books: map<int, Book>, id: int): (r: Option<BookDto>)
    ensures r.Some? <==> id in books
    ensures r.Some? ==> ToEntity(r.value) == books[id]
  {
    if id in books then Some(ToDto(books[id])) else None
  }

  /** `getBookByIsbn`: `findByIsbn` mapped through `convertToDto`. Empty when no book
      has the ISBN, the DTO of the one book that has it, and a failure when several do. */
  function GetBookByIsbn(books: map<int, Book>, isbn: string): (r: Result<Option<BookDto>, Error>)
    ensures r == Ok(None) <==> !IsbnTaken(books, isbn)
    ensures forall k :: k in books && books[k].isbn == isbn && r.Ok? ==> r.value == Some(ToDto(books[k]))
    ensures r.Err? <==> exists j, k :: j in books && k in books && j != k && books[j].isbn == isbn && books[k].isbn == isbn
  {
    match FindBy(books, Isbn, isbn)
    case Ok(found) => Ok(if found.Some? then Some(ToDto(found.value)) else None)
    case Err(e) => Err(e)
  }

  /** Under unique ISBNs the ISBN lookup finds each stored book. */
  lemma IsbnLookupFinds(books: map<int, Book>, k: int)
    requires IsbnsUnique(books) && k in books
    ensures GetBookByIsbn(books, books[k].isbn) == Ok(Some(ToDto(books[k])))
  {
  }

  /** `updateBook`'s edit of the stored row: every DTO field except id and available
      replaces the stored one, and available moves by the change in quantity, in
      32-bit `int` arithmetic. */
  function Revised(b: Book, dto: BookDto): (r: Book)
    ensures r.id == b.id && r.title == dto.title && r.author == dto.author
    ensures r.category == dto.category && r.isbn == dto.isbn && r.quantity == dto.quantity
    ensures r.publishedYear == dto.publishedYear && r.description == dto.description
    ensures r.available == Wrap(b.available + (dto.quantity - b.quantity))
    ensures MIN_INT <= b.available + (dto.quantity - b.quantity) <= MAX_INT
      ==> r.available - r.quantity == b.available - b.quantity
  {
    AddOfWrap(b.available, dto.quantity - b.quantity);
    var quantityDifference := Sub32(dto.quantity, b.quantity);
    b.(available := Add32(b.available, quantityDifference),
       title := dto.title, author := dto.author, category := dto.category, isbn := dto.isbn,
       quantity := dto.quantity, publishedYear := dto.publishedYear, description := dto.description)
  }

  /** A revision keeps a book in lockstep with its `open` loans exactly when the new
      quantity minus those loans fits in an `int`. */
  lemma RevisedLockstepIff(b: Book, dto: BookDto, open: nat)
    requires b.available + open == b.quantity
    ensures Revised(b, dto).available + open == dto.quantity <==> MIN_INT <= dto.quantity - open
  {
    assert b.available + (dto.quantity - b.quantity) == dto.quantity - open;
    WrapFixesExactlyInt32(dto.quantity - open);
  }

  /** Shrinking a book's quantity below its open loans drives its available count
      negative: the update does not check it. */
  lemma RevisedCanGoNegative(b: Book, dto: BookDto, open: nat)
    requires b.available + open == b.quantity
    requires MIN_INT <= dto.quantity - open && dto.quantity < open
    ensures Revised(b, dto).available < 0
  {
    RevisedLockstepIff(b, dto, open);
  }

  /** A new book on which no loan is recorded, fully on the shelf, keeps the lockstep. */
  lemma NewBookKeepsLockstep(books: map<int, Book>, users: map<int, User>, ledger: seq<Transaction>, b: Book)
    requires Lockstep(books, users, ledger)
    requires forall i :: 0 <= i < |ledger| ==> ledger[i].bookId != b.id
    requires b.available == b.quantity
    ensures Lockstep(books[b.id := b], users, ledger)
  {
    OpenCountUninvolved(ledger, OfBook(b.id));
  }

  /** `createBook(dto)`: refused when the ISBN is already in the catalog; otherwise a new
      row with a fresh id and every copy available, whatever the DTO's id and available. */
  method CreateBook(db: Database, dto: BookDto) returns (r: Result<BookDto, Error>)
    requires db.Valid()
    modifies db
    ensures db.Valid()
    ensures IsbnTaken(old(db.books), dto.isbn) ==> r == Err(DuplicateIsbn(dto.isbn)) && unchanged(db)
    ensures !IsbnTaken(old(db.books), dto.isbn) ==>
      var book := ToEntity(dto).(id := old(db.nextBookId), available := dto.quantity);
      && old(db.nextBookId) !in old(db.books)
      && r == Ok(ToDto(book))
      && db.books == old(db.books)[book.id := book]
      && db.nextBookId == old(db.nextBookId) + 1
      && db.users == old(db.users) && db.ledger == old(db.ledger) && db.nextUserId == old(db.nextUserId)
    ensures old(IsbnsUnique(db.books)) ==> IsbnsUnique(db.books)
    ensures old(db.Consistent()) ==> db.Consistent()
  {
    if IsbnTaken(db.books, dto.isbn) {
      return Err(DuplicateIsbn(dto.isbn));
    }
    var book := ToEntity(dto);
    book := book.(available := book.quantity);
    book := book.(id := db.nextBookId);
    if db.Consistent() {
      NewBookKeepsLockstep(db.books, db.users, db.ledger, book);
    }
    db.books := db.books[book.id := book];
    db.nextBookId := db.nextBookId + 1;
    r := Ok(ToDto(book));
  }

  /** `updateBook(id, dto)`: refused for an unknown id; otherwise that row alone is
      revised. The lockstep survives exactly when the new quantity minus the book's
      open loans fits in an `int`. */
  method UpdateBook(db: Database, id: int, dto: BookDto) returns (r: Result<BookDto, Error>)
    requires db.Valid()
    modifies db
    ensures db.Valid()
    ensures id !in old(db.books) ==> r == Err(BookIdNotFound(id)) && unchanged(db)
    ensures id in old(db.books) ==>
      && r == Ok(ToDto(Revised(old(db.books[id]), dto)))
      && db.books == old(db.books)[id := Revised(old(db.books[id]), dto)]
      && db.users == old(db.users) && db.ledger == old(db.ledger)
      && db.nextBookId == old(db.nextBookId) && db.nextUserId == old(db.nextUserId)
    ensures old(db.Consistent()) && id in old(db.books) ==>
      (db.Consistent() <==> MIN_INT <= dto.quantity - OpenCount(old(db.ledger), OfBook(id)))
  {
    if id !in db.books {
      return Err(BookIdNotFound(id));
    }
    var revised := Revised(db.books[id], dto);
    if db.Consistent() {
      RevisedLockstepIff(db.books[id], dto, OpenCount(db.ledger, OfBook(id)));
    }
    db.books := db.books[id := revised];
    r := Ok(ToDto(revised));
  }

  /** `deleteBook(id)`: afterwards no row has that id and every other row is as before. */
  method DeleteBook(db: Database, id: int)
    requires db.Valid()
    modifies db
    ensures db.Valid()
    ensures db.books == old(db.books) - {id}
    ensures db.users == old(db.users) && db.ledger == old(db.ledger)
    ensures db.nextBookId == old(db.nextBookId) && db.nextUserId == old(db.nextUserId)
    ensures old(db.Consistent()) ==> db.Consistent()
  {
    db.books := db.books - {id};
  }
}
