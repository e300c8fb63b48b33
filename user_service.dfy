/** Membership maintenance: creating, overwriting, deleting and looking up users. */
module UserService {
  import opened Wrappers
  import opened JavaInt
  import opened Model
  import opened Store
  import opened SingleResult

  /** `convertToDto`: the nine fields, copied. */
  function ToDto(u: User): (d: UserDto)
    ensures d.id == u.id && d.name == u.name && d.email == u.email && d.phone == u.phone
    ensures d.role == u.role && d.membershipId == u.membershipId && d.joinDate == u.joinDate
    ensures d.status == u.status && d.booksIssued == u.booksIssued
  {
    UserDto(u.id, u.name, u.email, u.phone, u.role, u.membershipId, u.joinDate, u.status, u.booksIssued)
  }

  /** `convertToEntity`: converting back to a DTO gives the DTO unchanged. */
  function ToEntity(d: UserDto): (u: User)
    ensures ToDto(u) == d
  {
    User(d.id, d.name, d.email, d.phone, d.role, d.membershipId, d.joinDate, d.status, d.booksIssued)
  }

  /** Converting a user to its DTO and back gives the user unchanged. */
  lemma EntityRoundTrip(u: User)
    ensures ToEntity(ToDto(u)) == u
  {
  }

  /** The membership id column. */
  function MembershipId(u: User): string { u.membershipId }

  /** `existsByMembershipId`: some member row carries the membership id. */
  predicate MembershipIdTaken(users: map<int, User>, membershipId: string): (taken: bool)
    ensures taken <==> exists k :: k in users && users[k].membershipId == membershipId
  {
    Taken(users, MembershipId, membershipId)
  }

  /** No two member rows share a membership id. */
  predicate MembershipIdsUnique(users: map<int, User>)
  {
    forall j, k :: j in users && k in users && users[j].membershipId == users[k].membershipId ==> j == k
  }

  /** `getUserById`: the user's DTO when the id is present, empty otherwise. */
  function GetUserById(users: map<int, User>, id: int): (r: Option<UserDto>)
    ensures r.Some? <==> id in users
    ensures r.Some? ==> ToEntity(r.value) == users[id]
  {
    if id in users then Some(ToDto(users[id])) else None
  }

  /** `getUserByMembershipId`: `findByMembershipId` mapped through `convertToDto`.
      Empty when no user has the membership id, the DTO of the one user that has it,
      and a failure when several do. */
  function GetUserByMembershipId(users: map<int, User>, membershipId: string): (r: Result<Option<UserDto>, Error>)
    ensures r == Ok(None) <==> !MembershipIdTaken(users, membershipId)
    ensures forall k ::
      k in users && users[k].membershipId == membershipId && r.Ok? ==> r.value == Some(ToDto(users[k]))
    ensures r.Err? <==> exists j, k ::
      j in users && k in users && j != k && users[j].membershipId == membershipId && users[k].membershipId == membershipId
  {
    match FindBy(users, MembershipId, membershipId)
    case Ok(found) => Ok(if found.Some? then Some(ToDto(found.value)) else None)
    case Err(e) => Err(e)
  }

  /** Under unique membership ids the lookup finds each stored user. */
  lemma MembershipLookupFinds(users: map<int, User>, k: int)
    requires MembershipIdsUnique(users) && k in users
    ensures GetUserByMembershipId(users, users[k].membershipId) == Ok(Some(ToDto(users[k])))
  {
  }

  /** The defaults `createUser` fills in: a missing join date becomes `today`, a missing
      or empty status becomes "Active", a missing loan count becomes 0; a value that is
      present is kept, and no other field changes. */
  function WithDefaults(u: User, today: int): (r: User)
    ensures r.joinDate.Some? && r.status.Some? && r.status.value != "" && r.booksIssued.Some?
    ensures u.joinDate.Some? ==> r.joinDate == u.joinDate
    ensures u.joinDate.None? ==> r.joinDate == Some(today)
    ensures u.status.Some? && u.status.value != "" ==> r.status == u.status
    ensures u.status == None || u.status == Some("") ==> r.status == Some("Active")
    ensures u.booksIssued.Some? ==> r.booksIssued == u.booksIssued
    ensures u.booksIssued.None? ==> r.booksIssued == Some(0)
    ensures r.(joinDate := u.joinDate, status := u.status, booksIssued := u.booksIssued) == u
  {
    var dated := if u.joinDate == None then u.(joinDate := Some(today)) else u;
    var active := if dated.status == None || dated.status.value == "" then dated.(status := Some("Active")) else dated;
    if active.booksIssued == None then active.(booksIssued := Some(0)) else active
  }

  /** Filling in defaults a second time changes nothing. */
  lemma WithDefaultsIdempotent(u: User, today: int, later: int)
    ensures WithDefaults(WithDefaults(u, today), later) == WithDefaults(u, today)
  {
  }

  /** `updateUser`'s edit of the stored row: every DTO field but the id overwrites the
      stored one, nulls and the loan count included. */
  function Overwritten(u: User, dto: UserDto): (r: User)
    ensures ToDto(r) == dto.(id := u.id)
  {
    u.(name := dto.name, email := dto.email, phone := dto.phone, role := dto.role,
       membershipId := dto.membershipId, joinDate := dto.joinDate, status := dto.status,
       booksIssued := dto.booksIssued)
  }

  /** A new user on whom no loan is recorded keeps the lockstep exactly when it starts
      with a loan count of 0. */
  lemma NewUserLockstepIff(books: map<int, Book>, users: map<int, User>, ledger: seq<Transaction>, u: User)
    requires Lockstep(books, users, ledger)
    requires forall i :: 0 <= i < |ledger| ==> ledger[i].userId != u.id
    ensures Lockstep(books, users[u.id := u], ledger) <==> u.booksIssued == Some(0)
  {
    OpenCountUninvolved(ledger, OfUser(u.id));
  }

  /** Overwriting a user keeps the lockstep exactly when the new loan count is that
      user's number of open loans: any other value breaks it. */
  lemma OverwriteLockstepIff(books: map<int, Book>, users: map<int, User>, ledger: seq<Transaction>,
                             id: int, dto: UserDto)
    requires Lockstep(books, users, ledger) && id in users
    ensures Lockstep(books, users[id := Overwritten(users[id], dto)], ledger)
        <==> dto.booksIssued == Some(OpenCount(ledger, OfUser(id)))
  {
  }

  /** `createUser(dto)` on day `today`: refused when the membership id is already
      registered; otherwise a new row with a fresh id, the DTO's fields and the defaults. */
  method CreateUser(db: Database, dto: UserDto, today: int) returns (r: Result<UserDto, Error>)
    requires db.Valid()
    modifies db
    ensures db.Valid()
    ensures MembershipIdTaken(old(db.users), dto.membershipId)
      ==> r == Err(DuplicateMembershipId(dto.membershipId)) && unchanged(db)
    ensures !MembershipIdTaken(old(db.users), dto.membershipId) ==>
      var user := WithDefaults(ToEntity(dto), today).(id := old(db.nextUserId));
      && old(db.nextUserId) !in old(db.users)
      && r == Ok(ToDto(user))
      && db.users == old(db.users)[user.id := user]
      && db.nextUserId == old(db.nextUserId) + 1
      && db.books == old(db.books) && db.ledger == old(db.ledger) && db.nextBookId == old(db.nextBookId)
    ensures old(MembershipIdsUnique(db.users)) ==> MembershipIdsUnique(db.users)
    ensures old(db.Consistent()) && r.Ok? ==>
      (db.Consistent() <==> dto.booksIssued == None || dto.booksIssued == Some(0))
  {
    if MembershipIdTaken(db.users, dto.membershipId) {
      return Err(DuplicateMembershipId(dto.membershipId));
    }
    var user := ToEntity(dto);
    user := WithDefaults(user, today);
    user := user.(id := db.nextUserId);
    if db.Consistent() {
      NewUserLockstepIff(db.books, db.users, db.ledger, user);
    }
    db.users := db.users[user.id := user];
    db.nextUserId := db.nextUserId + 1;
    r := Ok(ToDto(user));
  }

  /** `updateUser(id, dto)`: refused for an unknown id; otherwise that row alone is
      overwritten. No membership-id uniqueness or loan-count check is made, so the
      lockstep survives only when the DTO carries the right loan count. */
  method UpdateUser(db: Database, id: int, dto: UserDto) returns (r: Result<UserDto, Error>)
    requires db.Valid()
    modifies db
    ensures db.Valid()
    ensures id !in old(db.users) ==> r == Err(UserIdNotFound(id)) && unchanged(db)
    ensures id in old(db.users) ==>
      && r == Ok(ToDto(Overwritten(old(db.users[id]), dto)))
      && db.users == old(db.users)[id := Overwritten(old(db.users[id]), dto)]
      && db.books == old(db.books) && db.ledger == old(db.ledger)
      && db.nextBookId == old(db.nextBookId) && db.nextUserId == old(db.nextUserId)
    ensures old(db.Consistent()) && id in old(db.users) ==>
      (db.Consistent() <==> dto.booksIssued == Some(OpenCount(old(db.ledger), OfUser(id))))
  {
    if id !in db.users {
      return Err(UserIdNotFound(id));
    }
    var user := Overwritten(db.users[id], dto);
    if db.Consistent() {
      OverwriteLockstepIff(db.books, db.users, db.ledger, id, dto);
    }
    db.users := db.users[id := user];
    r := Ok(ToDto(user));
  }

  /** `deleteUser(id)`: refused for an unknown id; otherwise exactly that row is removed. */
  method DeleteUser(db: Database, id: int) returns (r: Result<(), Error>)
    requires db.Valid()
    modifies db
    ensures db.Valid()
    ensures id !in old(db.users) ==> r == Err(UserIdNotFound(id)) && unchanged(db)
    ensures id in old(db.users) ==>
      && r == Ok(())
      && db.users == old(db.users) - {id}
      && db.books == old(db.books) && db.ledger == old(db.ledger)
      && db.nextBookId == old(db.nextBookId) && db.nextUserId == old(db.nextUserId)
    ensures old(db.Consistent()) ==> db.Consistent()
  {
    if id !in db.users {
      return Err(UserIdNotFound(id));
    }
    db.users := db.users - {id};
    r := Ok(());
  }
}
