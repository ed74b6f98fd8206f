/** Properties that relate several operations of `UserService`: the
    lifecycle of one account from creation to soft deletion. */
module ServiceProperties {
  import opened Wrappers
  import opened UserEntity
  import opened Errors
  import opened Credentials
  import opened UserStore
  import opened Ordering
  import opened CreateUserInput
  import opened UpdateUserInput
  import opened LoginUserInput
  import opened UserService

  /** A created account can log in with its password, and the login returns
      the new row without its password, role `invite`, offline. Any other
      password is refused as invalid credentials. */
  lemma CreateThenLogin(db: Db, dto: CreateUserDto, now: Time, other: string)
    requires Valid(db)
    requires CreateUser(db, dto, now, None).Success?
    requires other != dto.password
    ensures var db' := CreateUser(db, dto, now, None).value.0;
      && var r := Login(db', LoginUserDto(dto.username, dto.password), None);
      && r.Success?
      && r.value == StripPassword(db'.rows[db.autoIncrement])
      && r.value.rol == Invite && !r.value.online
      && Login(db', LoginUserDto(dto.username, other), None)
         == Failure(RpcError(InvalidCredentials, 400))
  {
  }

  /** Creating a second account with the username or the email of an
      existing one fails as "already exists", status 400. */
  lemma DuplicateCreateFails(db: Db, first: CreateUserDto, second: CreateUserDto, t1: Time, t2: Time)
    requires Valid(db)
    requires CreateUser(db, first, t1, None).Success?
    requires second.username == first.username || second.email == first.email
    ensures CreateUser(CreateUser(db, first, t1, None).value.0, second, t2, None)
         == Failure(RpcError(AlreadyExists, 400))
  {
    var db' := CreateUser(db, first, t1, None).value.0;
    assert !Available(db', second.username, second.email) by {
      assert db.autoIncrement in db'.rows;
    }
  }

  /** After `deleteOne`, the row is hidden from every default query: the
      id lookup, the username lookup behind `login`, and the id-ordered
      listing. It stays in the table, stamped with the deletion time, so
      the listings that include soft-deleted rows still see it. */
  lemma SoftDeleteHides(db: Db, id: int, now: Time, password: string)
    requires Valid(db)
    requires id in db.rows
    ensures var db' := DeleteOne(db, id, now).0;
      && id in db'.rows && db'.rows[id].deleted_at == Some(now)
      && id !in Query(db', ActiveRow)
      && id in Query(db', AnyRow)
      && FindOneById(db', id) == Failure(NotFound(UserDoesNotExist))
      && Login(db', LoginUserDto(db.rows[id].username, password), None)
         == Failure(RpcError(UserDoesNotExist, 400))
  {
  }

  /** `updateOnlineStatus` is a toggle, not a set: applied twice, starting
      from a fresh read of the row, it gives back the same table and record. */
  lemma {:induction false} ToggleTwiceRestores(db: Db, u: UserWithoutPassword)
    requires Valid(db)
    requires u.id in db.rows && u == StripPassword(db.rows[u.id])
    ensures var r1 := UpdateOnlineStatus(db, Some(u));
      && r1.Success?
      && var r2 := UpdateOnlineStatus(r1.value.0, Some(r1.value.1));
      && r2.Success?
      && r2.value.0 == db
      && r2.value.1 == u
  {
  }

  /** The login handler flips presence: logging in while already online
      leaves the user offline, and while offline leaves them online. */
  lemma LoginFlipsPresence(db: Db, dto: LoginUserDto)
    requires Valid(db)
    requires Login(db, dto, None).Success?
    ensures var u := Login(db, dto, None).value;
      && LoginAndToggle(db, dto, None).Success?
      && LoginAndToggle(db, dto, None).value.0.rows[u.id].online == !db.rows[u.id].online
  {
  }

  /** With the first page large enough, the date-ordered listing holds every
      row of the table, soft-deleted ones included, whichever event orders
      it, `update` among them. */
  lemma {:induction false} SortedListingIncludesDeleted(db: Db, date: DateKind, order: Direction, k: int)
    requires Valid(db)
    requires date != Other
    requires k in db.rows
    ensures var r := FindAllSortedByDate(db, Some(0), Some(|db.rows|), order, date, None);
      && r.Success?
      && exists i :: 0 <= i < |r.value| && r.value[i] == StripPassword(db.rows[k])
  {
    var c := ColumnOf(date);
    ListingHoldsEveryRow(db, c, order, k);
    assert |db.rows| > 0 by {
      assert k in db.rows.Keys;
    }
    assert SortedPage(db, c, order, 0, |db.rows|) == Success(SortedListing(db, c, order, 0, |db.rows|));
    assert FindAllSortedByDate(db, Some(0), Some(|db.rows|), order, date, None)
        == SortedPage(db, c, order, 0, |db.rows|);
  }

  /** The first page of the date-ordered listing, as large as the table,
      holds every row. */
  lemma ListingHoldsEveryRow(db: Db, c: DateColumn, order: Direction, k: int)
    requires Valid(db)
    requires k in db.rows
    ensures exists i :: 0 <= i < |SortedListing(db, c, order, 0, |db.rows|)|
                     && SortedListing(db, c, order, 0, |db.rows|)[i] == StripPassword(db.rows[k])
  {
    var sorted := SortedRows(db, c, order);
    var i :| 0 <= i < |sorted| && sorted[i] == db.rows[k];
    var us := SortedListing(db, c, order, 0, |db.rows|);
    assert us == Project(Page(sorted, 0, |db.rows|));
    assert Page(sorted, 0, |db.rows|)[i] == sorted[i];
    assert us[i] == StripPassword(db.rows[k]);
  }

  /** A page past the end of the active rows is an empty page for
      `findAllUsersPages`, which only refuses an empty table, whereas
      `findAllSortedByDate` refuses any empty page. */
  lemma PastTheEnd(db: Db, order: Direction, date: DateKind)
    requires Valid(db)
    requires date != Other
    requires exists k :: k in db.rows && Active(db.rows[k])
    ensures var r := FindAllUsersPages(db, Some(|MatchingKeys(db, ActiveRow)|), None, order, None);
      r.Success? && r.value.0 == []
    ensures FindAllSortedByDate(db, Some(|db.rows|), None, order, date, None)
         == Failure(Rpc(Payload(NoUsers, None)))
  {
    var k :| k in db.rows && Active(db.rows[k]);
    assert k in MatchingKeys(db, ActiveRow);
  }

  // ---------------------------------------------------------------- finding

  /** As written, `updateUserSameUser` stores a sent password without hashing
      it, so the account can no longer log in with the password it was just
      given: the stored plaintext never verifies. */
  lemma PlaintextPasswordLocksOut(db: Db, dto: UpdateUserDto)
    requires Valid(db)
    requires dto.password.Some?
    requires UpdateUserSameUser(db, dto).Success?
    ensures var db' := UpdateUserSameUser(db, dto).value.0;
      && dto.id in db'.rows
      && db'.rows[dto.id].password == dto.password.value
      && Login(db', LoginUserDto(db'.rows[dto.id].username, dto.password.value), None)
         == Failure(RpcError(InvalidCredentials, 400))
  {
  }

  /** With the password hashed before the save, the account logs in with the
      password it was just given. */
  lemma RehashedPasswordLogsIn(db: Db, dto: UpdateUserDto)
    requires Valid(db)
    requires dto.password.Some?
    requires UpdateUserRehashed(db, dto).Success?
    ensures var db' := UpdateUserRehashed(db, dto).value.0;
      && dto.id in db'.rows
      && var r := Login(db', LoginUserDto(db'.rows[dto.id].username, dto.password.value), None);
      && r.Success?
      && r.value == StripPassword(db'.rows[dto.id])
  {
  }

  // ---------------------------------------------------------------- histories

  /** One request that changes the table. */
  datatype Command =
    | CreateCmd(create: CreateUserDto, now: Time, failure: Option<Thrown>)
    | LoginCmd(login: LoginUserDto, failure: Option<Thrown>)
    | UpdateCmd(update: UpdateUserDto)
    | ToggleCmd(user: Option<UserWithoutPassword>)
    | DeleteCmd(id: int, now: Time)

  /** The table after one request; a failed request leaves it as it was. */
  function Step(db: Db, c: Command): (db': Db)
    requires Valid(db)
    ensures Valid(db')
  {
    match c
    case CreateCmd(dto, now, failure) =>
      (match CreateUser(db, dto, now, failure) case Success((d, _)) => d case Failure(_) => db)
    case LoginCmd(dto, failure) =>
      (match LoginAndToggle(db, dto, failure) case Success((d, _)) => d case Failure(_) => db)
    case UpdateCmd(dto) =>
      (match UpdateUserSameUser(db, dto) case Success((d, _)) => d case Failure(_) => db)
    case ToggleCmd(user) =>
      (match UpdateOnlineStatus(db, user) case Success((d, _)) => d case Failure(_) => db)
    case DeleteCmd(id, now) => DeleteOne(db, id, now).0
  }

  /** The table after a sequence of requests. Whatever the history, no two
      rows share a username or an email, and every row keeps its own id. */
  function Run(db: Db, cs: seq<Command>): (db': Db)
    requires Valid(db)
    decreases |cs|
    ensures Valid(db')
  {
    if cs == [] then db else Run(Step(db, cs[0]), cs[1..])
  }

  /** Rows are never erased: every id of the table survives any history,
      deletions included. */
  lemma {:induction false} RunKeepsRows(db: Db, cs: seq<Command>)
    requires Valid(db)
    ensures db.rows.Keys <= Run(db, cs).rows.Keys
    decreases |cs|
  {
    if cs != [] {
      var c := cs[0];
      var next := Step(db, c);
      assert db.rows.Keys <= next.rows.Keys by {
        match c
        case CreateCmd(dto, now, failure) =>
        case LoginCmd(dto, failure) =>
        case UpdateCmd(dto) =>
        case ToggleCmd(user) =>
        case DeleteCmd(id, now) =>
      }
      RunKeepsRows(next, cs[1..]);
    }
  }
}
