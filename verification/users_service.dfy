/** `UserService` (src/users/users.service.ts): the user lifecycle over the
    table of `UserStore`. Every operation is a function from the table (and
    its arguments) to either the new table with the operation's answer, or
    the error it throws. The clock is the `now` argument; a failure the
    hashing primitive or the storage layer may raise for reasons of its own
    is the `failure` argument of the operations that catch such failures. */
module UserService {
  import opened Wrappers
  import opened UserEntity
  import opened Errors
  import opened Credentials
  import opened UserStore
  import opened Ordering
  import opened CreateUserInput
  import opened UpdateUserInput
  import opened LoginUserInput

  const AlreadyExists: string := "The user already exists. Please use another data."
  const UnknownError: string := "Unknown error"
  const NoUsersFound: string := "No users found"
  const UsersNotFound: string := "Users not found"
  const ParameterNotFound: string := "Parameter not found"
  const NoUsers: string := "No hay usuarios"
  const UserDoesNotExist: string := "El usuario no existe"
  const IdRequired: string := "Id is required"
  const InvalidCredentials: string := "Invalid Credentials"
  // kept exactly as the service spells it, mis-encoded accent included
  const UserNotFoundById: string := "No se encontr√≥ el usuario con ID"
  /** The storage error for a `save` of a password-less object whose id has
      no row: the insert it falls back to lacks the required password. */
  const PasswordMissing: string := "Field 'password' doesn't have a default value"

  /** The default `skip` and `limit` of the listings. */
  const DefaultSkip: nat := 0
  const DefaultLimit: nat := 10

  /** The answer of a successful `createUser`. */
  datatype Access = Access(access: bool, status: int)

  /** No row, live or soft-deleted, holds this username or this email. */
  predicate Available(db: Db, username: string, email: string) {
    forall k :: k in db.rows ==> db.rows[k].username != username && db.rows[k].email != email
  }

  // ---------------------------------------------------------------- create

  /** The recovery email `createUser` stores: the supplied one when it is
      truthy (sent and non-empty), otherwise the account email. */
  function RecoveryEmail(dto: CreateUserDto): (e: string)
    ensures dto.email_recuperacion.Some? && dto.email_recuperacion.value != "" ==>
              e == dto.email_recuperacion.value
    ensures dto.email_recuperacion.None? || dto.email_recuperacion.value == "" ==>
              e == dto.email
  {
    if dto.email_recuperacion.Some? && dto.email_recuperacion.value != "" then
      dto.email_recuperacion.value
    else
      dto.email
  }

  /** The `catch` block of `createUser`. */
  function CreateFailure(t: Thrown): (f: Fault)
    ensures f.Rpc?
    ensures t.NonError? ==> f == RpcError(UnknownError, 500)
    ensures t.Raised? ==> f.payload.statusCode == Some(400)
    ensures t.Raised? && Includes(Message(t.fault), "Duplicate entry") ==> Message(f) == AlreadyExists
    ensures t.Raised? && !Includes(Message(t.fault), "Duplicate entry") ==> Message(f) == Message(t.fault)
  {
    match t
    case NonError => RpcError(UnknownError, 500)
    case Raised(e) =>
      RpcError(if Includes(Message(e), "Duplicate entry") then AlreadyExists else Message(e), 400)
  }

  /** The row `createUser` asks the table to insert (the table assigns the id). */
  function NewRow(dto: CreateUserDto, now: Time): User {
    User(0, dto.username, dto.email, RecoveryEmail(dto), DefaultRole, false,
         now, now, None, Hash(dto.password))
  }

  /** `createUser`: store a new active row holding the password's digest,
      the default role `invite` and `online == false`, and answer
      `{access: true, status: 200}` with no user data. A username or email
      already held by any row makes the unique index refuse the insert,
      reported as "already exists" with status 400; any other `Error` keeps
      its message with status 400, and any other thrown value becomes
      "Unknown error" with status 500. */
  function CreateUser(db: Db, dto: CreateUserDto, now: Time, failure: Option<Thrown>)
    : (r: Result<(Db, Access), Fault>)
    requires Valid(db)
    ensures failure.Some? ==> r == Failure(CreateFailure(failure.value))
    ensures failure.None? ==> (r.Success? <==> Available(db, dto.username, dto.email))
    ensures failure.None? && r.Failure? ==> r.error == RpcError(AlreadyExists, 400)
    ensures r.Success? ==>
      var (db', answer) := r.value;
      var id := db.autoIncrement;
      && answer == Access(true, 200)
      && Valid(db')
      && id !in db.rows
      && db'.rows.Keys == db.rows.Keys + {id}
      && db'.autoIncrement == db.autoIncrement + 1
      && (forall k :: k in db.rows ==> db'.rows[k] == db.rows[k])
      && db'.rows[id].id == id
      && db'.rows[id].username == dto.username
      && db'.rows[id].email == dto.email
      && db'.rows[id].email_recuperacion == RecoveryEmail(dto)
      && db'.rows[id].password == Hash(dto.password)
      && db'.rows[id].rol == Invite
      && db'.rows[id].online == false
      && db'.rows[id].created_at == now && db'.rows[id].updated_at == now
      && db'.rows[id].deleted_at == None
  {
    if failure.Some? then Failure(CreateFailure(failure.value))
    else
      match InsertRow(db, NewRow(dto, now))
      case Failure(e) =>
        assert Message(e)[0..] == Message(e);
        Failure(CreateFailure(Raised(e)))
      case Success((db', saved)) =>
        if saved.id == 0 then Failure(CreateFailure(Raised(RpcError(NoUsersFound, 404))))
        else Success((db', Access(true, 200)))
  }

  // ---------------------------------------------------------------- listings

  /** The `catch` block of `findAllUsersPages`. */
  function PagesFailure(t: Thrown): (f: Fault)
    ensures t.NonError? ==> f == RpcError(UnknownError, 500)
    ensures t.Raised? ==> f == RpcError(Message(t.fault), 400)
  {
    match t
    case NonError => RpcError(UnknownError, 500)
    case Raised(e) => RpcError(Message(e), 400)
  }

  /** The listed rows, without their passwords. */
  function Project(us: seq<User>): (ps: seq<UserWithoutPassword>)
    ensures |ps| == |us|
    ensures forall i :: 0 <= i < |us| ==> ps[i] == StripPassword(us[i])
  {
    seq(|us|, i requires 0 <= i < |us| => StripPassword(us[i]))
  }

  /** The ids of the active rows, ordered by id in the given direction. */
  function ActiveIds(db: Db, order: Direction): (ids: seq<int>)
    requires Valid(db)
    ensures |ids| == |Query(db, ActiveRow)|
    ensures forall k :: k in ids <==> k in db.rows && Active(db.rows[k])
    ensures order == Asc ==> forall i, j :: 0 <= i < j < |ids| ==> ids[i] < ids[j]
    ensures order == Desc ==> forall i, j :: 0 <= i < j < |ids| ==> ids[i] > ids[j]
  {
    var up := Query(db, ActiveRow);
    if order == Asc then up
    else
      var down := Reverse(up);
      assert forall k :: k in down <==> k in up by {
        forall k ensures k in down <==> k in up {
          if k in up {
            var i :| 0 <= i < |up| && up[i] == k;
            assert down[|up| - 1 - i] == k;
          }
        }
      }
      down
  }

  /** A window of an id listing, as password-less records. */
  function ListedPage(db: Db, ids: seq<int>, skip: nat, limit: nat): (users: seq<UserWithoutPassword>)
    requires Valid(db)
    requires forall i :: 0 <= i < |ids| ==> ids[i] in db.rows
    ensures |users| <= limit
    ensures skip < |ids| ==> |users| == if |ids| - skip < limit then |ids| - skip else limit
    ensures forall i :: 0 <= i < |users| ==>
      skip + i < |ids| && users[i].id == ids[skip + i] && users[i] == StripPassword(db.rows[ids[skip + i]])
  {
    var page := Page(ids, skip, limit);
    Project(RowsAt(db, page))
  }

  /** `findAllUsersPages(skip = 0, limit = 10, order)`: the active rows,
      ordered by id in the requested direction, at most `limit` of them after
      skipping `skip`, without passwords; together with the number of active
      rows. No active row at all is an error with status 400 (a page past the
      end is not). */
  function FindAllUsersPages(db: Db, skip: Option<nat>, limit: Option<nat>, order: Direction,
                             failure: Option<Thrown>)
    : (r: Result<(seq<UserWithoutPassword>, nat), Fault>)
    requires Valid(db)
    ensures failure.Some? ==> r == Failure(PagesFailure(failure.value))
    ensures failure.None? ==> (r.Failure? <==> MatchingKeys(db, ActiveRow) == {})
    ensures failure.None? && r.Failure? ==> r.error == RpcError(UsersNotFound, 400)
    ensures r.Success? ==>
      var (users, total) := r.value;
      var ids := ActiveIds(db, order);
      var s := skip.GetOr(DefaultSkip);
      && total == |ids| == |MatchingKeys(db, ActiveRow)| && total > 0
      && |users| <= limit.GetOr(DefaultLimit)
      && (s < total ==> |users| == if total - s < limit.GetOr(DefaultLimit) then total - s else limit.GetOr(DefaultLimit))
      && (forall i :: 0 <= i < |users| ==>
            s + i < |ids| && users[i].id == ids[s + i]
            && users[i].id in db.rows && Active(db.rows[users[i].id])
            && users[i] == StripPassword(db.rows[users[i].id]))
  {
    if failure.Some? then Failure(PagesFailure(failure.value))
    else
      var ids := ActiveIds(db, order);
      QueryCount(db, ActiveRow);
      if |ids| == 0 then
        assert |MatchingKeys(db, ActiveRow)| == 0;
        Failure(PagesFailure(Raised(RpcError(UsersNotFound, 400))))
      else
        Success((ListedPage(db, ids, skip.GetOr(DefaultSkip), limit.GetOr(DefaultLimit)), |ids|))
  }

  /** `DateEnum`: the lifecycle event a listing is ordered by. */
  datatype DateKind = Create | Update | Delete | Other

  /** The query options each `DateEnum` case sets up: the column to order
      by and whether the case asks for soft-deleted rows. */
  function DateOptions(date: DateKind): (o: Option<(DateColumn, bool)>)
    ensures o.None? <==> date == Other
    ensures date == Delete ==> o == Some((DeletedAt, true))
    ensures date == Update ==> o == Some((UpdatedAt, false))
    ensures date == Create ==> o == Some((CreatedAt, true))
  {
    match date
    case Delete => Some((DeletedAt, true))
    case Update => Some((UpdatedAt, false))
    case Create => Some((CreatedAt, true))
    case Other => None
  }

  /** The `catch` block of `findAllSortedByDate`: an `Error` is rethrown
      through `Errors.NError` with its message alone, anything else as
      "Unknown error" with status 500. */
  function SortedFailure(t: Thrown): (f: Fault)
    ensures t.NonError? ==> f == RpcError(UnknownError, 500)
    ensures t.Raised? ==> f == Rpc(Payload(Message(t.fault), None))
  {
    match t
    case NonError => NError(UnknownError, Some(500)).error
    case Raised(e) => NError(Message(e), None).error
  }

  /** Each listed row is the stored row under its own id. */
  predicate Stored(db: Db, us: seq<User>) {
    forall i :: 0 <= i < |us| ==> us[i].id in db.rows && db.rows[us[i].id] == us[i]
  }

  /** Reordering a list of stored rows leaves them stored rows. */
  lemma StoredPermutation(db: Db, a: seq<User>, b: seq<User>)
    requires Stored(db, a)
    requires multiset(a) == multiset(b)
    ensures Stored(db, b)
  {
    forall i | 0 <= i < |b| ensures b[i].id in db.rows && db.rows[b[i].id] == b[i] {
      assert b[i] in multiset(a);
      var j :| 0 <= j < |a| && a[j] == b[i];
    }
  }

  /** Every row of the table, soft-deleted ones included, in id order. */
  function AllRows(db: Db): (us: seq<User>)
    requires Valid(db)
    ensures |us| == |db.rows|
    ensures Stored(db, us)
    ensures Distinct(us)
    ensures forall k :: k in db.rows ==> db.rows[k] in us
  {
    var ids := Query(db, AnyRow);
    QueryCount(db, AnyRow);
    assert MatchingKeys(db, AnyRow) == db.rows.Keys;
    var us := RowsAt(db, ids);
    assert forall k :: k in db.rows ==> db.rows[k] in us by {
      forall k | k in db.rows ensures db.rows[k] in us {
        var i :| 0 <= i < |ids| && ids[i] == k;
        assert us[i] == db.rows[k];
      }
    }
    us
  }

  /** Each listed record is its stored row without the password. */
  predicate ListedFrom(db: Db, us: seq<UserWithoutPassword>) {
    forall i :: 0 <= i < |us| ==> us[i].id in db.rows && us[i] == StripPassword(db.rows[us[i].id])
  }

  /** No record is listed twice. */
  predicate DistinctIds(us: seq<UserWithoutPassword>) {
    forall i, j :: 0 <= i < j < |us| ==> us[i].id != us[j].id
  }

  /** The listed records' stored rows follow the column in the direction. */
  predicate OrderedBy(db: Db, us: seq<UserWithoutPassword>, c: DateColumn, order: Direction)
    requires ListedFrom(db, us)
  {
    && (order == Asc ==> forall i, j :: 0 <= i < j < |us| ==>
          Key(db.rows[us[i].id], c) <= Key(db.rows[us[j].id], c))
    && (order == Desc ==> forall i, j :: 0 <= i < j < |us| ==>
          Key(db.rows[us[i].id], c) >= Key(db.rows[us[j].id], c))
  }

  /** `us` is the `skip`/`limit` window, without passwords, of some ordering
      of the whole table by the column in the direction. Rows with equal keys
      may stand in any order, as the database leaves them. */
  ghost predicate SortedWindow(db: Db, c: DateColumn, order: Direction, skip: nat, limit: nat,
                               us: seq<UserWithoutPassword>)
  {
    exists xs: seq<User> ::
      && |xs| == |db.rows|
      && Stored(db, xs)
      && Distinct(xs)
      && (forall k :: k in db.rows ==> db.rows[k] in xs)
      && (order == Asc ==> Ascending(xs, c))
      && (order == Desc ==> Descending(xs, c))
      && us == Project(Page(xs, skip, limit))
  }

  /** Every row ordered by a timestamp column. */
  function SortedRows(db: Db, c: DateColumn, order: Direction): (us: seq<User>)
    requires Valid(db)
    ensures |us| == |db.rows|
    ensures Stored(db, us)
    ensures Distinct(us)
    ensures forall k :: k in db.rows ==> db.rows[k] in us
    ensures order == Asc ==> Ascending(us, c)
    ensures order == Desc ==> Descending(us, c)
  {
    var all := AllRows(db);
    var sorted := SortBy(all, c, order);
    assert |sorted| == |db.rows| by {
      assert |multiset(sorted)| == |multiset(all)|;
    }
    StoredPermutation(db, all, sorted);
    DistinctPermutation(all, sorted);
    assert forall u :: u in all ==> u in multiset(sorted);
    sorted
  }

  /** Every row ordered by a timestamp column, then windowed, without
      passwords. */
  function SortedListing(db: Db, c: DateColumn, order: Direction, skip: nat, limit: nat)
    : (us: seq<UserWithoutPassword>)
    requires Valid(db)
    ensures |us| <= limit
    ensures us == [] <==> skip >= |db.rows| || limit == 0
    ensures skip < |db.rows| ==> |us| == if |db.rows| - skip < limit then |db.rows| - skip else limit
    ensures ListedFrom(db, us)
    ensures DistinctIds(us)
    ensures OrderedBy(db, us, c, order)
    ensures SortedWindow(db, c, order, skip, limit, us)
  {
    var sorted := SortedRows(db, c, order);
    var page := Page(sorted, skip, limit);
    PageOfSorted(db, sorted, skip, limit, c, order);
    DistinctPage(sorted, skip, limit);
    ProjectSorted(db, page, c, order);
    WindowOfSorted(db, sorted, c, order, skip, limit);
    Project(page)
  }

  /** The window of one ordering of the whole table is a sorted window. */
  lemma WindowOfSorted(db: Db, xs: seq<User>, c: DateColumn, order: Direction, skip: nat, limit: nat)
    requires |xs| == |db.rows| && Stored(db, xs) && Distinct(xs)
    requires forall k :: k in db.rows ==> db.rows[k] in xs
    requires order == Asc ==> Ascending(xs, c)
    requires order == Desc ==> Descending(xs, c)
    ensures SortedWindow(db, c, order, skip, limit, Project(Page(xs, skip, limit)))
  {
  }

  /** A window of a sorted list of stored rows is one too. */
  lemma PageOfSorted(db: Db, xs: seq<User>, skip: nat, limit: nat, c: DateColumn, order: Direction)
    requires Stored(db, xs)
    requires order == Asc ==> Ascending(xs, c)
    requires order == Desc ==> Descending(xs, c)
    ensures Stored(db, Page(xs, skip, limit))
    ensures order == Asc ==> Ascending(Page(xs, skip, limit), c)
    ensures order == Desc ==> Descending(Page(xs, skip, limit), c)
  {
    var page := Page(xs, skip, limit);
    assert forall i :: 0 <= i < |page| ==> page[i] == xs[skip + i];
  }

  /** Dropping the passwords of sorted stored rows lists them in order. */
  lemma ProjectSorted(db: Db, page: seq<User>, c: DateColumn, order: Direction)
    requires Stored(db, page)
    requires order == Asc ==> Ascending(page, c)
    requires order == Desc ==> Descending(page, c)
    requires Distinct(page)
    ensures ListedFrom(db, Project(page))
    ensures DistinctIds(Project(page))
    ensures OrderedBy(db, Project(page), c, order)
  {
    var us := Project(page);
    assert forall i :: 0 <= i < |us| ==> us[i].id == page[i].id && db.rows[us[i].id] == page[i];
  }

  /** The timestamp column a recognised event orders by. */
  function ColumnOf(date: DateKind): DateColumn
    requires date != Other
  {
    DateOptions(date).value.0
  }

  /** The query of `findAllSortedByDate` once the event has chosen its
      column: the window of the ordered table, failing with "No hay
      usuarios" when it is empty. */
  function SortedPage(db: Db, c: DateColumn, order: Direction, s: nat, l: nat)
    : (r: Result<seq<UserWithoutPassword>, Fault>)
    requires Valid(db)
    ensures r.Success? <==> s < |db.rows| && l > 0
    ensures r.Failure? ==> r.error == Rpc(Payload(NoUsers, None))
    ensures r.Success? ==>
      && 0 < |r.value| <= l
      && |r.value| == (if |db.rows| - s < l then |db.rows| - s else l)
      && ListedFrom(db, r.value)
      && DistinctIds(r.value)
      && OrderedBy(db, r.value, c, order)
    ensures r.Success? ==> SortedWindow(db, c, order, s, l, r.value)
  {
    var us := SortedListing(db, c, order, s, l);
    if s >= |db.rows| || l == 0 then Failure(SortedFailure(Raised(NotFound(NoUsers))))
    else Success(us)
  }

  /** `findAllSortedByDate(skip = 0, limit = 10, order, date)`: rows ordered
      by the timestamp the event names (`deleted_at`, `updated_at` or
      `created_at`) in the requested direction, at most `limit` after
      skipping `skip`, without passwords. Whatever the case chose, the query
      always includes soft-deleted rows. An unrecognised event fails with
      "Parameter not found" and an empty page with "No hay usuarios", both
      without a status code. */
  function FindAllSortedByDate(db: Db, skip: Option<nat>, limit: Option<nat>, order: Direction,
                               date: DateKind, failure: Option<Thrown>)
    : (r: Result<seq<UserWithoutPassword>, Fault>)
    requires Valid(db)
    ensures date == Other ==> r == Failure(Rpc(Payload(ParameterNotFound, None)))
    ensures date != Other && failure.Some? ==> r == Failure(SortedFailure(failure.value))
    ensures date != Other && failure.None? ==>
              (r.Success? <==> skip.GetOr(DefaultSkip) < |db.rows| && limit.GetOr(DefaultLimit) > 0)
    ensures date != Other && failure.None? && r.Failure? ==>
              r.error == Rpc(Payload(NoUsers, None))
    ensures r.Success? ==>
      var s := skip.GetOr(DefaultSkip);
      var l := limit.GetOr(DefaultLimit);
      && date != Other
      && 0 < |r.value| <= l
      && |r.value| == (if |db.rows| - s < l then |db.rows| - s else l)
      && ListedFrom(db, r.value)
      && DistinctIds(r.value)
      && OrderedBy(db, r.value, ColumnOf(date), order)
      && SortedWindow(db, ColumnOf(date), order, s, l, r.value)
  {
    if DateOptions(date).None? then
      Failure(SortedFailure(Raised(NError(ParameterNotFound, None).error)))
    else if failure.Some? then Failure(SortedFailure(failure.value))
    else
      // the `withDeleted: true` written after the spread of the options
      // overrides the case's own setting: every row is listed
      SortedPage(db, ColumnOf(date), order, skip.GetOr(DefaultSkip), limit.GetOr(DefaultLimit))
  }

  // ---------------------------------------------------------------- lookups

  /** `findOneById`: the active row with this id, or NotFound. */
  function FindOneById(db: Db, id: int): (r: Result<User, Fault>)
    ensures r.Success? <==> id in db.rows && Active(db.rows[id])
    ensures r.Success? ==> r.value == db.rows[id]
    ensures r.Failure? ==> r.error == NotFound(UserDoesNotExist)
  {
    if id in db.rows && Active(db.rows[id]) then Success(db.rows[id])
    else Failure(NotFound(UserDoesNotExist))
  }

  /** `findOneByUsername`: the active row with this username, or NotFound.
      The unique index makes that row the only one. */
  function FindOneByUsername(db: Db, username: string): (r: Result<User, Fault>)
    requires Valid(db)
    ensures r.Success? <==> exists k :: k in db.rows && Active(db.rows[k]) && db.rows[k].username == username
    ensures r.Success? ==> forall k :: k in db.rows && db.rows[k].username == username ==> r.value == db.rows[k]
    ensures r.Success? ==> r.value.id in db.rows && db.rows[r.value.id] == r.value && Active(r.value)
    ensures r.Failure? ==> r.error == NotFound(UserDoesNotExist)
  {
    var ids := Query(db, ActiveWithUsername(username));
    if ids == [] then Failure(NotFound(UserDoesNotExist))
    else Success(db.rows[ids[0]])
  }

  /** `findOneByEmail`: the active row with this email, password included,
      or NotFound. */
  function FindOneByEmail(db: Db, email: string): (r: Result<User, Fault>)
    requires Valid(db)
    ensures r.Success? <==> exists k :: k in db.rows && Active(db.rows[k]) && db.rows[k].email == email
    ensures r.Success? ==> forall k :: k in db.rows && db.rows[k].email == email ==> r.value == db.rows[k]
    ensures r.Success? ==> r.value.id in db.rows && db.rows[r.value.id] == r.value && Active(r.value)
    ensures r.Failure? ==> r.error == NotFound(UserDoesNotExist)
  {
    var ids := Query(db, ActiveWithEmail(email));
    if ids == [] then Failure(NotFound(UserDoesNotExist))
    else Success(db.rows[ids[0]])
  }

  // ---------------------------------------------------------------- login

  /** The `catch` block of `login`: every failure is rethrown with status 400. */
  function LoginFailure(t: Thrown): (f: Fault)
    ensures f.Rpc? && f.payload.statusCode == Some(400)
    ensures t.NonError? ==> Message(f) == UnknownError
    ensures t.Raised? ==> Message(f) == Message(t.fault)
  {
    RpcError(if t.Raised? then Message(t.fault) else UnknownError, 400)
  }

  /** `login`: the active user with the given username whose digest verifies
      against the given password, returned without its password. An unknown
      username and a wrong password both fail with status 400, with the
      messages "El usuario no existe" and "Invalid Credentials". */
  function Login(db: Db, dto: LoginUserDto, failure: Option<Thrown>)
    : (r: Result<UserWithoutPassword, Fault>)
    requires Valid(db)
    ensures failure.Some? ==> r == Failure(LoginFailure(failure.value))
    ensures failure.None? ==>
      (r.Success? <==> exists k :: k in db.rows && Active(db.rows[k])
                                && db.rows[k].username == dto.username
                                && Verify(db.rows[k].password, dto.password))
    ensures failure.None? && r.Failure? ==>
      r.error == RpcError(
        if exists k :: k in db.rows && Active(db.rows[k]) && db.rows[k].username == dto.username
        then InvalidCredentials else UserDoesNotExist, 400)
    ensures r.Success? ==>
      && r.value.id in db.rows
      && r.value == StripPassword(db.rows[r.value.id])
      && r.value.username == dto.username
      && Active(db.rows[r.value.id])
  {
    if failure.Some? then Failure(LoginFailure(failure.value))
    else
      match FindOneByUsername(db, dto.username)
      case Failure(e) => Failure(LoginFailure(Raised(e)))
      case Success(u) =>
        if !Verify(u.password, dto.password) then
          Failure(LoginFailure(Raised(RpcError(InvalidCredentials, 401))))
        else
          Success(StripPassword(u))
  }

  // ---------------------------------------------------------------- updates

  /** `Object.assign(user, dto)`: each property the DTO carries replaces the
      row's; the password is copied as sent, without hashing. */
  function Assign(u: User, dto: UpdateUserDto): User {
    u.(id := dto.id,
       username := dto.username.GetOr(u.username),
       email := dto.email.GetOr(u.email),
       email_recuperacion := dto.email_recuperacion.GetOr(u.email_recuperacion),
       password := dto.password.GetOr(u.password),
       rol := dto.rol.GetOr(u.rol),
       online := dto.online.GetOr(u.online))
  }

  /** `after` is `before` with exactly the sent properties replaced, the
      password taken as `password` when one is sent. */
  predicate MergedFrom(after: User, before: User, dto: UpdateUserDto, password: string -> string) {
    && after.id == before.id
    && after.username == (if dto.username.Some? then dto.username.value else before.username)
    && after.email == (if dto.email.Some? then dto.email.value else before.email)
    && after.email_recuperacion ==
         (if dto.email_recuperacion.Some? then dto.email_recuperacion.value else before.email_recuperacion)
    && after.password == (if dto.password.Some? then password(dto.password.value) else before.password)
    && after.rol == (if dto.rol.Some? then dto.rol.value else before.rol)
    && after.online == (if dto.online.Some? then dto.online.value else before.online)
    && after.created_at == before.created_at
    && after.updated_at == before.updated_at
    && after.deleted_at == before.deleted_at
  }

  /** `updateUserSameUser`: a zero id is refused with BadRequest before any
      lookup; an id without an active row is NotFound; otherwise exactly the
      sent properties of the row are replaced and the answer is `true`.
      The password is stored as sent. A username or email another row holds
      makes the unique index refuse the save. */
  function UpdateUserSameUser(db: Db, dto: UpdateUserDto): (r: Result<(Db, bool), Fault>)
    requires Valid(db)
    ensures dto.id == 0 ==> r == Failure(BadRequest(IdRequired))
    ensures dto.id != 0 && !(dto.id in db.rows && Active(db.rows[dto.id])) ==>
              r == Failure(NotFound(UserDoesNotExist))
    ensures dto.id != 0 && dto.id in db.rows && Active(db.rows[dto.id]) ==>
              (r.Failure? <==> Conflicts(db, Assign(db.rows[dto.id], dto)))
    ensures dto.id != 0 && dto.id in db.rows && Active(db.rows[dto.id]) && r.Failure? ==>
              r.error.Storage? && "Duplicate entry" <= Message(r.error)
    ensures r.Failure? && r.error.Storage? ==> "Duplicate entry" <= Message(r.error)
    ensures r.Success? ==>
      var (db', answer) := r.value;
      && answer == true
      && Valid(db')
      && dto.id in db.rows
      && db'.rows.Keys == db.rows.Keys
      && db'.autoIncrement == db.autoIncrement
      && (forall k :: k in db.rows && k != dto.id ==> db'.rows[k] == db.rows[k])
      && MergedFrom(db'.rows[dto.id], db.rows[dto.id], dto, p => p)
  {
    if dto.id == 0 then Failure(BadRequest(IdRequired))
    else
      match FindOneById(db, dto.id)
      case Failure(e) => Failure(e)
      case Success(u) =>
        match UpdateRow(db, Assign(u, dto))
        case Failure(e) => Failure(e)
        case Success(db') => Success((db', true))
  }

  /** `Object.assign` as intended: a sent password is stored as its digest. */
  function AssignHashed(u: User, dto: UpdateUserDto): User {
    Assign(u, dto).(password := if dto.password.Some? then Hash(dto.password.value) else u.password)
  }

  /** `updateUserSameUser` with the sent password hashed before the save,
      as `createUser` does. Everything else is as in `UpdateUserSameUser`. */
  function UpdateUserRehashed(db: Db, dto: UpdateUserDto): (r: Result<(Db, bool), Fault>)
    requires Valid(db)
    ensures dto.id == 0 ==> r == Failure(BadRequest(IdRequired))
    ensures dto.id != 0 && !(dto.id in db.rows && Active(db.rows[dto.id])) ==>
              r == Failure(NotFound(UserDoesNotExist))
    ensures dto.id != 0 && dto.id in db.rows && Active(db.rows[dto.id]) ==>
              (r.Failure? <==> Conflicts(db, AssignHashed(db.rows[dto.id], dto)))
    ensures dto.id != 0 && dto.id in db.rows && Active(db.rows[dto.id]) && r.Failure? ==>
              r.error.Storage? && "Duplicate entry" <= Message(r.error)
    ensures r.Success? ==>
      var (db', answer) := r.value;
      && answer == true
      && Valid(db')
      && dto.id in db.rows
      && db'.rows.Keys == db.rows.Keys
      && db'.autoIncrement == db.autoIncrement
      && (forall k :: k in db.rows && k != dto.id ==> db'.rows[k] == db.rows[k])
      && MergedFrom(db'.rows[dto.id], db.rows[dto.id], dto, Hash)
  {
    if dto.id == 0 then Failure(BadRequest(IdRequired))
    else
      match FindOneById(db, dto.id)
      case Failure(e) => Failure(e)
      case Success(u) =>
        match UpdateRow(db, AssignHashed(u, dto))
        case Failure(e) => Failure(e)
        case Success(db') => Success((db', true))
  }

  /** `updateOnlineStatus(user)`: no user is NotFound; otherwise the row is
      saved from the given record with `online` negated, keeping its stored
      password, and the saved record is answered. A record that is a fresh
      read of its row changes nothing but `online`. */
  function UpdateOnlineStatus(db: Db, user: Option<UserWithoutPassword>)
    : (r: Result<(Db, UserWithoutPassword), Fault>)
    requires Valid(db)
    ensures user.None? ==> r == Failure(NotFound(UserNotFoundById))
    ensures user.Some? && user.value.id !in db.rows ==> r == Failure(Storage(PasswordMissing))
    ensures user.Some? && user.value.id in db.rows ==>
      var row := WithPassword(user.value.(online := !user.value.online), db.rows[user.value.id].password);
      && (r.Failure? <==> Conflicts(db, row))
      && (r.Failure? ==> r.error.Storage? && "Duplicate entry" <= Message(r.error))
    ensures r.Success? ==>
      var (db', saved) := r.value;
      && user.Some?
      && saved == user.value.(online := !user.value.online)
      && saved.id in db.rows
      && Valid(db')
      && db' == db.(rows := db.rows[saved.id := WithPassword(saved, db.rows[saved.id].password)])
    ensures user.Some? && user.value.id in db.rows && user.value == StripPassword(db.rows[user.value.id]) ==>
      && r.Success?
      && var u := db.rows[user.value.id];
         r.value.0 == db.(rows := db.rows[u.id := u.(online := !u.online)])
  {
    if user.None? then Failure(NotFound(UserNotFoundById))
    else
      var saved := user.value.(online := !user.value.online);
      if saved.id !in db.rows then Failure(Storage(PasswordMissing))
      else
        var row := WithPassword(saved, db.rows[saved.id].password);
        assert user.value == StripPassword(db.rows[saved.id]) ==> !Conflicts(db, row);
        match UpdateRow(db, row)
        case Failure(e) => Failure(e)
        case Success(db') => Success((db', saved))
  }

  // ---------------------------------------------------------------- delete

  /** `deleteOne(id)`: stamp `deleted_at` with the current time on the row
      with that id, live or already deleted, and answer "ok". The update's
      result object is always present, so an id without a row also answers
      "ok" and changes nothing. */
  function DeleteOne(db: Db, id: int, now: Time): (r: (Db, string))
    requires Valid(db)
    ensures r.1 == "ok"
    ensures Valid(r.0)
    ensures id !in db.rows ==> r.0 == db
    ensures id in db.rows ==> r.0.rows == db.rows[id := db.rows[id].(deleted_at := Some(now))]
    ensures r.0.autoIncrement == db.autoIncrement
  {
    if id in db.rows then
      (db.(rows := db.rows[id := db.rows[id].(deleted_at := Some(now))]), "ok")
    else
      (db, "ok")
  }

  // ---------------------------------------------------------------- controller

  /** The `login` message handler (src/users/users.controller.ts): `login`,
      then `updateOnlineStatus` on the user it returns. A successful login
      negates the stored `online` flag, so logging in while online leaves
      the user offline. */
  function LoginAndToggle(db: Db, dto: LoginUserDto, failure: Option<Thrown>)
    : (r: Result<(Db, UserWithoutPassword), Fault>)
    requires Valid(db)
    ensures Login(db, dto, failure).Failure? ==> r == Failure(Login(db, dto, failure).error)
    ensures Login(db, dto, failure).Success? ==>
      && r.Success?
      && r.value.1.id in db.rows
      && var u := db.rows[r.value.1.id];
         && r.value.0 == db.(rows := db.rows[u.id := u.(online := !u.online)])
         && r.value.1 == StripPassword(u).(online := !u.online)
  {
    match Login(db, dto, failure)
    case Failure(e) => Failure(e)
    case Success(u) => UpdateOnlineStatus(db, Some(u))
  }
}
