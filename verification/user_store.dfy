/** The storage the service reaches through its repository, reduced to a
    table of rows keyed by id with an auto-increment counter, the unique
    indexes on `username` and `email`, and soft-delete filtering. */
module UserStore {
  import opened Wrappers
  import opened UserEntity
  import opened Errors

  /** The `user` table: rows by id, and the next id the table will assign. */
  datatype Db = Db(rows: map<int, User>, autoIncrement: int)

  /** The table every operation starts from and keeps: ids are positive and
      below the counter, each row sits under its own id, and no two rows (live
      or soft-deleted) share a username or an email. */
  predicate Valid(db: Db) {
    && db.autoIncrement >= 1
    && (forall k :: k in db.rows ==> 1 <= k < db.autoIncrement && db.rows[k].id == k)
    && (forall j, k :: j in db.rows && k in db.rows && j != k ==>
          db.rows[j].username != db.rows[k].username && db.rows[j].email != db.rows[k].email)
  }

  /** The empty table. */
  const Empty: Db := Db(map[], 1)

  lemma EmptyValid()
    ensures Valid(Empty)
  {
  }

  /** The row filters the service's queries use. A plain query sees only
      active rows; `withDeleted` sees every row. */
  datatype Where =
    | AnyRow                          // `withDeleted: true`
    | ActiveRow                       // no `where`, default soft-delete filter
    | ActiveWithUsername(name: string)
    | ActiveWithEmail(address: string)

  predicate Matches(u: User, w: Where) {
    match w
    case AnyRow => true
    case ActiveRow => Active(u)
    case ActiveWithUsername(name) => Active(u) && u.username == name
    case ActiveWithEmail(address) => Active(u) && u.email == address
  }

  /** Strictly increasing ids. */
  predicate Increasing(ids: seq<int>) {
    forall i, j :: 0 <= i < j < |ids| ==> ids[i] < ids[j]
  }

  /** The ids in `[lo, hi)` of rows matching `w`, in ascending order. */
  function Scan(rows: map<int, User>, w: Where, lo: int, hi: int): (ids: seq<int>)
    decreases hi - lo
    ensures forall i :: 0 <= i < |ids| ==> lo <= ids[i] < hi && ids[i] in rows && Matches(rows[ids[i]], w)
    ensures forall k :: lo <= k < hi && k in rows && Matches(rows[k], w) ==> k in ids
    ensures Increasing(ids)
  {
    if lo >= hi then []
    else if lo in rows && Matches(rows[lo], w) then [lo] + Scan(rows, w, lo + 1, hi)
    else Scan(rows, w, lo + 1, hi)
  }

  /** The ids of all rows matching `w`, ascending: exactly the matching keys. */
  function Query(db: Db, w: Where): (ids: seq<int>)
    requires Valid(db)
    ensures forall k :: k in ids <==> k in db.rows && Matches(db.rows[k], w)
    ensures Increasing(ids)
  {
    Scan(db.rows, w, 1, db.autoIncrement)
  }

  /** The rows under a list of ids. */
  function RowsAt(db: Db, ids: seq<int>): (us: seq<User>)
    requires forall i :: 0 <= i < |ids| ==> ids[i] in db.rows
    ensures |us| == |ids|
    ensures forall i :: 0 <= i < |us| ==> us[i] == db.rows[ids[i]]
  {
    seq(|ids|, i requires 0 <= i < |ids| => db.rows[ids[i]])
  }

  /** The keys whose rows match `w`. */
  function MatchingKeys(db: Db, w: Where): set<int> {
    set k | k in db.rows && Matches(db.rows[k], w)
  }

  /** A duplicate-free list holds as many ids as the set of its elements. */
  lemma {:induction false} IncreasingCount(ids: seq<int>)
    requires Increasing(ids)
    ensures |set i | i in ids| == |ids|
  {
    if ids != [] {
      var rest := ids[1..];
      assert Increasing(rest);
      IncreasingCount(rest);
      assert ids[0] !in rest;
      assert (set i | i in ids) == {ids[0]} + (set i | i in rest);
    }
  }

  /** The count a `findAndCount` reports: the number of matching rows. */
  lemma QueryCount(db: Db, w: Where)
    requires Valid(db)
    ensures |Query(db, w)| == |MatchingKeys(db, w)|
  {
    var ids := Query(db, w);
    IncreasingCount(ids);
    assert (set i | i in ids) == MatchingKeys(db, w);
  }

  /** Another row already holds this row's username or email. */
  predicate Conflicts(db: Db, u: User) {
    exists k :: k in db.rows && k != u.id &&
      (db.rows[k].username == u.username || db.rows[k].email == u.email)
  }

  /** The error text of a unique-index violation on `value`. */
  function DuplicateEntry(value: string): (m: string)
    ensures "Duplicate entry" <= m
  {
    "Duplicate entry '" + value + "' for key"
  }

  /** The storage error for a row that collides with another on a unique
      index, naming the colliding username, or else the colliding email. */
  function DuplicateError(db: Db, u: User): Fault {
    if exists k :: k in db.rows && k != u.id && db.rows[k].username == u.username
    then Storage(DuplicateEntry(u.username))
    else Storage(DuplicateEntry(u.email))
  }

  /** `repository.save` of a new row: the table assigns the next id, or the
      unique indexes refuse the row. */
  function InsertRow(db: Db, u: User): (r: Result<(Db, User), Fault>)
    requires Valid(db)
    ensures r.Failure? <==> Conflicts(db, u.(id := db.autoIncrement))
    ensures r.Failure? ==> r.error.Storage? && "Duplicate entry" <= Message(r.error)
    ensures r.Success? ==>
      var (db', saved) := r.value;
      && saved == u.(id := db.autoIncrement)
      && saved.id !in db.rows
      && db'.rows == db.rows[saved.id := saved]
      && db'.autoIncrement == db.autoIncrement + 1
      && Valid(db')
  {
    var saved := u.(id := db.autoIncrement);
    if Conflicts(db, saved) then Failure(DuplicateError(db, saved))
    else Success((Db(db.rows[saved.id := saved], db.autoIncrement + 1), saved))
  }

  /** `repository.save` of a row that already exists: the row is replaced,
      unless the unique indexes refuse it. */
  function UpdateRow(db: Db, u: User): (r: Result<Db, Fault>)
    requires Valid(db)
    requires u.id in db.rows
    ensures r.Failure? <==> Conflicts(db, u)
    ensures r.Failure? ==> r.error.Storage? && "Duplicate entry" <= Message(r.error)
    ensures r.Success? ==> r.value == db.(rows := db.rows[u.id := u]) && Valid(r.value)
  {
    if Conflicts(db, u) then Failure(DuplicateError(db, u))
    else Success(db.(rows := db.rows[u.id := u]))
  }
}
