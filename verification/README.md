# Users service: the user lifecycle in Dafny

This project models the core of a NestJS "Users" microservice. A `User` row
(username = national ID, email, recovery email, password digest, role,
presence flag, timestamps, soft-delete stamp) lives in a relational table. The
`UserService` creates, lists, looks up, authenticates, updates, toggles
presence for and soft-deletes users. Around it sit the request DTOs with their
class-validator rules, the in-memory session map, and the `Errors.NError`
helper.

Layout, one module per source component:

- `wrappers.dfy` (`Wrappers`): `Option` and `Result`.
- `errors.dfy` (`Errors`): the thrown values (`RpcException` payloads,
  `NotFoundException`, `BadRequestException`, storage errors, non-`Error`
  values), `message` extraction, `includes`, and `NError`.
- `credentials.dfy` (`Credentials`): argon2 `hash`/`verify`. The digest is an
  injective stand-in, and `Verify(h, p)` holds exactly when `h == Hash(p)`.
- `user_entity.dfy` (`UserEntity`): `UserRole`, `UserWithoutPassword`,
  `User`, and stripping/joining the password.
- `validators.dfy`, `create_user_dto.dfy`, `login_user_dto.dfy`,
  `update_user_dto.dfy`: the class-validator checks and the three DTOs. Each
  DTO has an acceptance predicate written as the decorator stack, and a
  `Validate` function standing for the validation pipe. `IsEmail` is a
  parameter (`isEmail: string -> bool`) and stays abstract.
- `user_store.dfy` (`UserStore`): the table, a map from id to row plus the
  auto-increment counter. Its invariant `Valid` says ids are positive, each
  row sits under its own id, and username and email are unique over all rows,
  soft-deleted ones included, as the unique indexes demand. The file also
  holds soft-delete-aware queries, inserts and updates.
- `ordering.dfy` (`Ordering`): ordering by id or by a timestamp column, and
  `skip`/`take`.
- `users_service.dfy` (`UserService`): the operations, each a pure function
  from the table to `Result<(new table, answer), fault>`, plus the `login`
  message handler of the controller (`login`, then `updateOnlineStatus`).
- `auth_session.dfy` (`AuthSession`): the token-to-identity session map.
- `service_properties.dfy` (`ServiceProperties`): properties across
  operations: create then login, duplicate create, soft-delete visibility,
  the toggle involution, invariants over any history of requests, and the
  password finding below.

Parameters stand for what the model does not compute:

- `now` is the clock.
- `failure: Option<Thrown>` is an error that the hashing primitive or the
  storage layer raises for its own reasons, for example a lost connection.
  Only the four operations with a `catch` block take it, because their
  error mapping is the logic being modelled.
- `isEmail` is the email recogniser.

Behaviour worth noting:

- A create conflict is reported with status 400, not as a distinct conflict
  kind.
- A wrong password is thrown with 401 and then rethrown by `login`'s own
  `catch` with status 400.
- `findAllSortedByDate` includes soft-deleted rows for every event kind,
  `update` too.
- `deleteOne` answers `'ok'` even for an id that matches no row.
- `updateUserSameUser` stores a sent password without hashing it (see
  Findings).
- The global validation pipe (`src/main.ts:17-23`, `whitelist` with
  `forbidNonWhitelisted`) rejects any property a DTO does not declare. So
  neither `Object.assign` in the update nor the spread in the create ever
  copies an undeclared property. The raw payload records therefore hold
  exactly the declared properties.

## Model

| member | source | states |
|---|---|---|
| Errors.NError | src/utils/Erros.ts:6-17 | never returns normally; the thrown payload's message is the argument, and it carries `statusCode` exactly when the argument is truthy (absent or 0 gives a message-only payload) |
| Credentials.VerifyRoundTrip | src/users/users.service.ts:283-286 | a password verifies against its own digest and against no other password's |
| Credentials.HashNeverPlaintext | src/users/users.service.ts:30 | a digest never equals the password it was made from, so a stored plaintext never verifies against itself |
| UserEntity.ParseRole | src/users/entities/user.entity.ts:10-14 | a label names a role exactly when it is one of `sudo`, `admin`, `invite`, and the role's label is that string |
| UserEntity.Label | src/users/entities/user.entity.ts:10-14 | every role is stored as one of `sudo`, `admin`, `invite` |
| UserEntity.RoleLabelRoundTrip | src/users/entities/user.entity.ts:10-14 | parsing a role's label gives the role back |
| UserEntity.StripPassword | src/users/entities/user.entity.ts:16-69 | the password-less record keeps every column of the row except the password |
| UserEntity.WithPassword | src/users/entities/user.entity.ts:71-75 | a `User` is a `UserWithoutPassword` plus a password: stripping the joined row gives the record back |
| UserEntity.SplitJoin | src/users/entities/user.entity.ts:16-75 | splitting a row and joining it with its password gives the row back |
| CreateUserInput.Validate | src/users/dto/create-user.dto.ts:9-26 | a payload is accepted exactly when the username is a non-empty string, the email a non-empty string the recogniser accepts, the recovery email missing or accepted, and the password a string of at least 8 characters; the DTO carries those strings and nothing else |
| UpdateUserInput.Validate | src/users/dto/update-user.dto.ts:23-51 | accepted exactly when the id is a number and each sent optional property has its type: accepted emails, a password of at least 8 characters, a role label, a boolean; the DTO records exactly which properties were sent, and carries the sent values |
| UpdateUserInput.OnlyIdAccepted | src/users/dto/update-user.dto.ts:24-50 | a payload holding only a numeric id, 0 included, is accepted |
| LoginUserInput.Validate | src/users/dto/login-user.dto.ts:3-12 | accepted exactly when the username is a non-empty string and the password a string of at least 8 characters: the length rule subsumes the non-empty rule |
| UserStore.InsertRow | src/users/entities/user.entity.ts:17-32 | an insert takes the next id and fails with a "Duplicate entry" storage error exactly when another row holds the username or email; on success the row is stored under that id, the counter advances by one, and the table keeps its invariant |
| UserStore.UpdateRow | src/users/users.service.ts:331 | saving an existing row replaces it, unless another row holds its username or email; the invariant is kept |
| UserStore.QueryCount | src/users/users.service.ts:81-95 | the count a query reports is the number of rows matching its filter |
| UserService.RecoveryEmail | src/users/users.service.ts:34-36 | the stored recovery email is the supplied one when sent and non-empty, otherwise the account email |
| UserService.CreateFailure | src/users/users.service.ts:55-69 | an `Error` whose message includes "Duplicate entry" becomes "already exists"/400, any other `Error` keeps its message with 400, and a non-`Error` becomes "Unknown error"/500 |
| UserService.CreateUser | src/users/users.service.ts:28-71 | succeeds exactly when no row holds the username or email; the new active row has the next id, the password's digest, role `invite`, `online == false`, the derived recovery email; no other row changes and the id counter advances by one; the answer is `{access: true, status: 200}`; a clash fails "already exists"/400 |
| UserService.PagesFailure | src/users/users.service.ts:104-116 | an `Error` keeps its message with status 400; anything else becomes "Unknown error"/500 |
| UserService.FindAllUsersPages | src/users/users.service.ts:75-117 | the page holds at most `limit` active rows, without passwords, taken after skipping `skip` in id order (ascending or descending); the total is the number of active rows; no active row fails "Users not found"/400, but a page past the end does not fail |
| UserService.SortedFailure | src/users/users.service.ts:178-184 | an `Error` is rethrown through `NError` with its message and no status; anything else as "Unknown error"/500 |
| UserService.SortedListing | src/users/users.service.ts:156-172 | the window of `limit` rows at position `skip` of some ordering of the whole table by the column, soft-deleted rows included, without passwords; the ordering may put rows with equal keys in any order; no row twice; empty exactly when `skip` is past the table or `limit` is 0 |
| UserService.FindAllSortedByDate | src/users/users.service.ts:120-185 | `delete`/`update`/`create` order by `deleted_at`/`updated_at`/`created_at` over all rows, soft-deleted ones included; the answer is the window at `skip` of length at most `limit` of such an ordering of the whole table; an unknown kind fails "Parameter not found" and an empty page "No hay usuarios", both without status |
| UserService.FindOneById | src/users/users.service.ts:266-277 | finds the row exactly when the id has an active row; otherwise NotFound "El usuario no existe" |
| UserService.FindOneByUsername | src/users/users.service.ts:253-264 | finds exactly when an active row has the username, and then that row is the only one with it; otherwise NotFound |
| UserService.FindOneByEmail | src/users/users.service.ts:228-250 | finds exactly when an active row has the email, and then that row is the only one with it; otherwise NotFound |
| UserService.LoginFailure | src/users/users.service.ts:297-302 | every failure is rethrown with status 400, keeping an `Error`'s message and using "Unknown error" otherwise |
| UserService.Login | src/users/users.service.ts:280-303 | succeeds exactly when an active row has the username and its digest verifies the password; the answer is that row without its password; an unknown username fails "El usuario no existe"/400 and a wrong password "Invalid Credentials"/400 |
| UserService.UpdateUserSameUser | src/users/users.service.ts:317-332 | a zero id fails BadRequest before any lookup; an id without an active row fails NotFound; otherwise exactly the sent fields are replaced, the password as sent; all other rows and the id counter are unchanged, and the answer is `true`; a username or email held by another row makes the save fail with the uncaught storage "Duplicate entry" error, and only such a clash does |
| UserService.UpdateUserRehashed | src/users/users.service.ts:317-332 | the same update with a sent password stored as its digest, failing on a clash with the same storage error |
| UserService.UpdateOnlineStatus | src/users/users.service.ts:335-344 | no user fails NotFound; otherwise the row is saved from the record with `online` negated and its password kept, and the save fails, with the storage "Duplicate entry" error, exactly when the record's username or email is held by another row; the rest of the table, id counter included, is unchanged; for a fresh read only `online` changes |
| UserService.DeleteOne | src/users/users.service.ts:346-354 | the row with the id, if any, gets `deleted_at := now` and nothing else changes; the answer is always "ok" |
| UserService.LoginAndToggle | src/users/users.controller.ts:81-85 | a failed login fails the handler; a successful one negates the stored `online` flag, changes nothing else in the table, and answers the record with the new flag |
| AuthSession.GetSession | src/users/auth-session.service.ts:11-13 | the identity under the token, or none when the token has no session |
| AuthSession.SetSession | src/users/auth-session.service.ts:7-9 | afterwards the token gives the identity, every other token is unchanged |
| AuthSession.RemoveSession | src/users/auth-session.service.ts:15-17 | afterwards the token gives nothing, every other token is unchanged |
| AuthSession.SetOverwrites | src/users/auth-session.service.ts:7-9 | setting a token twice keeps only the later identity |
| AuthSession.RemoveAbsentIsNoOp | src/users/auth-session.service.ts:15-17 | removing a token without a session changes nothing |
| AuthSession.SetThenRemoveFresh | src/users/auth-session.service.ts:5-17 | setting then removing a fresh token restores the map |
| Ordering.SortBy | src/users/users.service.ts:130-148 | the rows reordered, keys ascending or descending as requested, unset `deleted_at` first when ascending |
| Ordering.Page | src/users/users.service.ts:92-93 | at most `take` consecutive elements after the first `skip`; empty exactly when `skip` is past the end or `take` is 0 |
| ServiceProperties.CreateThenLogin | src/users/users.service.ts:280-296 | a created account logs in with its password, getting its row without password, role `invite`, offline; any other password fails "Invalid Credentials"/400 |
| ServiceProperties.DuplicateCreateFails | src/users/users.service.ts:55-63 | creating a second account with an existing username or email fails "already exists"/400 |
| ServiceProperties.SoftDeleteHides | src/users/entities/user.entity.ts:65-68 | after a delete the row stays, stamped, and seen by queries that include deleted rows, but the id lookup, the username lookup and login no longer find it |
| ServiceProperties.ToggleTwiceRestores | src/users/users.service.ts:340-342 | toggling presence twice from a fresh read gives back the same table and record |
| ServiceProperties.LoginFlipsPresence | src/users/users.controller.ts:83-84 | after a successful login the stored `online` flag is the negation of the old one: logging in while online leaves the user offline |
| ServiceProperties.SortedListingIncludesDeleted | src/users/users.service.ts:169 | a first page as large as the table lists every row, soft-deleted ones too, for every recognised kind |
| ServiceProperties.PastTheEnd | src/users/users.service.ts:97-102 | with active rows present, a page past the end is an empty success for the id listing but a "No hay usuarios" failure for the date listing |
| ServiceProperties.PlaintextPasswordLocksOut | src/users/users.service.ts:327 | after an update that sends a password, the stored password is the plaintext and logging in with it fails "Invalid Credentials"/400 |
| ServiceProperties.RehashedPasswordLogsIn | src/users/users.service.ts:327 | with the password hashed before the save, logging in with the new password succeeds |
| ServiceProperties.Step | src/users/entities/user.entity.ts:20-32 | every request, failed or not, keeps the table's invariant |
| ServiceProperties.Run | src/users/entities/user.entity.ts:20-32 | after any history of requests the table keeps its invariant, so no two rows share a username or an email |
| ServiceProperties.RunKeepsRows | src/users/users.service.ts:346-354 | no history erases a row: deletion only stamps it |

## Left out

- Transport and wiring are not modelled: the RPC message-pattern dispatch, the validation pipe's wiring, the module/TypeORM/cache configuration, bootstrap, and environment validation with joi. They are I/O and framework setup.
- `ValidateUserExist` in `src/users/dto/search.dto.ts` is not modelled because nothing uses it. The definition of `DateEnum` is not part of this model. It is modelled from its three uses as `Create | Update | Delete`, plus `Other` for any other value.
- `findAllSortedByUpdate`, `findOnlineUsers`, `findByRole` and `findDeletedUsers` are commented out in the service, so they are not modelled.
- `Logger` calls are left out; they have no effect on results.
- Concurrency is left out. The model is sequential, so it does not show the lost update that can happen between the load and the save in update and toggle.
- argon2 salting is not modelled: `Hash` is deterministic here.
- argon2 `verify` throws on a malformed digest, such as a stored plaintext. That case is folded into `false`. Either way the login fails with status 400, only the message differs.
- The storage layer updates `updated_at` on every save and update by itself. The model leaves that column as it was.
- In the storage engine, `take: 0` means "no limit", and MySQL refuses an offset without a limit. The model reads 0 as an empty page.
- Negative and fractional `skip`, `limit` and ids are not modelled; they are naturals and integers. NaN is not modelled.
- Payloads the validation pipe does not check are not modelled beyond their declared types. `findAllUsers`, `findAllSortedByDate` and `removeUser` (`src/users/users.controller.ts:24-57`, `:103`) take plain payload types, so the pipe checks nothing there.
  - `order` is modelled as exactly `ASC` or `DESC`. In the source it may be missing, lowercase or any other value. TypeORM treats every value except `DESC`, `desc` and -1 as ascending, and sets no ORDER BY when `order` is missing.
  - UserService.DeleteOne: the id is modelled as an integer. A missing id makes `repository.update` reject with "Empty criteria(s) are not allowed", so "always 'ok'" holds only for a numeric id.
- UserStore.InsertRow: a refused insert leaves the auto-increment counter unchanged. InnoDB allocates the AUTO_INCREMENT value before the unique-index check and loses it on a duplicate-key failure. So after a refused insert, the ids the model gives to later rows are smaller than the database's: the gap is not modelled. For example, create A, create A again (refused), then create B: MySQL gives B id 3, the model gives it id 2.
- Validators.MinLength: a length is counted in Dafny characters, which are Unicode scalar values. class-validator's `@MinLength` uses validator.js `isLength`, which counts UTF-16 code units, counts a surrogate pair once, and does not count U+FE0E or U+FE0F. So seven letters followed by U+FE0F pass the model's 8-character password rule but fail the source's. Strings with lone surrogates cannot be expressed in the model at all.
- An explicit `null` property in a payload is not modelled. `@IsOptional` lets it through, and `Object.assign` would copy it.
- Usernames and emails are matched by exact string equality: in the unique indexes, in the lookups, and in login. The MySQL connection (`src/app.module.ts:25-33`) sets no collation, so the server's default collation applies. That is usually case-insensitive, and then `A@b.com` clashes with `a@b.com` and a login matches whatever the case. The model does not capture that.
- NestJS's translation of `NotFoundException`/`BadRequestException` into RPC error responses is outside the core; they stay distinct faults here.
- UserService.UpdateOnlineStatus: for a record whose id has no row, the storage would fall back to an insert without a password. The model reports that as a storage error with a fixed message and does not model the insert attempt.
- UserService.FindAllSortedByDate: rows with equal timestamps may come back in any order from the database, and the contract leaves that order open: the page is the window of some ordering of the whole table by the key. The model's own ordering is a stable sort of the rows in ascending id order, so its ties come out by ascending id for `ASC` and by descending id for `DESC`. No contract promises that tie order.
- UserService.CreateUser: the guard against a saved row without an id cannot fire, because the table always assigns a positive id. The contract therefore never shows its "No users found" failure.

## Findings

| source | as written | input that shows it | evidently intended | confidence | as-written member | corrected member |
|---|---|---|---|---|---|---|
| src/users/users.service.ts:327 | `Object.assign(user, dto)` copies a sent `password` into the row as plaintext, and the row is saved without hashing it | update an active user with `{id, password: "password2"}`, then log in with that username and "password2": the stored plaintext never verifies, so the login fails "Invalid Credentials" | a sent password is hashed before the save, as `createUser` does, so the user can log in with the new password | not executed | ServiceProperties.PlaintextPasswordLocksOut | ServiceProperties.RehashedPasswordLogsIn |
