/** The `User` entity (src/users/entities/user.entity.ts): the role enum,
    the record without its password, and the stored record. */
module UserEntity {
  import opened Wrappers

  /** `UserRole`: the three roles, with their stored labels. */
  datatype Role = Sudo | Admin | Invite

  /** The label a role is stored and transmitted as. */
  function Label(r: Role): (s: string)
    ensures s in {"sudo", "admin", "invite"}
  {
    match r
    case Sudo => "sudo"
    case Admin => "admin"
    case Invite => "invite"
  }

  /** The role a label names, if any (the check `IsEnum(UserRole)` makes). */
  function ParseRole(s: string): (r: Option<Role>)
    ensures r.Some? <==> s in {"sudo", "admin", "invite"}
    ensures r.Some? ==> Label(r.value) == s
  {
    if s == "sudo" then Some(Sudo)
    else if s == "admin" then Some(Admin)
    else if s == "invite" then Some(Invite)
    else None
  }

  /** Labels and roles are in one-to-one correspondence. */
  lemma RoleLabelRoundTrip(r: Role)
    ensures ParseRole(Label(r)) == Some(r)
  {
  }

  /** The column default of `rol`. */
  const DefaultRole: Role := Invite

  /** Timestamps are abstract instants; the clock is a parameter. */
  type Time = nat

  /** `UserWithoutPassword`: every column of the entity except `password`.
      `deleted_at` is `None` while the row is active. */
  datatype UserWithoutPassword = UserWithoutPassword(
    id: int,
    username: string,
    email: string,
    email_recuperacion: string,
    rol: Role,
    online: bool,
    created_at: Time,
    updated_at: Time,
    deleted_at: Option<Time>)

  /** `User`: the stored row, `UserWithoutPassword` plus the password digest. */
  datatype User = User(
    id: int,
    username: string,
    email: string,
    email_recuperacion: string,
    rol: Role,
    online: bool,
    created_at: Time,
    updated_at: Time,
    deleted_at: Option<Time>,
    password: string)

  /** `const { password, ...rest } = user`: drop the password, keep the rest. */
  function StripPassword(u: User): (p: UserWithoutPassword)
    ensures p.id == u.id && p.username == u.username && p.email == u.email
    ensures p.email_recuperacion == u.email_recuperacion
    ensures p.rol == u.rol && p.online == u.online
    ensures p.created_at == u.created_at && p.updated_at == u.updated_at
    ensures p.deleted_at == u.deleted_at
  {
    UserWithoutPassword(u.id, u.username, u.email, u.email_recuperacion,
                        u.rol, u.online, u.created_at, u.updated_at, u.deleted_at)
  }

  /** The stored row made of a password-less record and a digest. */
  function WithPassword(p: UserWithoutPassword, password: string): (u: User)
    ensures u.password == password
    ensures StripPassword(u) == p
  {
    User(p.id, p.username, p.email, p.email_recuperacion,
         p.rol, p.online, p.created_at, p.updated_at, p.deleted_at, password)
  }

  /** `User` is exactly `UserWithoutPassword` plus `password`: splitting a row
      and joining it again gives the row back. */
  lemma SplitJoin(u: User)
    ensures WithPassword(StripPassword(u), u.password) == u
  {
  }

  /** A row is active while its soft-delete column is unset. */
  predicate Active(u: User) {
    u.deleted_at.None?
  }
}
