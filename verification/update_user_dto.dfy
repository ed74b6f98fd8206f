/** `UpdateUserDto` (src/users/dto/update-user.dto.ts): the payload of
    `updateUser`, a required numeric id and optional replacement fields. */
module UpdateUserInput {
  import opened Wrappers
  import opened Validators
  import opened UserEntity
  import CreateUserInput

  /** The payload as received. */
  datatype RawUpdateUser = RawUpdateUser(
    id: Field,
    username: Field,
    email: Field,
    email_recuperacion: Field,
    password: Field,
    rol: Field,
    online: Field)

  /** The payload once validated: `None` marks a property that was not sent. */
  datatype UpdateUserDto = UpdateUserDto(
    id: int,
    username: Option<string>,
    email: Option<string>,
    email_recuperacion: Option<string>,
    password: Option<string>,
    rol: Option<Role>,
    online: Option<bool>)

  /** The decorator stack of each property, in source order. */
  predicate Accepts(raw: RawUpdateUser, isEmail: string -> bool) {
    && IsNumber(raw.id)
    && Optional(raw.username, IsString(raw.username))
    && Optional(raw.email, IsEmail(raw.email, isEmail))
    && Optional(raw.email_recuperacion, IsEmail(raw.email_recuperacion, isEmail))
    && Optional(raw.password, IsString(raw.password)
                              && MinLength(raw.password, CreateUserInput.MinPasswordLength))
    && Optional(raw.rol, IsRole(raw.rol))
    && Optional(raw.online, IsBoolean(raw.online))
  }

  /** The validation pipe for updates. The id must be a number; each other
      property may be missing, and when sent must have its type (emails
      accepted by the recogniser, a password of at least eight characters, a
      role label, a boolean). The DTO carries exactly what was sent. */
  function Validate(raw: RawUpdateUser, isEmail: string -> bool): (r: Option<UpdateUserDto>)
    ensures r.Some? <==> Accepts(raw, isEmail)
    ensures r.Some? <==>
      && raw.id.Some? && raw.id.value.Num?
      && (raw.username.Some? ==> raw.username.value.Str?)
      && (raw.email.Some? ==> raw.email.value.Str? && isEmail(raw.email.value.s))
      && (raw.email_recuperacion.Some? ==>
            raw.email_recuperacion.value.Str? && isEmail(raw.email_recuperacion.value.s))
      && (raw.password.Some? ==>
            raw.password.value.Str? && |raw.password.value.s| >= CreateUserInput.MinPasswordLength)
      && (raw.rol.Some? ==> raw.rol.value.Str? && raw.rol.value.s in {"sudo", "admin", "invite"})
      && (raw.online.Some? ==> raw.online.value.Bool?)
    ensures r.Some? ==>
      && raw.id == Some(Num(r.value.id))
      && (r.value.username.Some? <==> raw.username.Some?)
      && (r.value.email.Some? <==> raw.email.Some?)
      && (r.value.email_recuperacion.Some? <==> raw.email_recuperacion.Some?)
      && (r.value.password.Some? <==> raw.password.Some?)
      && (r.value.rol.Some? <==> raw.rol.Some?)
      && (r.value.online.Some? <==> raw.online.Some?)
      && (r.value.username.Some? ==> raw.username == Some(Str(r.value.username.value)))
      && (r.value.email.Some? ==> raw.email == Some(Str(r.value.email.value)))
      && (r.value.email_recuperacion.Some? ==>
            raw.email_recuperacion == Some(Str(r.value.email_recuperacion.value)))
      && (r.value.password.Some? ==> raw.password == Some(Str(r.value.password.value)))
      && (r.value.rol.Some? ==> raw.rol == Some(Str(Label(r.value.rol.value))))
      && (r.value.online.Some? ==> raw.online == Some(Bool(r.value.online.value)))
  {
    if Accepts(raw, isEmail) then
      Some(UpdateUserDto(
        raw.id.value.n,
        OptString(raw.username),
        OptString(raw.email),
        OptString(raw.email_recuperacion),
        OptString(raw.password),
        if raw.rol.Some? then ParseRole(raw.rol.value.s) else None,
        if raw.online.Some? then Some(raw.online.value.b) else None))
    else
      None
  }

  /** A payload holding only a numeric id passes validation, whatever the
      id: the zero id is refused later, by the service. */
  lemma OnlyIdAccepted(n: int, isEmail: string -> bool)
    ensures Validate(RawUpdateUser(Some(Num(n)), None, None, None, None, None, None), isEmail)
         == Some(UpdateUserDto(n, None, None, None, None, None, None))
  {
  }
}
