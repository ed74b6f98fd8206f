/** `CreateUserDto` (src/users/dto/create-user.dto.ts): the payload of
    `createUser`, and the validation the request pipe applies to it. */
module CreateUserInput {
  import opened Wrappers
  import opened Validators

  /** The password length the validators demand. */
  const MinPasswordLength: nat := 8

  /** The payload as received: the four declared properties, each possibly
      missing or of the wrong type. */
  datatype RawCreateUser = RawCreateUser(
    username: Field,
    email: Field,
    email_recuperacion: Field,
    password: Field)

  /** The payload once validated. `rol`, `online` and `id` are not part of it. */
  datatype CreateUserDto = CreateUserDto(
    username: string,
    email: string,
    email_recuperacion: Option<string>,
    password: string)

  /** The decorator stack of each property, in source order. */
  predicate Accepts(raw: RawCreateUser, isEmail: string -> bool) {
    && IsNotEmpty(raw.username) && IsString(raw.username)
    && IsNotEmpty(raw.email) && IsEmail(raw.email, isEmail)
    && Optional(raw.email_recuperacion, IsEmail(raw.email_recuperacion, isEmail))
    && IsNotEmpty(raw.password) && IsString(raw.password)
    && MinLength(raw.password, MinPasswordLength)
  }

  /** The validation pipe: the typed DTO when every check passes, `None`
      (a rejected request) otherwise. An accepted payload has a non-empty
      username, a non-empty email the recogniser accepts, a recovery email
      that is missing or accepted, and a password of at least eight
      characters; and the DTO carries exactly the payload's strings. */
  function Validate(raw: RawCreateUser, isEmail: string -> bool): (r: Option<CreateUserDto>)
    ensures r.Some? <==> Accepts(raw, isEmail)
    ensures r.Some? <==>
      && raw.username.Some? && raw.username.value.Str? && raw.username.value.s != ""
      && raw.email.Some? && raw.email.value.Str? && raw.email.value.s != ""
      && isEmail(raw.email.value.s)
      && (raw.email_recuperacion.Some? ==>
            raw.email_recuperacion.value.Str? && isEmail(raw.email_recuperacion.value.s))
      && raw.password.Some? && raw.password.value.Str?
      && |raw.password.value.s| >= MinPasswordLength
    ensures r.Some? ==>
      && raw.username == Some(Str(r.value.username))
      && raw.email == Some(Str(r.value.email))
      && raw.password == Some(Str(r.value.password))
      && (r.value.email_recuperacion.Some? <==> raw.email_recuperacion.Some?)
      && (r.value.email_recuperacion.Some? ==>
            raw.email_recuperacion == Some(Str(r.value.email_recuperacion.value)))
  {
    if Accepts(raw, isEmail) then
      Some(CreateUserDto(raw.username.value.s, raw.email.value.s,
                         OptString(raw.email_recuperacion), raw.password.value.s))
    else
      None
  }
}
