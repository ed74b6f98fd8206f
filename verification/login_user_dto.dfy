/** `LoginUserDto` (src/users/dto/login-user.dto.ts): the `login` payload. */
module LoginUserInput {
  import opened Wrappers
  import opened Validators
  import CreateUserInput

  /** The payload as received. */
  datatype RawLoginUser = RawLoginUser(username: Field, password: Field)

  /** The payload once validated. */
  datatype LoginUserDto = LoginUserDto(username: string, password: string)

  /** The decorator stack of each property, in source order. */
  predicate Accepts(raw: RawLoginUser) {
    && IsNotEmpty(raw.username) && IsString(raw.username)
    && IsNotEmpty(raw.password) && IsString(raw.password)
    && MinLength(raw.password, CreateUserInput.MinPasswordLength)
  }

  /** The validation pipe for logins. The length rule subsumes the
      non-empty rule on the password, so a payload is accepted exactly when
      the username is a non-empty string and the password a string of at
      least eight characters. */
  function Validate(raw: RawLoginUser): (r: Option<LoginUserDto>)
    ensures r.Some? <==> Accepts(raw)
    ensures r.Some? <==>
      && raw.username.Some? && raw.username.value.Str? && raw.username.value.s != ""
      && raw.password.Some? && raw.password.value.Str?
      && |raw.password.value.s| >= CreateUserInput.MinPasswordLength
    ensures r.Some? ==> r.value.username != "" && |r.value.password| >= CreateUserInput.MinPasswordLength
    ensures r.Some? ==> raw == RawLoginUser(Some(Str(r.value.username)), Some(Str(r.value.password)))
  {
    if Accepts(raw) then
      Some(LoginUserDto(raw.username.value.s, raw.password.value.s))
    else
      None
  }
}
