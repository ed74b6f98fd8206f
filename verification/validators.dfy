/** The class-validator checks the request DTOs are decorated with, over the
    raw property values of an incoming payload. `IsEmail` is abstract: every
    check that needs it takes the email recogniser as a parameter. */
module Validators {
  import opened Wrappers
  import UserEntity

  /** A property value as it arrives in a payload. */
  datatype Value = Str(s: string) | Num(n: int) | Bool(b: bool)

  /** A property of a payload: `None` when the property is missing. */
  type Field = Option<Value>

  /** `@IsNotEmpty()`: present and not the empty string. */
  predicate IsNotEmpty(v: Field) {
    v.Some? && v.value != Str("")
  }

  /** `@IsString()`. */
  predicate IsString(v: Field) {
    v.Some? && v.value.Str?
  }

  /** `@MinLength(n)`: a string of at least `n` characters. */
  predicate MinLength(v: Field, n: nat) {
    v.Some? && v.value.Str? && |v.value.s| >= n
  }

  /** `@IsEmail()`: a string the email recogniser accepts. */
  predicate IsEmail(v: Field, isEmail: string -> bool) {
    v.Some? && v.value.Str? && isEmail(v.value.s)
  }

  /** `@IsNumber()`. */
  predicate IsNumber(v: Field) {
    v.Some? && v.value.Num?
  }

  /** `@IsBoolean()`. */
  predicate IsBoolean(v: Field) {
    v.Some? && v.value.Bool?
  }

  /** `@IsEnum(UserRole)`: one of the role labels. */
  predicate IsRole(v: Field) {
    v.Some? && v.value.Str? && UserEntity.ParseRole(v.value.s).Some?
  }

  /** `@IsOptional()`: a missing property skips the property's other checks. */
  predicate Optional(v: Field, checks: bool) {
    v.None? || checks
  }

  /** The string inside a property that is missing or a string. */
  function OptString(v: Field): (r: Option<string>)
    requires v.None? || v.value.Str?
    ensures r.Some? <==> v.Some?
    ensures r.Some? ==> v.value == Str(r.value)
  {
    if v.Some? then Some(v.value.s) else None
  }
}
