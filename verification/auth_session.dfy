/** `AuthSessionService` (src/users/auth-session.service.ts): an in-memory
    map from session token to a minimal identity, with no expiry. */
module AuthSession {
  import opened Wrappers

  /** The identity a session stands for. */
  datatype Identity = Identity(id: string, name: string)

  /** The `sessions` map. */
  type Sessions = map<string, Identity>

  /** `getSession(token)`: the identity, or `undefined` (`None`). */
  function GetSession(s: Sessions, token: string): (r: Option<Identity>)
    ensures r.Some? <==> token in s
    ensures r.Some? ==> r.value == s[token]
  {
    if token in s then Some(s[token]) else None
  }

  /** `setSession(token, user)`: the token now stands for the identity,
      replacing any earlier one; every other token is untouched. */
  function SetSession(s: Sessions, token: string, user: Identity): (s': Sessions)
    ensures GetSession(s', token) == Some(user)
    ensures forall t :: t != token ==> GetSession(s', t) == GetSession(s, t)
    ensures s'.Keys == s.Keys + {token}
  {
    s[token := user]
  }

  /** `removeSession(token)`: the token stands for nothing any more; every
      other token is untouched. */
  function RemoveSession(s: Sessions, token: string): (s': Sessions)
    ensures GetSession(s', token) == None
    ensures forall t :: t != token ==> GetSession(s', t) == GetSession(s, t)
    ensures s'.Keys == s.Keys - {token}
  {
    s - {token}
  }

  /** Setting a token twice keeps only the later identity. */
  lemma SetOverwrites(s: Sessions, token: string, first: Identity, second: Identity)
    ensures SetSession(SetSession(s, token, first), token, second) == SetSession(s, token, second)
  {
  }

  /** Removing a token that has no session changes nothing. */
  lemma RemoveAbsentIsNoOp(s: Sessions, token: string)
    requires token !in s
    ensures RemoveSession(s, token) == s
  {
  }

  /** Setting then removing a fresh token restores the sessions. */
  lemma SetThenRemoveFresh(s: Sessions, token: string, user: Identity)
    requires token !in s
    ensures RemoveSession(SetSession(s, token, user), token) == s
  {
  }
}
