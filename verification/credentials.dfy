/** The credential hasher: argon2's `hash` and `verify`.
    The digest is modelled by an injective stand-in, the password behind a
    fixed argon2id-style prefix; salting is not modelled, so hashing the same
    password twice gives the same digest here. */
module Credentials {

  const DigestPrefix: string := "$argon2id$"

  /** `argon2.hash(password)`. */
  function Hash(password: string): (digest: string)
    ensures |digest| == |DigestPrefix| + |password|
    ensures digest[..|DigestPrefix|] == DigestPrefix
  {
    DigestPrefix + password
  }

  /** `argon2.verify(digest, password)`: true exactly when the digest is the
      hash of the password. */
  predicate Verify(digest: string, password: string) {
    digest == Hash(password)
  }

  /** Two passwords share a digest only if they are equal, so verifying a
      digest against any other password fails. */
  lemma HashInjective(p: string, q: string)
    requires Hash(p) == Hash(q)
    ensures p == q
  {
    assert p == Hash(p)[|DigestPrefix|..];
    assert q == Hash(q)[|DigestPrefix|..];
  }

  /** A digest is never the password it was made from: a plaintext stored
      where a digest is expected never verifies against itself. */
  lemma HashNeverPlaintext(p: string)
    ensures Hash(p) != p
    ensures !Verify(p, p)
  {
  }

  /** The hash round trip: a password verifies against its own digest
      and against no other password's. */
  lemma VerifyRoundTrip(p: string, q: string)
    ensures Verify(Hash(p), p)
    ensures Verify(Hash(p), q) <==> p == q
  {
    if Verify(Hash(p), q) {
      HashInjective(p, q);
    }
  }
}
