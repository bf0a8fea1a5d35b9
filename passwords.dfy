/**
 * A stand-in for the salted one-way password hasher. The digest is a symbolic
 * term: two digests are equal exactly when salt and secret are, and nothing
 * but `Verify` looks inside one (its constructor has no named fields).
 */
module PasswordContext {
  /** The random salt the hasher draws for each call, passed in here. */
  type Salt = nat

  datatype Digest = Crypt(Salt, string)

  datatype PasswordHash = PasswordHash(salt: Salt, digest: Digest)

  /** Hashes secret with a fresh salt. */
  function Encrypt(secret: string, salt: Salt): (h: PasswordHash)
    ensures h.salt == salt
    ensures Verify(secret, h)
    ensures forall other :: Verify(other, h) ==> other == secret
  {
    PasswordHash(salt, Crypt(salt, secret))
  }

  /** Rehashes secret with the salt stored in h and compares. */
  function Verify(secret: string, h: PasswordHash): bool {
    h.digest == Crypt(h.salt, secret)
  }

  /** Hashing one password under two salts gives two hashes, both of which verify it. */
  lemma SaltedHashesDiffer(secret: string, s1: Salt, s2: Salt)
    requires s1 != s2
    ensures Encrypt(secret, s1) != Encrypt(secret, s2)
    ensures Verify(secret, Encrypt(secret, s1)) && Verify(secret, Encrypt(secret, s2))
  {
  }
}
