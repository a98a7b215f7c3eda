/**
 * An idealised model of bcrypt as the store uses it (`bcrypt.hash(pw, 10)` and
 * `bcrypt.compare(pw, hash)`). The salt is a parameter standing for the random salt,
 * and the digest is modelled as an injective record of the password, so that a hash
 * matches exactly the password it was made from.
 */
module Bcrypt {
  /** The cost factor every call site passes. */
  const Rounds := 10

  datatype Hash = Hash(rounds: nat, salt: nat, secret: string)

  /** `bcrypt.hash(password, Rounds)` with the given salt. */
  function HashPassword(password: string, salt: nat): (h: Hash)
    ensures h.rounds == Rounds && h.salt == salt
    ensures Compare(password, h)
  {
    Hash(Rounds, salt, password)
  }

  /** `bcrypt.compare(password, h)`. */
  predicate Compare(password: string, h: Hash) {
    h.secret == password
  }

  /** A hash accepts the password it was made from and no other, whatever the salt. */
  lemma CompareHashPassword(password: string, other: string, salt: nat)
    ensures Compare(password, HashPassword(other, salt)) <==> password == other
  {
  }
}
