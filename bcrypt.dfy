/**
 * A stand-in for bcrypt's `hash` and `compare`. bcrypt itself is not part of
 * this model; what the routes rely on is that a password compares equal to
 * its own hash and to no other password's hash, and this stand-in has exactly
 * that property (it is injective and never empty).
 */
module Bcrypt {

  const Prefix := "$2a$10$"

  function Hash(password: string): (h: string)
    ensures h != []
  {
    Prefix + password
  }

  predicate Compare(password: string, hash: string) {
    hash == Hash(password)
  }

  /** A password matches its own hash, and only its own hash. */
  lemma CompareHash(password: string, candidate: string)
    ensures Compare(candidate, Hash(password)) <==> candidate == password
  {
    if Compare(candidate, Hash(password)) {
      assert Hash(candidate)[|Prefix|..] == candidate;
      assert Hash(password)[|Prefix|..] == password;
    }
  }
}
