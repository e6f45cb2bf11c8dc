/** The bcrypt library as the core uses it: `hash(password, 10)` and `compare(password, hash)`.
    The random salt that `hash` draws is a parameter. */
module Bcrypt {
  import Decimal
  import Digest

  /** The cost factor the `beforeCreate` hook passes to `bcrypt.hash`. */
  const SaltRounds: nat := 10

  /** A stored bcrypt hash: cost factor, salt and checksum (the `$2b$10$...` string). */
  datatype BcryptHash = BcryptHash(cost: nat, salt: string, checksum: nat)

  function Checksum(cost: nat, salt: string, password: string): nat {
    Digest.Fingerprint(Decimal.NatToDec(cost) + "$" + salt + "$" + password)
  }

  /** `bcrypt.compare`: recomputes the checksum with the cost and salt stored in the hash. */
  predicate Compare(password: string, hash: BcryptHash) {
    hash.checksum == Checksum(hash.cost, hash.salt, password)
  }

  /** `bcrypt.hash(password, 10)` with the given salt; the result verifies against the
      password it was made from. */
  function Hash(password: string, salt: string): (h: BcryptHash)
    ensures h.cost == SaltRounds && h.salt == salt
    ensures Compare(password, h)
  {
    BcryptHash(SaltRounds, salt, Checksum(SaltRounds, salt, password))
  }

  /** For a cost-10 hash, `compare` accepts a password exactly when hashing it again with
      the stored salt reproduces the stored hash. */
  lemma CompareIsRehash(password: string, hash: BcryptHash)
    requires hash.cost == SaltRounds
    ensures Compare(password, hash) <==> Hash(password, hash.salt) == hash
  {
  }
}
