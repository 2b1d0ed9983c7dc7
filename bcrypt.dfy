/** The two bcrypt calls the user model makes, `bcrypt.hash(password, 8)` and
    `bcrypt.compare(plain, hash)`. The real hash is salted and one-way; here it is an injective
    stand-in that keeps the one fact the core depends on: a hash matches exactly the plain text it
    was made from, and it never equals that plain text. */
module Bcrypt {

  /** The marker every stored hash starts with (bcrypt's version and cost of 8 rounds). */
  const HASH_PREFIX: string := "$2b$08$"

  /** `bcrypt.hash(plain, 8)`, without the salt. */
  function Hash(plain: string): (h: string)
    ensures |h| > |plain|
    ensures IsHashed(h)
  {
    HASH_PREFIX + plain
  }

  /** `bcrypt.compare(plain, hash)`: whether `hash` was made from `plain`. */
  predicate Compare(plain: string, hash: string)
  {
    hash == Hash(plain)
  }

  /** The value has the shape of a stored bcrypt hash. */
  predicate IsHashed(s: string)
  {
    |HASH_PREFIX| <= |s| && s[..|HASH_PREFIX|] == HASH_PREFIX
  }

  /** Different plain texts never share a hash. */
  lemma HashInjective(p: string, q: string)
    ensures Hash(p) == Hash(q) <==> p == q
  {
    if Hash(p) == Hash(q) {
      assert p == Hash(p)[|HASH_PREFIX|..];
      assert q == Hash(q)[|HASH_PREFIX|..];
    }
  }

  /** A hash matches the plain text it was made from and no other. */
  lemma CompareHash(p: string, q: string)
    ensures Compare(q, Hash(p)) <==> q == p
  {
    HashInjective(p, q);
  }

  /** Hashing a stored hash a second time makes the original password stop matching: the reason
      the pre-save hook hashes only a modified password. */
  lemma RehashBreaksCompare(p: string)
    ensures !Compare(p, Hash(Hash(p)))
  {
    HashInjective(Hash(p), p);
  }
}
