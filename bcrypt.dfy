/**
 * The password hashing capability, kept abstract: a hash of a plaintext
 * under a salt, and a comparison of a plaintext against a stored hash.
 * The salt stands for the randomness of `hashSync`.
 */
module Bcrypt {
  datatype Hasher = Hasher(hash: (string, string) -> string, compare: (string, string) -> bool)

  /**
   * What the core relies on: every plaintext verifies against its own hash,
   * and a hash is never the plaintext itself.
   */
  ghost predicate Sound(h: Hasher) {
    forall p, salt :: h.compare(p, h.hash(p, salt)) && h.hash(p, salt) != p
  }
}
