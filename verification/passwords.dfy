/**
 * `password_hash` and `password_verify`, kept uninterpreted: a handler is given
 * a pair of functions, and the only fact the model relies on about them is
 * `Sound`, the library's promise that a password verifies against its own hash.
 */
module Passwords {

  datatype Hasher = Hasher(hash: string -> string, verify: (string, string) -> bool)

  /** `password_verify($p, password_hash($p, ...))` holds for every password. */
  ghost predicate Sound(h: Hasher) {
    forall p :: h.verify(p, h.hash(p))
  }
}
