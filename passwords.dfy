/**
  The password-hashing library, taken as given: a salted one-way `hash` and
  its `check`. The salt is the library's randomness, so it is an argument.
  The only thing the journal relies on is that a hash made from a password
  verifies against that password, whatever the salt.
*/
module Passwords {

  /** generate_password_hash(password) with its salt, and check_password_hash(stored, submitted). */
  datatype Hasher = Hasher(hash: (string, string) -> string, check: (string, string) -> bool)

  ghost predicate Sound(h: Hasher) {
    forall password, salt :: h.check(h.hash(password, salt), password)
  }
}
