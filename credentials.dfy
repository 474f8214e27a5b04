/** bcrypt password hashing, kept symbolic: a hash is a term that records
    the random salt and the password it was computed from, and only
    `VerifyPassword` looks inside it. */
module Credentials {
  import opened Common

  datatype PasswordHash = Bcrypt(salt: seq<Byte>, secret: string)

  /** Hashing with a fresh salt; the hash accepts the password it was made
      from and no other. */
  function HashPassword(password: string, salt: seq<Byte>): (h: PasswordHash)
    ensures VerifyPassword(password, h)
    ensures forall other :: VerifyPassword(other, h) ==> other == password
  {
    Bcrypt(salt, password)
  }

  predicate VerifyPassword(password: string, h: PasswordHash)
  {
    h.secret == password
  }
}
