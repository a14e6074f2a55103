/** Identifiers, optional values, the error kinds handlers report, and the
    caller that the authentication middleware hands to protected handlers. */
module Common {

  /** A user's ObjectId. */
  type UserId = nat

  /** The ObjectId of a stored question, answer, comment or notification. */
  type Id = nat

  /** A `Date`, as an integer that orders instants. */
  type Time = int

  datatype Option<T> = None | Some(value: T)

  /** What a handler reports instead of an HTTP error status. */
  datatype Error =
    | Unauthorized    // 401: the token names no existing account
    | NotFound        // 404: the question, answer, user or notification does not exist
    | Forbidden       // 403: not the owner, not an admin, or a banned account
    | SelfVote        // 400: voting on one's own question or answer
    | AlreadyAnswered // 400: the caller already answered this question
    | CannotBanAdmin  // 400: the target of a ban toggle is an admin
    | Invalid         // 400 from a validator the handler reads, or a schema check failing on save

  datatype Outcome = Ok | Err(error: Error)

  datatype Result<T> = Success(value: T) | Failure(error: Error)

  /** The account the `auth` middleware resolved from the request's token. */
  datatype Caller = Caller(id: UserId, username: string, role: string)

  predicate IsAdmin(c: Caller) {
    c.role == "admin"
  }

  /** The controllers' "ownership or admin" test. */
  predicate OwnerOrAdmin(author: UserId, c: Caller) {
    author == c.id || IsAdmin(c)
  }
}
