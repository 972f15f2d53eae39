/** Types shared by every part of the model. */
module Common {

  datatype Option<+T> = None | Some(value: T)

  /** The sentinel errors of the authentication module, plus the two ways a database call can fail. */
  datatype Error =
    | Unavailable
    | InvalidCredentials
    | RateLimited
    | InvalidRefreshToken
    | RefreshReuse
    | Unauthenticated
    | UserExists
    | InvalidEmail
    | InvalidPassword
    | DatabaseError

  datatype Result<+T> = Success(value: T) | Failure(error: Error)

  newtype Byte = x: int | 0 <= x < 256

  type Bytes = seq<Byte>

  /** Instants and durations, in nanoseconds. */
  type Time = int

  const SECOND: Time := 1_000_000_000
  const MINUTE: Time := 60 * SECOND

  ghost predicate NoDuplicates<T>(s: seq<T>) {
    forall i, j :: 0 <= i < j < |s| ==> s[i] != s[j]
  }
}
