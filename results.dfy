/** Error kinds raised by the two services and the result types that carry them. */
module Results {

  /** Every ErrorCode the services throw, whether through AppException or UserException. */
  datatype ErrorCode =
    | DuplicatedUserName
    | UserNameNotFound
    | InvalidPassword
    | PostNotFound
    | InvalidPermission

  /** A repository lookup that may find nothing (java.util.Optional). */
  datatype Option<+T> = None | Some(value: T)

  /** A service call that returns a value or throws an exception carrying an ErrorCode. */
  datatype Result<+T> = Success(value: T) | Failure(error: ErrorCode)

  /** A state-changing call: the table afterwards and what the call returned. */
  datatype Outcome<+S, +T> = Outcome(next: S, result: Result<T>)
}
