/** Option and error-carrying results shared by the backend model. */
module Wrappers {

  datatype Option<+T> = None | Some(value: T)

  /** The exception classes the services throw. */
  datatype ErrorKind =
    | NotFound      // jakarta.persistence.EntityNotFoundException
    | Rejected      // RuntimeException raised by a business rule
    | Forbidden     // SecurityException

  datatype Failure = Failure(kind: ErrorKind, message: string)

  /** The value a service returns, or the exception it throws. */
  datatype Result<+T> = Ok(value: T) | Err(error: Failure)

  /** A service that returns nothing (`void`) or throws. */
  datatype Outcome = Done | Fail(error: Failure)
}
