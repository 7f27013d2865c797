/** Option, Result and Outcome: the failure-carrying values that stand in for
    Rust's `Option<T>`, `Result<T, LemmyError>` and `Result<(), LemmyError>`. */
module Wrappers {

  datatype Option<+T> = None | Some(value: T)

  /** `Result<T, E>`: a value or the error that replaced it. */
  datatype Result<+T, +E> = Success(value: T) | Failure(error: E)

  /** `Result<(), E>`: success carries nothing. */
  datatype Outcome<+E> = Pass | Fail(error: E)

  /** The error an outcome carries, if any. */
  function ErrorOf<E>(o: Outcome<E>): Option<E>
  {
    match o
    case Pass => None
    case Fail(e) => Some(e)
  }

  /** The error a result carries, if any; the success value is dropped. */
  function FailureOf<T, E>(r: Result<T, E>): Option<E>
  {
    match r
    case Success(_) => None
    case Failure(err) => Some(err)
  }
}
