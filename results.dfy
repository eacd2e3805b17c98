/** Error-carrying results, standing in for the exceptions the C# and C code throws or returns. */
module Results {

  datatype Option<T> = None | Some(value: T) {
    function GetOr(default: T): T {
      match this
      case Some(v) => v
      case None => default
    }
  }

  /** The value an operation returns, or the exception it throws. */
  datatype Result<T, E> = Success(value: T) | Failure(error: E)

  /** A void operation: it completes, or it throws. */
  datatype Outcome<E> = Pass | Fail(error: E)
}
