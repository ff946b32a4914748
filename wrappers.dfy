/** Option and Result: absent references and error returns of the catalog. */
module Wrappers {

  /** A value that may be absent: a nullable foreign key or date. */
  datatype Option<+T> = None | Some(value: T) {
    function GetOr(default: T): T {
      match this
      case Some(v) => v
      case None => default
    }
  }

  /** The outcome of an operation that can fail with an error value. */
  datatype Result<+R, +E> = Success(value: R) | Failure(error: E)
}
