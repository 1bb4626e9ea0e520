/** Option and Result, the model's stand-ins for C#'s nullable references and thrown exceptions. */
module Wrappers {

  /** A value that may be absent: what FirstOrDefault returns for a reference type. */
  datatype Option<+T> = None | Some(value: T) {
    function GetOr(default: T): T {
      match this
      case Some(v) => v
      case None => default
    }
  }

  /** Either a value or the error the source would have thrown instead. */
  datatype Result<+R, +E> = Success(value: R) | Failure(error: E)
}
