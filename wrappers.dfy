/** Optional values and results with an error, used for C# nullable values and for operations that throw. */
module Wrappers {

  /** A value that may be absent (a C# nullable reference or `Nullable<T>`). */
  datatype Option<+T> = None | Some(value: T) {

    /** The value, or `default` when absent (C#'s `??` operator). */
    function GetOr(default: T): T {
      match this
      case Some(v) => v
      case None => default
    }
  }

  /** The outcome of an operation that either produces a value or throws. */
  datatype Result<+T, +E> = Success(value: T) | Failure(error: E)
}
