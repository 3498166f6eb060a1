/** Optional values (the source's `null` references) and results that carry an error
    (the exceptions and refused operations of the source). */
module Wrappers {

  datatype Option<+T> = None | Some(value: T) {

    /** The wrapped value, or `default` when there is none. */
    function GetOr(default: T): T {
      match this
      case Some(v) => v
      case None => default
    }
  }

  /** The outcome of an operation that the source can refuse. */
  datatype Result<+R> = Success(value: R) | Failure(error: string)
}
