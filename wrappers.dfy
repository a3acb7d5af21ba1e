/** Optional values and results with an error, standing for Ruby's nil and raised exceptions. */
module Wrappers {

  /** A value that may be absent (Ruby's nil). */
  datatype Option<+T> = None | Some(value: T) {
    /** The value, or `default` when absent (Ruby's `x || default` on a non-boolean). */
    function GetOr(default: T): T {
      match this
      case Some(v) => v
      case None => default
    }
  }

  /** The outcome of an operation that may raise. */
  datatype Result<+R, +E> = Ok(value: R) | Err(error: E)

  /** The outcome of an operation that returns nothing of interest but may raise. */
  datatype Outcome<+E> = Pass | Fail(error: E)
}
