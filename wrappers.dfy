/** Option and Result values for lookups that may find nothing and computations that may raise. */
module Wrappers {

  /** A query result: `None` stands for Python's `None` or an `IndexError` on `[0]`. */
  datatype Option<+T> = None | Some(value: T) {

    /** The value, or `default` when there is none (Python's `x if x else default`). */
    function GetOr(default: T): T {
      match this
      case Some(v) => v
      case None => default
    }
  }

  /** A computation that returns a value or raises an exception. */
  datatype Result<+T, +E> = Ok(value: T) | Err(error: E)
}
