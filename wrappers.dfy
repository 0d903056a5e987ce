/** Optional values and failure-carrying results, for the places where the
    source uses `undefined`/`null` or throws. */
module Wrappers {

  datatype Option<+T> = None | Some(value: T)

  /** The outcome of an operation that returns a value or throws. */
  datatype Result<+T, +E> = Ok(value: T) | Err(error: E)

  /** The outcome of an operation that returns nothing or throws. */
  datatype Outcome<+E> = Pass | Fail(error: E)
}
