/** Optional values and results, the stock shapes used throughout the model. */
module Wrappers {

  /** `None` stands for JavaScript's `null`/`undefined` where the source tests for absence. */
  datatype Option<+T> = None | Some(value: T)

  /** A computation that either produced a value or threw an exception. */
  datatype Result<+T, +E> = Ok(value: T) | Err(error: E)
}
