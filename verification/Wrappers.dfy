/** The two result shapes the rest of the model shares. */
module Wrappers {
  datatype Option<+T> = None | Some(value: T)

  /** tl::expected: a value, or the reason there is none. */
  datatype Result<+T, +E> = Ok(value: T) | Err(error: E)
}
