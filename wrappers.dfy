/** The optional value that the source expresses with std::optional, and a result with an error. */
module Wrappers {
  datatype Option<+T> = None | Some(value: T)

  /** A value or the reason there is none, as a `bool` return with an error out-parameter. */
  datatype Result<+T, +E> = Ok(value: T) | Err(error: E)
}
