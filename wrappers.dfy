/** Plain `Option` and `Result` datatypes shared by the other modules. */
module Wrappers {

  /** A value that may be missing; `None` stands for Python's `None` or an absent entry. */
  datatype Option<+T> = None | Some(value: T)

  /** The outcome of an operation that can raise. */
  datatype Result<+T, +E> = Ok(value: T) | Err(error: E)
}
