/** Small failure-carrying datatypes shared by the other modules. */
module Wrappers {

  /** A value that may be absent: Python's `Optional[...]`, with `None` for `None`. */
  datatype Option<+T> = None | Some(value: T)

  /** The value of an operation that either returns or raises. */
  datatype Result<+T, +E> = Success(value: T) | Failure(error: E)

  /** A check that either passes silently or raises. */
  datatype Outcome<+E> = Pass | Fail(error: E)
}
