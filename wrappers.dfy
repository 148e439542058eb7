/** Small failure-carrying datatypes shared by the other modules. */
module Wrappers {

  /** A value that may be absent (PHP's FALSE or an unset entry). */
  datatype Option<+T> = None | Some(value: T)

  /** The outcome of an operation that may throw: Fail carries the exception message. */
  datatype Outcome<+E> = Pass | Fail(error: E)
}
