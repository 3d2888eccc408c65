/** Option and Outcome: the shapes the model uses for PHP's null and for a call that may throw. */
module Wrappers {

  /** A value that may be absent (PHP's null). */
  datatype Option<+T> = None | Some(value: T)

  /** The result of a call that either returns normally or throws an `\Exception` with a message. */
  datatype Outcome<+E> = Pass | Fail(error: E)
}
