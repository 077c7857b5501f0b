/** Failure-carrying values used in place of the exceptions and `default` returns of the
    C# code. */
module Wrappers {

  /** A value or nothing; stands for a C# reference that may be `null` / `default(T)`. */
  datatype Option<+T> = None | Some(value: T)

  /** A value, or the exception that the C# operation would have thrown instead. */
  datatype Result<+T, +E> = Success(value: T) | Failure(error: E)

  /** A `void` C# operation that either returns normally or throws. */
  datatype Outcome<+E> = Pass | Fail(error: E)
}
