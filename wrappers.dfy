/** Option and Result values for the source's `None` values and for its
    exceptions, which the model turns into tagged results. */
module Wrappers {

  /** Python's `value or None`. */
  datatype Option<+T> = None | Some(value: T)

  /** The value of a call that either returns or raises. */
  datatype Result<+T, +E> = Success(value: T) | Failure(error: E)

  function Min(a: int, b: int): int { if a <= b then a else b }
}
