/** Option and Result, for the places where the scripts return nothing or raise. */
module Wrappers {
  datatype Option<T> = None | Some(value: T)

  /** The Python exceptions the modelled scripts can raise on their own. */
  datatype PyError =
    | IndexError   // a list subscript out of range
    | ValueError   // `range()` called with a zero step
    | NameError    // a name read before any assignment bound it

  datatype Result<T> = Success(value: T) | Failure(error: PyError)
}
