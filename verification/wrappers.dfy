/** Option and Result: the absent/present values and the thrown-or-returned
    outcomes of the extension's JavaScript, as plain datatypes. */
module Wrappers {

  datatype Option<+T> = None | Some(value: T)

  /** A call that either returns a value or throws an error. */
  datatype Result<+R, +E> = Success(value: R) | Failure(error: E)
}
