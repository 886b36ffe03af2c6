/** Failure-aware values standing in for JavaScript's `undefined` and `NaN`
    (Option) and for a TypeError that ends the script (Result). */
module Wrappers {

  datatype Option<+T> = None | Some(value: T)

  datatype Result<+T, +E> = Success(value: T) | Failure(error: E)
}
