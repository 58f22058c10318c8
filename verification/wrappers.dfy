/** Failure-carrying datatypes shared by every module of the model. */
module Wrappers {

  /** An optional value: Go's "value, ok" pairs and nil-able results. */
  datatype Option<+T> = None | Some(value: T)

  /** A value or an error: Go's "(value, error)" returns. */
  datatype Result<+R, +E> = Success(value: R) | Failure(error: E) {
    predicate IsFailure() {
      Failure?
    }
  }
}
