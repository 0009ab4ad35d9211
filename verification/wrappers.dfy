/** The optional-value and outcome datatypes shared by the modules of the model. */
module Wrappers {

  /** A value that may be missing, as when a lookup by name finds nothing. */
  datatype Option<+T> = None | Some(value: T)

  /** An outcome that either carries a value or the reason it could not be produced. */
  datatype Result<+R, +E> = Success(value: R) | Failure(error: E)
}
