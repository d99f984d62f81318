/** Small wrapper datatypes shared by the metadata modules. */
module Outcomes {

  /** A value that may be absent (nil in the source). */
  datatype Option<+T> = None | Some(value: T)

  /** A value or the error that prevented computing it. */
  datatype Result<+R, +E> = Success(value: R) | Failure(error: E)
}
