/** Failure-aware wrappers shared by the detector modules. */
module Optional {

  /** A value that may be absent, used for the nullable fields of the detector. */
  datatype Option<+T> = None | Some(value: T)

  /** The outcome of an operation that throws in `processPredictions`. */
  datatype Result<+R, +E> = Success(value: R) | Failure(error: E)
}
