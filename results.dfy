/** Failure-carrying results: a Python call either returns a value or raises. */
module Results {

  datatype Option<+T> = None | Some(value: T)

  /** `Ok` is a normal return, `Err` an exception propagating to the caller. */
  datatype Result<+T, +E> = Ok(value: T) | Err(error: E)
}
