/** Small failure-carrying datatypes shared by the other modules. */
module Results {

  /** A value that may be absent (PHP's `false` returned by a lookup). */
  datatype Option<+T> = None | Some(value: T)

  /** Either a value or the error that stopped the computation. */
  datatype Result<+T, +E> = Ok(value: T) | Err(error: E)
}
