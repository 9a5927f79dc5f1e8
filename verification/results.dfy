/** The outcome of an operation that either produces a value or raises. */
module Results {

  /** `Ok` carries the value the operation returns; `Err` the exception it raises. */
  datatype Result<+T, +E> = Ok(value: T) | Err(error: E)

}
