/**
 * The outcome of a validator that returns a value: either the value, or the
 * error that the Python code raises instead of returning.
 */
module Results {

  datatype Result<+T, +E> = Ok(value: T) | Err(error: E)

}
