/** The outcome of an operation that the generator aborts on, and a value that may be absent. */
module Results {

  datatype Result<+T, +E> = Success(value: T) | Failure(error: E)

  datatype Option<+T> = None | Some(value: T)
}
