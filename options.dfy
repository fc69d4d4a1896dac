/** Java's Optional and checked failures, as values. */
module Options {

  /** java.util.Optional: a value or nothing. */
  datatype Option<+T> = None | Some(value: T)

  /** An operation that either succeeds with a value or fails with an error. */
  datatype Result<+R, +E> = Success(value: R) | Failure(error: E)
}
