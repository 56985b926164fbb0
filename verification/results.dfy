/** Nullable values and the outcome of one database transaction. */
module Results {

  /** A nullable column, or a request field that may be absent. */
  datatype Option<+T> = None | Some(value: T)

  /** A transaction either commits a new state or rolls back with a reason. */
  datatype Result<+T, +E> = Success(value: T) | Failure(error: E)
}
