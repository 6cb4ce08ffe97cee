/** Optional values and results with an error, shared by the menu builder
    and the display sanitiser. */
module Values {

  /** A value that may be absent, as a Python attribute that may be `None`. */
  datatype Option<+T> = None | Some(value: T)

  /** The outcome of an operation that either returns a value or raises. */
  datatype Result<+T, +E> = Success(value: T) | Failure(error: E)
}
