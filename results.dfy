/** Optional values and results that stand for Java's null and exceptions. */
module Results {

  datatype Option<T> = None | Some(value: T)

  /** A computation that either yields a value or throws, as an exception-raising Java method does. */
  datatype Result<T, E> = Success(value: T) | Failure(error: E)
}
