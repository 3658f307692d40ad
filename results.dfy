/** Optional values and failing results, for lookups that can miss and operations that can throw. */
module Results {
  datatype Option<+T> = None | Some(value: T)

  datatype Result<+T, +E> = Success(value: T) | Failure(error: E)
}
