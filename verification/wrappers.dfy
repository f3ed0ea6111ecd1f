/** Optional values and results with an error, for the places where the C code returns NULL or exits. */
module Wrappers {
  datatype Option<+T> = None | Some(value: T)

  datatype Result<+T, +E> = Success(value: T) | Failure(error: E)
}
