/** Optional results: the model's stand-in for the `null` that the map
    returns for an absent key or an out-of-range rank, and for the
    exception `put` raises on a null key. */
module Wrappers {

  datatype Option<+T> = None | Some(value: T)

  datatype Result<+R, +E> = Success(value: R) | Failure(error: E)
}
