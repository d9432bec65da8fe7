/** Optional values and results that carry the exception a Python call would raise. */
module Wrappers {

  datatype Option<T> = None | Some(value: T)

  /** `Failure(e)` stands for the call raising the Python exception named by `e`. */
  datatype Result<T> = Success(value: T) | Failure(error: string)
}
