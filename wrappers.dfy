/** Optional values and results with an error, used for decoders that may run
    out of bytes and for operations of the store that fail. */
module Wrappers {

  datatype Option<+T> = None | Some(value: T)

  datatype Result<+R, +E> = Success(value: R) | Failure(error: E)
}
