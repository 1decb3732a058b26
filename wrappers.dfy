/** Optional values and call results. */
module Wrappers {

  /** A value that may be absent: a protobuf message field left unset comes out as None. */
  datatype Option<+T> = None | Some(value: T)

  /** The outcome of a remote call: a reply, or the error the transport reported. */
  datatype Result<+T, +E> = Success(value: T) | Failure(error: E)
}
