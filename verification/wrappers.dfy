/** Failure-carrying datatypes shared by every module: `Option` for a value
    that C# represents as a nullable reference, `Result` for an operation
    that either returns or throws. */
module Wrappers {

  datatype Option<+T> = None | Some(value: T) {
    /** The value, or `default` when absent (C#'s `??`). */
    function GetOr(default: T): T {
      match this
      case Some(v) => v
      case None => default
    }
  }

  datatype Result<+T, +E> = Success(value: T) | Failure(error: E)
}

/** Bytes as the storage, queue and HTTP layers see them. */
module Bytes {
  type byte = x: int | 0 <= x < 256
}
