/** Optional values and the two Java exceptions of the core, as values. */
module Wrappers {

  /** A possibly absent value: `None` stands for Java's `null`. */
  datatype Option<X> = None | Some(value: X)

  datatype Exception =
    | NullPointerException
    | IllegalStateException(message: string)

  /** The outcome of an operation that either returns a value or throws. */
  datatype Result<X> = Success(value: X) | Failure(error: Exception)
}
