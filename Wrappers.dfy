/** Failure-carrying results: the source's uncaught exceptions become `Failure` values. */
module Wrappers {

  datatype Result<+T, +E> = Success(value: T) | Failure(error: E)
}
