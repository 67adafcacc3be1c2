/** Optional values and results with an error alternative. */
module Wrappers {

  /** An optional value: Java's `null` on the one hand, a present value on the other. */
  datatype Option<+T> = None | Some(value: T)

  /** Either a value or the error the Java code would throw instead of returning. */
  datatype Result<+T, +E> = Success(value: T) | Failure(error: E)
}
