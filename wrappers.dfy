/** Option and Result: the shapes the model uses for Java's null and for
    methods that either return a value or throw. */
module Wrappers {

  /** `None` stands for a Java `null` reference. */
  datatype Option<+T> = None | Some(value: T)

  /** `Failure` stands for an exception thrown instead of a return value. */
  datatype Result<+T, +E> = Success(value: T) | Failure(error: E)
}
