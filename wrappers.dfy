/** Nullable references and argument errors, shared by the two helper
    classes: a nullable reference is an `Option`, and an operation that may
    throw an `ArgumentNullException` returns a `Result` whose error names the
    offending parameter. */
module Wrappers {

  /** A reference that may be null. */
  datatype Option<+T> = None | Some(value: T)

  /** Either a value or the error the operation raises instead. */
  datatype Result<+T, +E> = Success(value: T) | Failure(error: E)

  /** `ArgumentNullException(paramName)`: the only exception the modelled code raises itself. */
  datatype ArgumentError = ArgumentNull(paramName: string)
}
