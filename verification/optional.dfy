/** Absent-or-present values and success-or-failure results, the two shapes
    every layer of the search application uses for nullable fields, missing
    configuration and HTTP failures. */
module Optional {

  /** A value that may be missing: `null`/`undefined` in TypeScript, `None` in Python. */
  datatype Option<+T> = None | Some(value: T) {

    /** The value, or `default` when absent (the `??` operator). */
    function GetOr(default: T): T {
      match this
      case Some(v) => v
      case None => default
    }
  }

  /** The outcome of an operation that can fail with an error of type `E`. */
  datatype Result<+T, +E> = Success(value: T) | Failure(error: E)
}
