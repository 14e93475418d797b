/** Failure-carrying datatypes shared by the whole model.
    - Option<T> stands for a JavaScript value that may be `undefined`
      (an optional property reached through `?.`).
    - Result<T, E> stands for a call that either returns a value or throws.
 */
module Wrappers {

  datatype Option<+T> = None | Some(value: T) {

    /** The wrapped value, or `default` when absent (JavaScript's `??`). */
    function GetOr(default: T): T {
      match this
      case Some(v) => v
      case None => default
    }
  }

  datatype Result<+T, +E> = Success(value: T) | Failure(error: E)
}
