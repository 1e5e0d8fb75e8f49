/** Option and Result: the model's stand-ins for JavaScript's `undefined`/`null`
    and for thrown exceptions. */
module Wrappers {

  datatype Option<+T> = None | Some(value: T) {
    /** The value, or `default` when absent (JavaScript's `??`). */
    function GetOr(default: T): T {
      match this
      case Some(v) => v
      case None => default
    }
  }

  /** A service call either returns a value or throws an error. */
  datatype Result<+T, +E> = Success(value: T) | Failure(error: E)
}

/** Wall-clock instants (`new Date()`), passed in by the caller as `now`. */
module Timestamps {
  type Time = nat
}
