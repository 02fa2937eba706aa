/** Failure-carrying values used throughout the model.

    The runtime signals failure by throwing JavaScript errors (or by
    rejecting a promise); the model returns them as values instead. */
module Results {

  /** What a JavaScript `throw` carries in this runtime. */
  datatype Error =
    /** A TypeError raised by the engine itself: reading a property of
        `undefined`, calling `exec` on a value that did not match, and so on. */
    | TypeError
    /** An `Error` object created by the runtime with the given message. */
    | Thrown(message: string)
    /** The error a failed chunk load rejects with: name "ChunkLoadError",
        its message, the failure `type` and the script's `src` as `request`. */
    | ChunkLoadError(message: string, kind: string, request: string)

  datatype Option<+T> = None | Some(value: T) {
    function GetOr(default: T): T {
      match this
      case Some(v) => v
      case None => default
    }
  }

  datatype Result<+T> = Success(value: T) | Failure(error: Error) {
    predicate IsFailure() {
      Failure?
    }

    function PropagateFailure<U>(): Result<U>
      requires Failure?
    {
      Failure(error)
    }

    function Extract(): T
      requires Success?
    {
      value
    }
  }
}
