/** Optional values and the outcome of one call into a repository. */
module Wrappers {

  /** A value that may be absent: the model of a nullable reference. */
  datatype Option<+T> = None | Some(value: T)

  /** The outcome of a repository call: it either returns a value or throws an
      exception carrying a message. Failure-compatible, so that `:-` models an
      exception propagating out of a `try` block. */
  datatype Call<+T> = Returned(value: T) | Thrown(message: string) {

    predicate IsFailure() {
      Thrown?
    }

    function PropagateFailure<U>(): Call<U>
      requires Thrown?
    {
      Thrown(message)
    }

    function Extract(): T
      requires Returned?
    {
      value
    }
  }
}
