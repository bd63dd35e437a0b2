/** Option and Result, the two failure-carrying shapes the service uses. */
module Wrappers {

  /** A value that may be absent; every optional field of a lookup record is one. */
  datatype Option<+T> = None | Some(value: T) {

    /** The value, if any, transformed by `f`; absence stays absence. */
    function Map<U>(f: T -> U): (r: Option<U>)
      ensures r.Some? <==> Some?
      ensures r.Some? ==> r.value == f(value)
    {
      match this
      case None => None
      case Some(v) => Some(f(v))
    }
  }

  /** The outcome of an operation that can fail with an error of type E. */
  datatype Result<+R, +E> = Success(value: R) | Failure(error: E)
}
