/** Wrappers used in place of `undefined` and `throw`. */
module Results {

  /** An optional value: `None` stands for JavaScript's `undefined`. */
  datatype Option<T> = None | Some(value: T) {

    /** The carried value, or `default` when there is none. */
    function GetOr(default: T): (r: T)
      ensures Some? ==> r == value
      ensures None? ==> r == default
    {
      match this
      case Some(v) => v
      case None => default
    }
  }

  /** The outcome of a store operation: a value, or the error it was thrown with. */
  datatype Result<T, E> = Success(value: T) | Failure(error: E)
}
