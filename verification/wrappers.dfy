/** Failure-carrying result types: the model's stand-ins for a thrown
    exception (`Result`) and for a pointer that may be null (`Option`). */
module Wrappers {

  /** A value or nothing: the pointer-returning accessors answer `None`
      where the class returns `nullptr`. */
  datatype Option<+T> = None | Some(value: T)

  /** A value or the exception raised instead of producing it. */
  datatype Result<+R, +E> = Success(value: R) | Failure(error: E) {

    /** Forgets which error was raised. */
    function ToOption(): Option<R>
    {
      match this
      case Success(v) => Some(v)
      case Failure(_) => None
    }
  }
}
