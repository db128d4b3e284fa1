/** Plain wrapper datatypes shared by the whole model (none of them is used
    with `:-`):
    - Option<T> stands for a JavaScript value that may be null/undefined, or a
      dictionary key that may be missing;
    - Result<T, E> stands for a Python function that either returns a value or
      raises an error;
    - Outcome<E> stands for a Python check that returns nothing or raises. */
module Wrappers {

  datatype Option<+T> = None | Some(value: T) {
    /** The wrapped value, or `default` when there is none. */
    function GetOr(default: T): T {
      match this
      case Some(v) => v
      case None => default
    }
  }

  datatype Result<+R, +E> = Success(value: R) | Failure(error: E)

  datatype Outcome<+E> = Pass | Fail(error: E)
}
