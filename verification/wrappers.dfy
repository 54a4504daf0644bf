/** Failure-carrying result types shared by every module of the model. */
module Wrappers {

  datatype Option<+T> = None | Some(value: T) {
    /** The held value, or `default` when there is none. */
    function GetOr(default: T): T {
      match this
      case Some(v) => v
      case None => default
    }
  }

  datatype Result<+R, +E> = Success(value: R) | Failure(error: E)

  /** The error kinds the three implementations report.
      C++ throws a string or std::out_of_range, Python raises ValueError,
      TypeError or IndexError; the model only keeps the kind. */
  datatype Error =
    | InvalidArgument   // a bound, weight or count the setters refuse
    | TypeMismatch      // a missing (None/NULL) object where a Rule or text is needed
    | NotFound          // removal of a rule whose id is not held
    | Mismatch          // removal of a different object stored under the same id
    | IndexOutOfRange   // the weighted walk ran past the last rule
    | Undefined         // behaviour the language leaves undefined (an invalid iterator,
                        // a read past a list) or a method the object lacks
}
