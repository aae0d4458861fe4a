/** Option and Result: the model's stand-ins for Java's nullable references
    and for exceptions that end an operation. */
module Wrappers {

  /** A nullable Java reference: None is null. */
  datatype Option<+T> = None | Some(value: T) {

    /** The value, or the given default when None. */
    function GetOr(default: T): T
    {
      match this
      case Some(v) => v
      case None => default
    }
  }

  /** The outcome of a Java call that may throw: Err carries what was thrown. */
  datatype Result<+T, +E> = Ok(value: T) | Err(error: E) {

    predicate IsFailure() {
      Err?
    }

    function PropagateFailure<U>(): Result<U, E>
      requires Err?
    {
      Err(error)
    }

    function Extract(): T
      requires Ok?
    {
      value
    }
  }
}
