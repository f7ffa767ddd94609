/** Success-or-error results: the model's stand-in for the ValueErrors the
    Python code raises. */
module Outcomes {

  datatype Option<+T> = None | Some(value: T)

  datatype Result<+T, +E> = Success(value: T) | Failure(error: E)
}
