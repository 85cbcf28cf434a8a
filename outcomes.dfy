/** Failure-compatible wrappers shared by every module of the model. */
module Outcomes {

  datatype Option<+T> = None | Some(value: T)

  /** Either a value or the error that the modelled code raises instead. */
  datatype Result<+T, +E> = Ok(value: T) | Err(error: E) {

    predicate IsFailure() {
      Err?
    }

    function PropagateFailure<U>(): Result<U, E>
      requires Err?
    {
      Err(error)
    }

    function Extract(): T
      requires Ok?
    {
      value
    }
  }
}
