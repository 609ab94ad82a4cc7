/** Option and Result values shared by the parser, the analyzer and the runtime. */
module Wrappers {

  datatype Option<+T> = None | Some(value: T)

  /** The outcome of a fallible stage; supports `:-` for early return on error. */
  datatype Result<+R, +E> = Ok(value: R) | Err(error: E) {

    predicate IsFailure() {
      Err?
    }

    function PropagateFailure<U>(): Result<U, E>
      requires Err?
    {
      Err(error)
    }

    function Extract(): R
      requires Ok?
    {
      value
    }
  }
}
