/** Failure-compatible result types shared by the font loader. */
module Wrappers {

  datatype Option<+T> = None | Some(value: T)

  /** How a fallible step of the loader ends when it does not succeed.
      FormatError is the one error kind the loader returns (the Rust code's
      Err(String), whose text is not modelled); Panic marks the places where
      the Rust code aborts instead of returning (an index or arithmetic
      failure in a debug build). */
  datatype Failure = FormatError | Panic

  datatype Result<+T> = Ok(value: T) | Err(error: Failure) {

    predicate IsFailure() {
      Err?
    }

    function PropagateFailure<U>(): Result<U>
      requires Err?
    {
      Err(error)
    }

    function Extract(): T
      requires Ok?
    {
      value
    }
  }
}
