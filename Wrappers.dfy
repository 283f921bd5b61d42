/** Option and error-carrying result types shared by the model. */
module Wrappers {

  datatype Option<+T> = None | Some(value: T)

  /** The outcome of code that may throw a C++ exception: either a value or
      the exception's `what()` text. */
  datatype Result<+T> = Ok(value: T) | Exception(what: string) {
    predicate IsFailure() {
      Exception?
    }

    function PropagateFailure<U>(): Result<U>
      requires Exception?
    {
      Exception(what)
    }

    function Extract(): T
      requires Ok?
    {
      value
    }
  }
}
