/** Option and Result types, and the Python exceptions that the modelled code can raise. */
module Outcomes {

  datatype Option<+T> = None | Some(value: T)

  /** The exceptions the modelled Python code raises, one constructor per exception class. */
  datatype Fault =
    | KeyError(key: string)       // a missing dictionary key or DataFrame column
    | ValueError(reason: string)  // an argument the code rejects
    | IndexError                  // a list index or a boolean mask of the wrong length
    | AttributeError              // a string method called on a missing (NaN) cell
    | TypeError                   // a missing (NaN) cell passed where a string is needed
    | FileNotFound                // os.makedirs("") raises FileNotFoundError

  /** Either a value or the exception that ended the computation. */
  datatype Result<+T> = Success(value: T) | Failure(error: Fault) {
    predicate IsFailure() {
      Failure?
    }

    function PropagateFailure<U>(): Result<U>
      requires Failure?
    {
      Failure(error)
    }

    function Extract(): T
      requires Success?
    {
      value
    }
  }
}
