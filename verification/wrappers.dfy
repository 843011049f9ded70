/** Option and Result datatypes shared by every module of the model.
    `Option` also stands for NaN where the source uses NaN as "no value". */
module Wrappers {

  datatype Option<+T> = None | Some(value: T) {

    /** Returns the value in Some, or the default. */
    function GetOr(default: T): T {
      match this
      case Some(v) => v
      case None => default
    }
  }

  /** Python exception classes that the modelled code raises or catches. */
  datatype Exception =
    | ValueError
    | TypeError
    | IndexError
    | KeyError
    | AttributeError
    | NameError
    | AssertionError
    | FileNotFoundError
    | NotImplementedError
    | RuntimeError
    | ZeroDivisionError
    | OverflowError
    | SystemExit(code: int)

  datatype Result<+R> = Success(value: R) | Failure(error: Exception) {

    predicate IsFailure() {
      Failure?
    }

    function PropagateFailure<U>(): Result<U>
      requires Failure?
    {
      Failure(error)
    }

    function Extract(): R
      requires Success?
    {
      value
    }
  }
}
