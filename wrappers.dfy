/** Failure-carrying result types used throughout the model. */
module Wrappers {

  datatype Option<+T> = None | Some(value: T)

  /** The value of an operation that either returns `value` or raises `error`. */
  datatype Result<+R, +E> = Success(value: R) | Failure(error: E)

  /** The outcome of an operation that returns nothing useful or raises `error`. */
  datatype Outcome<+E> = Pass | Fail(error: E)
}

/**
 * The Python exceptions the simulator raises, each with the message the
 * source gives it (a `KeyError` or `IndexError` carries no message here).
 */
module Errors {

  datatype Error =
    | ValueError(message: string)
    | KeyError
    | IndexError
    | TypeError(message: string)
    | AttributeError(name: string)
    | ZeroDivisionError
    | UnboundLocalError(name: string)
}
