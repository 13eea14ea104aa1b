/** Option and Result types standing in for Python's `None` and for raised exceptions. */
module Wrappers {

  datatype Option<+T> = None | Some(value: T)

  /** The exceptions the modelled code raises, with the messages it raises them with. */
  datatype Failure =
    | ValueError(message: string)
    | KeyError(key: string)
    | IndexError
    | ZeroDivisionError
    | RecursionError
    | TypeError
    | AttributeError

  datatype Result<+T> = Ok(value: T) | Err(error: Failure)

  /** A result that carries no value: the statement completed, or it raised. */
  datatype Outcome = Pass | Fail(error: Failure)
}
