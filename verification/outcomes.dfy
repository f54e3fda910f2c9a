/** Failure-carrying values shared by the model: Python's `None`-or-value
    and the exceptions the modelled code can raise. */
module Outcomes {

  /** A value that may be Python's `None`. */
  datatype Option<+T> = None | Some(value: T)

  /** The outcome of a call that either returns a value or raises. */
  datatype Result<+R, +E> = Success(value: R) | Failure(error: E)

  /** The Python exceptions raised by the modelled code, with their messages. */
  datatype PyError =
    | AttributeError(message: string)
    | EnvironmentError(message: string)
    | IndexError(message: string)
}
