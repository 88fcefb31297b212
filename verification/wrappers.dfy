/** Failure-carrying values shared by every module of the model.

    The Python sources signal failure by raising exceptions and by returning
    `None`; the Go plugin by returning a status. `Option` stands for a value
    that may be `None`, `Result` for a computation that either yields a value
    or raises one of the `Fault`s below. */
module Wrappers {

  datatype Option<+T> = None | Some(value: T)

  datatype Result<+T, +E> = Success(value: T) | Failure(error: E)

  /** The Python exceptions the modelled code can raise. */
  datatype Fault =
    | ZeroDivisionError   // `x / 0`, `sum([]) / len([])`
    | TypeError           // arithmetic on `None`, unpacking `None`
    | ValueError          // `float("...")` on text that is not a number
    | IndexError          // a node reply with fewer than six fields
    | RuntimeError        // an observation of the wrong width fed to the network
}
