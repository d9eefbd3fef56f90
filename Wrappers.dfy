/** Failure-carrying results shared by the modules of this model. */
module Wrappers {

  /** An optional value; `None` stands for a .NET `null`. */
  datatype Option<+T> = None | Some(value: T)

  /** The outcome of an operation that either returns a value or throws. */
  datatype Result<+T, +E> = Success(value: T) | Failure(error: E)

  /** The .NET argument exceptions the modelled code throws, each with the name of the offending parameter. */
  datatype Error =
    | ArgumentNull(param: string)        // ArgumentNullException
    | ArgumentOutOfRange(param: string)  // ArgumentOutOfRangeException
    | Argument(param: string)            // ArgumentException
}
