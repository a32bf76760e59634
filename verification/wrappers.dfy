/** Failure-carrying results shared by the codec modules. */
module Wrappers {

  datatype Option<+T> = None | Some(value: T)

  /** The exceptions the codec raises, as values. */
  datatype Error =
    | EndOfStream       // a read past the last available byte
    | InvalidArgument   // a checkpoint whose consumed-bits entry exceeds 8
    | Overflow          // a big integer that does not fit the requested width
    | Format            // text that is not a number

  datatype Result<+T> = Ok(value: T) | Fail(error: Error)

  /** The outcome of an operation that returns nothing but may throw. */
  datatype Outcome = Done | Failed(error: Error)
}
