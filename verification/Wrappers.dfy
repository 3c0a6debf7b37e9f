/** Outcome of an operation that the original ends normally, by throwing, or not at all. */
module Wrappers {

  /**
   The exception classes that the modelled code throws; Undefined where it writes outside a buffer instead, Blocked
   where it waits for a lock that its own thread holds, and never returns.
   */
  datatype Error =
    | InvalidArgument
    | InsufficientBuffer
    | TransformFailed
    | NotPFile
    | NotSupportedVersion
    | BadArguments
    | Undefined
    | Blocked

  datatype Result<+T> = Ok(value: T) | Err(error: Error) {
    predicate IsFailure() {
      Err?
    }

    function PropagateFailure<U>(): Result<U>
      requires Err?
    {
      Err(error)
    }

    function Extract(): T
      requires Ok?
    {
      value
    }
  }

  datatype Option<+T> = None | Some(value: T)
}
