/** Option and Result, the failure-carrying wrappers the rest of the model uses
    for lookups that may miss and for operations that may throw. */
module Wrappers {

  datatype Option<+T> = None | Some(value: T)

  datatype Result<+T, +E> = Success(value: T) | Failure(error: E)

  /** The exceptions of the SDK that the adapter throws (sdk/Exceptions.h is not
      part of this model; only the two exception classes the core throws are kept,
      each with the message it is constructed with). */
  datatype Error =
    | InvalidValue(message: string)
    | InvalidType(message: string)
}
