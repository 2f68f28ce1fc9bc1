/** Failure-carrying return types used throughout the model: `Option` for the
    nullable returns of keystore's `OperationMap` (`NullOr<…>`, a null `sp<IBinder>`) and `Result`
    for operations that either succeed with a value or fail with an error. */
module Wrappers {

  /** A value that may be absent, in place of a null pointer or `NullOr`. */
  datatype Option<+T> = None | Some(value: T)

  /** Either a success value or an error value. */
  datatype Result<+R, +E> = Ok(value: R) | Err(error: E)
}
