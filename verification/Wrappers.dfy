// Failure types shared by the model.
module Wrappers {
  datatype Option<+T> = None | Some(value: T)

  // The error variants of src/error.rs that the modelled code returns.
  datatype Error = Corrupted | PageNotFound | Busy | TransactionError | ConstraintViolation

  datatype Result<+T> = Ok(value: T) | Err(error: Error)
}
