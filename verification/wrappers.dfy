/** Small failure-carrying datatypes shared by the modules of this model. */
module Wrappers {

  /** A value that may be absent: the model of an out-parameter that is only set on success. */
  datatype Option<+T> = None | Some(value: T)

  /** The outcome of an operation that either yields a value or reports an error message
      (the model of a thrown `std::runtime_error`). */
  datatype Result<+T> = Ok(value: T) | Err(message: string)
}
