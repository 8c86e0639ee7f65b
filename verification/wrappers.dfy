/** Small failure-carrying datatypes shared by every module of the model.
    `Option` stands for a C++ pointer that may be null; `Result` stands for
    an operation that either yields a value or throws. */
module Wrappers {

  datatype Option<+T> = None | Some(value: T)

  datatype Result<+T, +E> = Ok(value: T) | Err(error: E)

}
