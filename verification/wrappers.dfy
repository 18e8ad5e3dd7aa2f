/** Option and Result, the two failure-carrying datatypes the model uses in place of
    `null`/`undefined` and thrown exceptions. */
module Wrappers {

  datatype Option<+T> = None | Some(value: T)

  /** `Err` stands for a thrown exception; the model only needs to know that one was thrown. */
  datatype Result<+T> = Ok(value: T) | Err(message: string)
}
