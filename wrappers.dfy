/** Option and Result values: an absent JavaScript argument and a thrown error. */
module Wrappers {

  /** `None` stands for an argument that is `undefined`. */
  datatype Option<+T> = None | Some(value: T)

  datatype Result<+T, +E> = Ok(value: T) | Err(error: E)
}
