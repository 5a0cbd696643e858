/** Wrappers used across the model: `Option` stands for Python's
    `None`-or-value, `Result` for a value-or-raised-error. */
module Wrappers {

  datatype Option<+T> = None | Some(value: T)

  datatype Result<+R, +E> = Ok(value: R) | Err(error: E)
}
