/** Option and Result values shared by every module of the model.
    Go's `(value, error)` pairs become `Result`; the error text is kept as the message. */
module Basics {

  datatype Option<T> = None | Some(value: T)

  datatype Result<T> = Ok(value: T) | Err(message: string)

  function Min(a: int, b: int): int {
    if a < b then a else b
  }
}
