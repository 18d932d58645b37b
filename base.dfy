/** Option and Result, used for YAML nulls and for the exceptions the scripts raise. */
module Base {

  /** A value that may be absent; `None` is YAML/JSON null. */
  datatype Option<+T> = None | Some(value: T)

  /** The outcome of an operation that either returns a value or raises. */
  datatype Result<+T, +E> = Ok(value: T) | Err(error: E)
}
