/** Small failure-compatible wrappers used across the model. */
module Optional {

  /** A value that may be absent (a nil pointer, a missing map entry). */
  datatype Option<+T> = None | Some(value: T)

  /** The outcome of an operation that can fail with a message (Go's `error` return). */
  datatype Result<+T> = Ok(value: T) | Err(msg: string)
}
