/** Failure-compatible result types. Python's `None` return and its `KeyError`
    exception become explicit values. */
module Options {

  /** `None` stands for Python's `None` result. */
  datatype Option<T> = None | Some(value: T)

  /** `Err` stands for a raised exception, with its message. */
  datatype Result<T> = Ok(value: T) | Err(message: string)
}
