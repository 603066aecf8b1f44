/** Failure-carrying values shared by every module of the crawler model. */
module Common {

  datatype Option<T> = None | Some(value: T)

  /** A value, or the exception the Python code would raise instead. */
  datatype Result<T, E> = Ok(value: T) | Err(error: E)

  /** How a call of the crawler ends: it returns, it raises, or it never returns. */
  datatype Outcome<T, E> = Returned(value: T) | Raised(error: E) | Diverges
}
