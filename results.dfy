/** Failure-carrying values for the Go functions that return `(value, error)`. */
module Results {

  datatype Option<+T> = None | Some(value: T)

  /** A Go `(T, error)` pair: `Err` stands for a non-nil error (the value is then the zero value). */
  datatype Result<+T> = Ok(value: T) | Err(error: string)
}
