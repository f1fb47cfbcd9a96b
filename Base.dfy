/** Small failure-carrying datatypes shared by the writer and the pipeline. */
module Base {

  /** An optional value, like Rust's `Option<T>`. */
  datatype Option<+T> = None | Some(value: T)

  /** A value or an error, like Rust's `Result<T, E>`. */
  datatype Result<+T, +E> = Ok(value: T) | Err(error: E)

  /** Success or an error, like Rust's `Result<(), E>`. */
  datatype Outcome<+E> = Pass | Fail(error: E)

  function Min(a: nat, b: nat): (m: nat)
    ensures m <= a && m <= b && (m == a || m == b)
  {
    if a <= b then a else b
  }
}
