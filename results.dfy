/** Failure-compatible wrappers shared by the parser and the compiler. */
module Results {

  datatype Option<+T> = None | Some(value: T)

  /** The outcome of a Rust routine returning `Result<T, E>`, extended with the
      abort that an `.unwrap()` on an `Err` causes. A `Panic` is never caught:
      every caller hands it straight back up. */
  datatype Outcome<+T, +E> = Ok(value: T) | Err(error: E) | Panic(error: E) {

    /** The `?` operator: re-wraps a failure for a caller with another value type. */
    function Propagate<U>(): (r: Outcome<U, E>)
      requires !Ok?
      ensures r.Err? == Err? && r.Panic? == Panic? && r.error == error
    {
      if Err? then Err(error) else Panic(error)
    }

    /** `.unwrap()`: a success passes through, any failure aborts. */
    function Unwrap(): (r: Outcome<T, E>)
      ensures Ok? ==> r == this
      ensures !Ok? ==> r == Panic(error)
    {
      if Ok? then this else Panic(error)
    }
  }
}
