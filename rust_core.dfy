/** Rust's `Result`, the return type of both core functions. */
module RustCore {

  /** `std::result::Result`. The failure-compatible members let a method
      write `var x :- r;`, which behaves like Rust's `?` operator: on `Err`
      the enclosing method returns that error at once. */
  datatype Result<T, E> = Ok(value: T) | Err(error: E) {
    predicate IsFailure() {
      Err?
    }

    function PropagateFailure<U>(): Result<U, E>
      requires Err?
    {
      Err(error)
    }

    function Extract(): T
      requires Ok?
    {
      value
    }
  }
}
