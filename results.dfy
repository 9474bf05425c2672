/** Success/failure values used for the error paths of the modelled code:
    a failed C++ `assert`, an exception thrown by `std::map::at`, a stream
    read that fails on a malformed file. */
module Results {

  datatype Option<+T> = None | Some(value: T)

  datatype Result<+T, +E> = Ok(value: T) | Err(error: E)

  /** An operation that returns nothing but can fail. */
  datatype Outcome<+E> = Pass | Fail(error: E)
}
