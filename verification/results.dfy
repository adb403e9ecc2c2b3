/** Success-or-error values, used where the source either returns a value or raises. */
module Results {

  datatype Result<+T, +E> = Ok(value: T) | Err(error: E)
}
