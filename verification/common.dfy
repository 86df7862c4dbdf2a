/** Small shared vocabulary: optional values, results carrying an error
    message (the `str(e)` of a Python exception), and Python's `min`/`max`. */
module Common {

  datatype Option<+T> = None | Some(value: T)

  /** Either a value or the message of the exception that was raised instead. */
  datatype Result<+T, +E> = Success(value: T) | Failure(error: E)

  function Min(a: int, b: int): int
  {
    if a <= b then a else b
  }

  function Max(a: int, b: int): int
  {
    if a <= b then b else a
  }
}
