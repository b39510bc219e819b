/** Values shared by the storage, schema and cleanup modules. */
module Common {

  /** A byte of an uploaded payload or of a stored file. */
  newtype byte = b: int | 0 <= b < 256

  datatype Option<+T> = None | Some(value: T)

  datatype Result<+T, +E> = Ok(value: T) | Err(error: E)

  /** What a dynamically typed argument can be: None, a str, or any other object
      (an int, say), with its truth value. */
  datatype PyValue = PyNone | PyStr(s: string) | PyOther(truthy: bool)

  /** Python's `not v` negated. */
  predicate Truthy(v: PyValue)
  {
    match v
    case PyNone => false
    case PyStr(s) => s != ""
    case PyOther(t) => t
  }

  /** An ASCII decimal digit: what str(int) writes and what `\d` is taken to match. */
  predicate IsDigit(c: char)
  {
    '0' <= c <= '9'
  }

  function Min(a: int, b: int): int
  {
    if a <= b then a else b
  }
}
