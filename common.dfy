/** Shared vocabulary: unsigned bytes, a result type for the error paths, and min/max. */
module Common {

  /** An unsigned 8-bit value: a PNG byte or a `uint8` pixel. */
  type Byte = b: int | 0 <= b < 256

  /** A computation that either succeeds or fails with a message (Python raising). */
  datatype Result<T> = Ok(value: T) | Err(message: string)

  /** An optional value: a form field that may be missing. */
  datatype Option<T> = None | Some(value: T)

  function Min(a: int, b: int): (m: int)
    ensures m <= a && m <= b
    ensures m == a || m == b
  {
    if a < b then a else b
  }

  function Max(a: int, b: int): (m: int)
    ensures m >= a && m >= b
    ensures m == a || m == b
  {
    if a < b then b else a
  }
}
