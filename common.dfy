/** Small value types shared by the controller's modules. */
module Common {

  /** One octet of a Node.js Buffer. */
  type byte = x: int | 0 <= x < 256

  /** A value that may be absent (JavaScript `null` / `undefined`). */
  datatype Option<+T> = None | Some(value: T)

  /** The outcome of an operation that may throw. */
  datatype Result<+T, +E> = Ok(value: T) | Err(error: E)
}
