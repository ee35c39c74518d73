/** Value types shared by every module of the model. */
module Common {

  /** A field or argument that JavaScript may leave `undefined`. */
  datatype Option<T> = None | Some(value: T)

  /** The outcome of an operation that may throw. */
  datatype Result<T, E> = Success(value: T) | Failure(error: E)

  /** The outcome of an operation that returns nothing but may throw. */
  datatype Outcome<E> = Pass | Fail(error: E)

  /** One byte of a Node.js `Buffer`. */
  type Byte = b: int | 0 <= b < 256
}
