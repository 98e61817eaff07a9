/** Small shared vocabulary: bytes and the error-carrying wrappers that stand
    in for Go's `(T, error)` return pairs. */
module Basics {

  /** One octet, as Go's `byte`. */
  type Byte = b: int | 0 <= b < 256

  datatype Option<+T> = None | Some(value: T)

  /** `Ok(v)` models a Go call returning `(v, nil)`; `Err(e)` one returning a
      non-nil error `e`. */
  datatype Result<+T, +E> = Ok(value: T) | Err(error: E)
}
