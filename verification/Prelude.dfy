/** Result types shared by every component. */
module Prelude {

  /** A value the source leaves `null` or `undefined`. */
  datatype Option<+T> = None | Some(value: T)

  /** A value, or the error the source throws instead of returning one. */
  datatype Result<+T, +E> = Ok(value: T) | Err(error: E)
}
