/** Small failure-carrying datatypes shared by the whole model. */
module Wrappers {

  /** An optional value: the model's stand-in for `std::optional`. */
  datatype Option<+T> = None | Some(value: T) {
    /** The contained value, or `default` when there is none (`value_or`). */
    function GetOr(default: T): T {
      match this
      case Some(v) => v
      case None => default
    }
  }

  /** A value or an error: the model's stand-in for a thrown exception. */
  datatype Result<+R, +E> = Ok(value: R) | Err(error: E)

  /** Bytes as unbounded integers restricted to one octet. */
  type byte = b: int | 0 <= b < 0x100

  /** Unsigned 16-bit values. */
  type u16 = w: int | 0 <= w < 0x1_0000
}
