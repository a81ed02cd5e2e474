/** Machine-level value types shared by the text codec, and the failure
    wrappers that stand for Rust's `Option` and `Result`. */
module Primitives {

  /** An unsigned 8-bit value (Rust `u8`). */
  type byte = b: int | 0 <= b < 0x100

  /** An unsigned 16-bit value (Rust `u16`), used for UTF-16 code units. */
  type u16 = u: int | 0 <= u < 0x1_0000

  datatype Option<+T> = None | Some(value: T)

  datatype Result<+T, +E> = Success(value: T) | Failure(error: E)
}
