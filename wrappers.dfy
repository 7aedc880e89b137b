/** Small value types shared by the store and the limiter. */
module Wrappers {

  /** Rust's `Option<T>`. */
  datatype Option<+T> = None | Some(value: T)

  /** Rust's `Result<T, String>`; the error text is not modelled, only that the call failed. */
  datatype Result<+T> = Ok(value: T) | Err

  const U32_MAX: int := 0xFFFF_FFFF

  /** Rust's `u32`. */
  type u32 = x: int | 0 <= x <= U32_MAX
}
