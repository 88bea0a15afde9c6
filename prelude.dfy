/** Small value types shared by the whole model: Rust's Option, a result that
    may be a panic (the source calls `unwrap` in several places), and u32. */
module Prelude {

  datatype Option<T> = None | Some(value: T)

  /** The outcome of a Rust expression that either returns a value or panics
      (an `unwrap` on `None`/`Err`). */
  datatype Panicking<T> = Returns(value: T) | Panics(reason: string)

  const U32_MAX: int := 0xFFFF_FFFF

  newtype u32 = x: int | 0 <= x <= U32_MAX
}
