/** Rust's `i32`, the width of every stat the data sheet stores. */
module Int32 {

  /** True when `x` fits in a signed 32-bit integer. */
  predicate InI32(x: int) {
    -0x8000_0000 <= x < 0x8000_0000
  }

  newtype i32 = x: int | InI32(x)
}
