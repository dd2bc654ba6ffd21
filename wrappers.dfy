/** Option, used wherever the source can raise ValueError and falls back. */
module Wrappers {
  datatype Option<+T> = None | Some(value: T)
}

/** Python `bytes` values: sequences of integers in [0, 256). */
module Bytes {
  type byte = b: int | 0 <= b < 0x100
}
