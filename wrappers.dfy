/** Small value types shared by the other modules. */
module Wrappers {

  /** Python's `None` or a present value. */
  datatype Option<+T> = None | Some(value: T)

  /** One octet, as a Python `bytes` object holds it. */
  type byte = x: int | 0 <= x < 256
}
