/** Option type shared by the whole model: a value that may be absent,
    as Python's `None` or a failed conversion. */
module Wrappers {

  datatype Option<+T> = None | Some(value: T)

  /** An unsigned 8-bit value, an element of a MicroPython `bytes` object. */
  type Byte = b: int | 0 <= b < 0x100

  /** An unsigned 16-bit value, the content of one sensor register. */
  type Word = w: int | 0 <= w < 0x1_0000
}
