/** Small datatypes shared by the other modules. */
module Wrappers {

  datatype Option<+T> = None | Some(value: T)

  /** One byte of a stream (`pb_byte_t`). */
  type byte = x: int | 0 <= x < 256

  /** Outcome of reading a value from the front of a byte string: what was read
      and the bytes that follow it. */
  datatype Parse<+T> = Fail | Got(value: T, rest: seq<byte>)
}
