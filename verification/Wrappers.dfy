/** Small result types shared by the models. */
module Wrappers {
  datatype Option<+T> = None | Some(value: T)

  /** What a decoder made of a byte sequence: a value and the bytes it left
      unread, or a failure. */
  datatype Parsed<+T> = Fail | Got(value: T, rest: seq<byte>)

  type byte = b: int | 0 <= b < 256
}
