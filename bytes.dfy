/** Byte strings and the optional value used for operations that can fail. */
module Bytes {

  /** One octet as it travels on the wire. */
  type Byte = b: int | 0 <= b < 256

  datatype Option<+T> = None | Some(value: T)

  function Min(a: int, b: int): int
  {
    if a <= b then a else b
  }
}
