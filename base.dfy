/** Value types shared by every module of the model. */
module Base {

  /** A value that may be absent: JavaScript's `null` / `undefined` on one side, a value on the other. */
  datatype Option<+T> = None | Some(value: T)

  /** An octet: one unit of UTF-8 output and of Base64 input. */
  type byte = b: int | 0 <= b < 256
}
