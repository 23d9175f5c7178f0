/** Small shared vocabulary: optional values and octets. */
module Basics {

  /** A value that may be absent (a JavaScript `undefined`, a row that was not found). */
  datatype Option<+T> = None | Some(value: T)

  /** One octet of a Node.js Buffer. */
  type Byte = b: int | 0 <= b < 0x100
}
