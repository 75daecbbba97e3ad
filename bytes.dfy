/** Java's `byte[]` contents, taken as unsigned values 0..255. */
module Bytes {
  type Byte = b: int | 0 <= b < 256
}
