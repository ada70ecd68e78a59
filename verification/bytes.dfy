/** Python bytes objects: sequences of integers in the range 0 to 255. */
module Bytes {

  type byte = x: int | 0 <= x < 256
}
