/** Bytes of files and of text. */
module Bytes {

  type byte = c: int | 0 <= c < 256
}
