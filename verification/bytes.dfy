/** Bytes, as held by a `Blob`, a base64 payload and a pixel channel. */
module Bytes {

  type byte = x: int | 0 <= x < 256
}
