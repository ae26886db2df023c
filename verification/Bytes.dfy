module Bytes {

  /** `uint8_t` */
  type Byte = b: nat | b < 256
}
