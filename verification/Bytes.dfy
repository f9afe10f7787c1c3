/** Bytes and sectors shared by the modules. */
module Bytes {
  type Byte = b: int | 0 <= b < 256
  type Sector = seq<Byte>
}
