/** Bytes and packets as both processors see them. */
module Bytes {
  type Byte = b: int | 0 <= b < 256

  type Packet = seq<Byte>

  const TWO_TO_16: int := 0x1_0000
  const TWO_TO_31: int := 0x8000_0000
  const TWO_TO_32: int := 0x1_0000_0000
  const TWO_TO_64: int := 0x1_0000_0000_0000_0000

  /** The low and the high half of a 64-bit value; negative differences wrap. */
  function Low(x: int): nat {
    x % TWO_TO_32
  }

  function High(x: nat): nat {
    x / TWO_TO_32
  }

  function Min(a: int, b: int): int {
    if a < b then a else b
  }

  /** What a reader with room for `len` bytes gets of a packet. */
  function Truncated(p: Packet, len: nat): Packet {
    p[..Min(|p|, len)]
  }
}
