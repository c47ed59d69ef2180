/** Fixed-width unsigned integers used on the wire. */
module BoundedInts {

  const TWO_TO_THE_32: int := 0x1_0000_0000

  type uint8 = x: int | 0 <= x < 0x100
  type uint32 = x: int | 0 <= x < 0x1_0000_0000
  type uint64 = x: int | 0 <= x < 0x1_0000_0000_0000_0000
}
