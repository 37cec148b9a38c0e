/** Definitions shared by the models. */
module Common {
  datatype Option<+T> = None | Some(value: T)

  type Byte = x: int | 0 <= x < 256

  /** Ranges of the unsigned machine words. */
  const U32: nat := 0x1_0000_0000
  const U64: nat := 0x1_0000_0000_0000_0000

  /** A 48-bit hardware address, first byte most significant. */
  type Mac = nat

  /** The group bit: least significant bit of the first byte. */
  predicate IsMcast(mac: Mac) { (mac / 0x100_0000_0000) % 2 == 1 }
}
