/** The fixed-width integers of the program. */
module MachineTypes {
  const TWO_32: nat := 0x1_0000_0000
  const TWO_64: nat := 0x1_0000_0000_0000_0000

  type Byte = n: int | 0 <= n < 256
  type Uint32 = n: int | 0 <= n < 0x1_0000_0000
  type Uint64 = n: int | 0 <= n < 0x1_0000_0000_0000_0000

  /** A guest address. */
  type Address = Uint32

  const ADDRESSES := TWO_32
}
