/** Fixed-width integers of the firmware. Every arithmetic operation on these types carries a
    proof obligation that its result is in range, so code written with them cannot overflow. */
module MachineInts {
  newtype uint8 = x: int | 0 <= x < 0x100
  newtype uint32 = x: int | 0 <= x < 0x1_0000_0000
  newtype int32 = x: int | -0x8000_0000 <= x < 0x8000_0000
  newtype int64 = x: int | -0x8000_0000_0000_0000 <= x < 0x8000_0000_0000_0000
}
