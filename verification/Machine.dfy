/** Integer widths of the 32-bit little-endian target. */
module Machine {
  type uint8 = x: int | 0 <= x < 0x100
  type uint16 = x: int | 0 <= x < 0x1_0000
  type uint32 = x: int | 0 <= x < 0x1_0000_0000
  type uint64 = x: int | 0 <= x < 0x1_0000_0000_0000_0000
  type int64 = x: int | -0x8000_0000_0000_0000 <= x < 0x8000_0000_0000_0000

  const TWO_TO_32 := 0x1_0000_0000
  const TWO_TO_64 := 0x1_0000_0000_0000_0000

  /** An unsigned word of 32 bits keeps the low half of a wider one. */
  function ToUint32(x: int): (r: uint32) {
    x % TWO_TO_32
  }

  type UINTN = uint32
  type CHAR8 = uint8
  type CHAR16 = uint16

  datatype Status = Success | BufferTooSmall
}
