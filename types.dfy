/** Machine-level value types of the monitor: the C `u8` and `u16` of
    the monitor as bounded integers, and the 64 KB address space. */
module MachineTypes {

  /** 2^16: the `u16` arithmetic of the monitor wraps modulo this. */
  const WordModulus: int := 0x10000

  /** An unsigned 8-bit value (`u8`). */
  type Byte = x: int | 0 <= x < 0x100

  /** An unsigned 16-bit value (`u16`), also a memory address. */
  type Word = x: int | 0 <= x < 0x10000

  /** A 4-bit value, one hexadecimal digit. */
  type Nibble = x: int | 0 <= x < 16

  /** The whole 64 KB address space as a read-only, total map from address to byte:
      every address is readable and the monitor never writes through it. */
  type Memory = Word -> Byte
}
