/** The machine's integer types as ranges of numbers. */
module MachineTypes {
  const BASE: int := 0x1_0000_0000
  const BASE64: int := 0x1_0000_0000_0000_0000

  type byte = x: int | 0 <= x < 0x100
  type u32 = x: int | 0 <= x < BASE
  type u64 = x: int | 0 <= x < BASE64
  type i32 = x: int | -0x8000_0000 <= x < 0x8000_0000
  type i64 = x: int | -0x8000_0000_0000_0000 <= x < 0x8000_0000_0000_0000

  /** Sizes and positions on a 64-bit machine. */
  type size_t = u64
}
