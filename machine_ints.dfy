/** The fixed-width integer types of the source, as bounded mathematical integers. */
module MachineInts {

  const U8_LIMIT: int := 0x100
  const U16_LIMIT: int := 0x1_0000
  const U32_LIMIT: int := 0x1_0000_0000
  /** `usize` is taken to be 64 bits wide: the overflow check of a leaf's reference range depends on it. */
  const USIZE_LIMIT: int := 0x1_0000_0000_0000_0000

  type u8 = x: int | 0 <= x < U8_LIMIT
  type u16 = x: int | 0 <= x < U16_LIMIT
  type u32 = x: int | 0 <= x < U32_LIMIT
  type i16 = x: int | -0x8000 <= x < 0x8000
  type i32 = x: int | -0x8000_0000 <= x < 0x8000_0000
  type usize = x: int | 0 <= x < USIZE_LIMIT
}
