/** The fixed-width unsigned integers of the program; leaving a range is a proof failure, not a wrap. */
module Numbers {
  type u16 = x: int | 0 <= x < 0x1_0000
  type u32 = x: int | 0 <= x < 0x1_0000_0000
  type u8 = x: int | 0 <= x < 0x100
}
