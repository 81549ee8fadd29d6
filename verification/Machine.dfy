/** The fixed-width integers of the program, for the places where a step could wrap around. */
module Machine {
  const MAX_INT64 := 0x7fff_ffff_ffff_ffff
  newtype int64 = x: int | -0x8000_0000_0000_0000 <= x <= MAX_INT64
  newtype uint64 = x: int | 0 <= x <= 0xffff_ffff_ffff_ffff
}
