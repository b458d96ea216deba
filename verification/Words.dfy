/** The machine words of the source. */
module Words {
  const WORD32 := 0x1_0000_0000
  const WORD := 0x1_0000_0000_0000_0000
  const UINT64_MAX := 0xFFFF_FFFF_FFFF_FFFF
  const INT64_MAX := 0x7FFF_FFFF_FFFF_FFFF
}
