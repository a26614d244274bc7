/** Machine widths. */
module Widths {
  const TWO16 := 0x1_0000

  const TWO32 := 0x1_0000_0000

  const TWO64 := 0x1_0000_0000_0000_0000

  /** A 32-bit value read as signed. */
  function S32(w: nat): int
    requires w < TWO32
  {
    if w >= 0x8000_0000 then w - TWO32 else w
  }
}
