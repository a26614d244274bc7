/** What the two HBM engines of boards/hbm_common.py share of their AXI ports: 33 address
    bits and 32-byte beats. */
module HbmAxi {
  const ADDR_SPACE := 0x2_0000_0000

  /** Where a full-width beat's data lie: in the aligned thirty-two bytes, whatever the
      address within them (section A3.4.1 of ARM IHI 0022E). */
  function Aligned(a: nat): nat {
    a - a % 32
  }

  lemma AlignedAhead(a: nat, k: nat)
    ensures Aligned(a + 32 * k) == Aligned(a) + 32 * k
  {
  }
}
