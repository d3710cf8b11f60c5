/** The Wishbone B.4 cycle type identifier codes (CTI_O/CTI_I) the adapters drive and decode. */
module WishboneTypes {
  const WB_CTI_CLASSIC: nat := 0
  const WB_CTI_FIXED: nat := 1
  const WB_CTI_INCR: nat := 2
  const WB_CTI_END: nat := 7
}
