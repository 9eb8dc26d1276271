/** Sizes that several parts of the kernel share. */
module Constants {
  /** Unsigned 32-bit arithmetic wraps around here. */
  const WORD := 0x1_0000_0000

  /** The most pages that one FUSE request carries. */
  const MAX_PAGES_PER_REQ: nat := 32
}
