/** Sizes that several components share. */
module Limits {
  /** Bytes in a page, and in a block of the log file. */
  const PAGE_SIZE := 4096

  const U32_BOUND: nat := 0x1_0000_0000
  const U64_BOUND: nat := 0x1_0000_0000_0000_0000

  /** Entries the ingestion queue holds. */
  const CAPACITY := 1_000_000
}
