/** The simulator's compile-time parameters. */
module Params {
  const TLB_SIZE: nat := 16
  /** Logical pages. */
  const PAGES: nat := 1024
  /** Physical frames. */
  const FRAMES: nat := 256
  const PAGE_SIZE: nat := 1024
  const OFFSET_BITS: nat := 10
  const OFFSET_MASK: nat := 0x3FF
  /** Main memory: FRAMES frames of PAGE_SIZE bytes. */
  const MEMORY_SIZE: nat := FRAMES * PAGE_SIZE

  /** The replacement policies `atoi(argv[2])` selects. */
  const FIFO: int := 0
  const LRU: int := 1
}
