/**
 * The configuration constants the crate is compiled with: the defaults that
 * the build script resolves when no configuration file overrides them, plus
 * the page geometry of the crate root.
 */
module Config {
  /** log2 of the page size (src/lib.rs). */
  const PAGE_SHIFT: nat := 13
  /** Bytes per page: 1 << PAGE_SHIFT. */
  const PAGE_SIZE: nat := 8192
  /** Largest span length, in pages, that has an exact-size free list. */
  const MAX_PAGES: nat := 128
  /** Batch slots per size class in the transfer cache. */
  const MAX_TRANSFER_SLOTS: nat := 64
  /** Overages tolerated before a thread free list's max_length shrinks. */
  const MAX_OVERAGES: nat := 3
  /** Upper bound on a thread free list's max_length. */
  const MAX_DYNAMIC_FREE_LIST_LENGTH: nat := 8192
  /** Budget every thread cache claims when it is initialised. */
  const MIN_PER_THREAD_CACHE_SIZE: nat := 524288
  /** Budget shared by all thread caches. */
  const OVERALL_THREAD_CACHE_SIZE: nat := 33554432
  /** Budget a thread cache takes from the shared pool when it grows. */
  const STEAL_AMOUNT: nat := 65536
}
