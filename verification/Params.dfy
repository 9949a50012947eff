/** Sizes and codes of inc/fs.h. */
module Params {
  /** Log entries that begin_op reserves for an operation. */
  const MAXOPBLOCKS: nat := 10
  /** Buffers in the cache. */
  const NBUF: nat := 30
  /** Entries in a log header. */
  const LOGSIZE: nat := 30

  const ROOTINO: nat := 1

  const T_DIR: nat := 1
  const T_FILE: nat := 2
  const T_DEV: nat := 3
}
