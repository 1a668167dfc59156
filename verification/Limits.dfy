/** How much data a value can have, and where it is kept (hive/edit/vkedit.go, hive/bigdata/writer.go). */
module Limits {
  /** Data above this is big data. */
  const MAX_EXTERNAL := 16344

  const MAX_BLOCK := 16344
  const MAX_BLOCKS := 65535

  /** The most data that can be stored. */
  const MOST := MAX_BLOCKS * MAX_BLOCK
}
