/** Sizes all parts share. */
module Sizes {
  const BLOCK_SIZE := 4096

  /** Pointers in a pointer block. */
  const SLOTS := 512

  function Min(a: nat, b: nat): nat {
    if a < b then a else b
  }

  function Max(a: nat, b: nat): nat {
    if a < b then b else a
  }

  /** Blocks for `size` bytes. */
  function DivCeil(size: nat): nat {
    (size + BLOCK_SIZE - 1) / BLOCK_SIZE
  }
}
