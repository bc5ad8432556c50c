/** The 8x8 bit transposition by delta swaps (src/filters.rs, `transpose_8x8_u64`). */
module Transpose {

  // Each step swaps the bits under its mask with those 7, 14 or 28 places higher.

  function Swap7(x: bv64): bv64 {
    var t := (x ^ (x >> 7)) & 0x00AA00AA00AA00AA;
    x ^ t ^ (t << 7)
  }

  function Swap14(x: bv64): bv64 {
    var t := (x ^ (x >> 14)) & 0x0000CCCC0000CCCC;
    x ^ t ^ (t << 14)
  }

  function Swap28(x: bv64): bv64 {
    var t := (x ^ (x >> 28)) & 0x00000000F0F0F0F0;
    x ^ t ^ (t << 28)
  }

  /** All zeros and all ones are returned as they are. */
  function Transpose8x8(x: bv64): bv64 {
    if x == 0 || x == 0xFFFF_FFFF_FFFF_FFFF then x else Swap28(Swap14(Swap7(x)))
  }

  /** Byte `r` of the word: row `r` of the bit matrix. */
  function Row(x: bv64, r: bv7): bv64
    requires r < 8
  {
    (x >> (r << 3)) & 0xFF
  }

  /** Bit `r` of every byte, lowest byte first: column `r`. */
  function Column(x: bv64, r: bv7): bv64
    requires r < 8
  {
    var y := x >> r;
    (y & 1) | ((y >> 7) & 2) | ((y >> 14) & 4) | ((y >> 21) & 8)
    | ((y >> 28) & 16) | ((y >> 35) & 32) | ((y >> 42) & 64) | ((y >> 49) & 128)
  }

  lemma SwapRow(x: bv64, r: bv7)
    requires r < 8
    ensures Row(Swap28(Swap14(Swap7(x))), r) == Column(x, r)
  {
    if r == 0 {} else if r == 1 {} else if r == 2 {} else if r == 3 {}
    else if r == 4 {} else if r == 5 {} else if r == 6 {} else {}
  }

  lemma SwapColumn(x: bv64, r: bv7)
    requires r < 8
    ensures Column(Swap28(Swap14(Swap7(x))), r) == Row(x, r)
  {
    if r == 0 {} else if r == 1 {} else if r == 2 {} else if r == 3 {}
    else if r == 4 {} else if r == 5 {} else if r == 6 {} else {}
  }

  lemma RowsDecide(x: bv64, y: bv64)
    requires forall r: bv7 :: r < 8 ==> Row(x, r) == Row(y, r)
    ensures x == y
  {
    assert Row(x, 0) == Row(y, 0);
    assert Row(x, 1) == Row(y, 1);
    assert Row(x, 2) == Row(y, 2);
    assert Row(x, 3) == Row(y, 3);
    assert Row(x, 4) == Row(y, 4);
    assert Row(x, 5) == Row(y, 5);
    assert Row(x, 6) == Row(y, 6);
    assert Row(x, 7) == Row(y, 7);
  }

  lemma EdgeWords(r: bv7)
    requires r < 8
    ensures Row(0, r) == Column(0, r)
    ensures Row(0xFFFF_FFFF_FFFF_FFFF, r) == Column(0xFFFF_FFFF_FFFF_FFFF, r)
  {
  }

  /** The word function is the matrix transpose: each row of the result is that column of the
      argument, and each column that row. */
  lemma TransposeIsTranspose(x: bv64, r: bv7)
    requires r < 8
    ensures Row(Transpose8x8(x), r) == Column(x, r)
    ensures Column(Transpose8x8(x), r) == Row(x, r)
  {
    hide Row, Column, Swap7, Swap14, Swap28;
    SwapRow(x, r);
    SwapColumn(x, r);
    EdgeWords(r);
  }

  lemma TransposeInvolution(x: bv64)
    ensures Transpose8x8(Transpose8x8(x)) == x
  {
    hide Row, Column, Transpose8x8;
    forall r: bv7 | r < 8 ensures Row(Transpose8x8(Transpose8x8(x)), r) == Row(x, r) {
      TransposeIsTranspose(Transpose8x8(x), r);
      TransposeIsTranspose(x, r);
    }
    RowsDecide(Transpose8x8(Transpose8x8(x)), x);
  }
}
