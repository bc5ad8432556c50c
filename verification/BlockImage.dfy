/** The image seen block by block: the data bitmap, the 512 pointer words of a block, and the writes
    that change them (src/disk.rs, `read_block_ptr`, `write_block_ptr`). */
module BlockImage {
  import opened Sizes
  import opened Bytes
  import opened MetadataOps
  import opened ImageModel
  import opened BitList
  import opened PointerTree

  const BLOCK_BITS := 32768

  /** The layout facts a mounted image guarantees: the first data bitmap block lies before the data
      area, and the image holds every block. */
  predicate Mounted(g: Geometry, len: nat) {
    && g.blockSize == BLOCK_SIZE
    && 0 < g.dataBitmapBlocks && g.dataBitmapBlock + g.dataBitmapBlocks <= g.dataBlockStart
    && 0 < g.dataBlockStart <= g.blockCount < U64_MAX
    && BLOCK_BITS * g.blockCount <= len
  }

  predicate IsData(g: Geometry, b: nat) {
    g.dataBlockStart <= b < g.blockCount
  }

  /** The bits of block `b`; a block beyond the image reads as nothing. */
  function BlockBits(img: Image, b: nat): (r: seq<bool>)
    ensures |r| == 0 || |r| == BLOCK_BITS
  {
    if BLOCK_BITS * b + BLOCK_BITS <= |img| then img[BLOCK_BITS * b..BLOCK_BITS * b + BLOCK_BITS] else []
  }

  function Word(block: seq<bool>, slot: nat): (v: u64) {
    if |block| == BLOCK_BITS && slot < SLOTS
    then
      var w := block[64 * slot..64 * slot + 64];
      WordIsU64(w);
      FromBits(w)
    else 0
  }

  lemma WordIsU64(w: seq<bool>)
    requires |w| == 64
    ensures FromBits(w) < 0x1_0000_0000_0000_0000
  {
    FromBitsRoundTrip(w);
    Pow2Of64();
  }

  lemma Pow2Of64()
    ensures Pow2(64) == 0x1_0000_0000_0000_0000
  {
    assert Pow2(8) == 256;
    assert Pow2(16) == 0x1_0000;
    assert Pow2(24) == 0x100_0000;
    assert Pow2(32) == 0x1_0000_0000;
    assert Pow2(40) == 0x100_0000_0000;
    assert Pow2(48) == 0x1_0000_0000_0000;
    assert Pow2(56) == 0x100_0000_0000_0000;
  }

  /** `read_block_ptr`. */
  function ReadPtr(img: Image, b: nat, slot: nat): u64 {
    Word(BlockBits(img, b), slot)
  }

  /** The image as the reader of pointer slots that resolution uses. */
  function PtrReader(img: Image): Reader {
    (b, t) => ReadPtr(img, b, t)
  }

  function DataBits(g: Geometry, img: Image): (r: seq<bool>)
    requires Mounted(g, |img|)
    ensures |r| == BLOCK_BITS
  {
    img[BLOCK_BITS * g.dataBitmapBlock..BLOCK_BITS * g.dataBitmapBlock + BLOCK_BITS]
  }

  /** A data block the bitmap tracks and does not mark. */
  predicate Free(g: Geometry, img: Image, b: nat)
    requires Mounted(g, |img|)
  {
    IsData(g, b) && b - g.dataBlockStart < BLOCK_BITS && !DataBits(g, img)[b - g.dataBlockStart]
  }

  ghost predicate Clear(block: seq<bool>) {
    forall i :: 0 <= i < |block| ==> !block[i]
  }

  lemma {:induction false} FromBitsClear(s: seq<bool>)
    requires Clear(s)
    ensures FromBits(s) == 0
  {
    if s != [] { FromBitsClear(s[1..]); }
  }

  lemma ClearWord(block: seq<bool>, slot: nat)
    requires Clear(block)
    ensures Word(block, slot) == 0
  {
    if |block| == BLOCK_BITS && slot < SLOTS { FromBitsClear(block[64 * slot..64 * slot + 64]); }
  }

  // ---------------------------------------------------------------------------
  // Writes
  // ---------------------------------------------------------------------------

  /** Marks block `b` in the data bitmap. */
  function MarkUsed(g: Geometry, img: Image, b: nat): (r: Image)
    requires Mounted(g, |img|) && IsData(g, b) && b - g.dataBlockStart < BLOCK_BITS
    ensures |r| == |img|
  {
    Splice(img, BLOCK_BITS * g.dataBitmapBlock + (b - g.dataBlockStart), [true])
  }

  function ZeroBlock(img: Image, b: nat): (r: Image)
    ensures |r| == |img|
  {
    if BLOCK_BITS * b + BLOCK_BITS <= |img| then Splice(img, BLOCK_BITS * b, Repeat(false, BLOCK_BITS)) else img
  }

  /** `write_block_ptr`. */
  function WritePtr(img: Image, b: nat, slot: nat, v: u64): (r: Image)
    requires slot < SLOTS
    ensures |r| == |img|
  {
    if BLOCK_BITS * b + BLOCK_BITS <= |img| then Splice(img, BLOCK_BITS * b + 64 * slot, ToBits(v, 64)) else img
  }

  lemma MarkUsedIsOp(g: Geometry, img: Image, b: nat)
    requires Mounted(g, |img|) && IsData(g, b) && b - g.dataBlockStart < BLOCK_BITS
    ensures Apply(g, img, SetDataBitmap(b, true)) == Ok(MarkUsed(g, img, b))
  {
    SpanBits(g, g.dataBitmapBlocks, b - g.dataBlockStart);
    assert BlockBit(g, g.dataBitmapBlock) == BLOCK_BITS * g.dataBitmapBlock;
  }

  lemma WritePtrIsOp(g: Geometry, img: Image, b: nat, slot: nat, v: u64)
    requires Mounted(g, |img|) && IsData(g, b) && slot < SLOTS
    ensures Apply(g, img, WriteBlockSlice(b, 8 * slot, LE64(v))) == Ok(WritePtr(img, b, slot, v))
  {
    BitsOfLE(v, 8);
    assert BlockBit(g, b) == BLOCK_BITS * b;
  }

  lemma MarkUsedViews(g: Geometry, img: Image, b: nat)
    requires Mounted(g, |img|) && IsData(g, b) && b - g.dataBlockStart < BLOCK_BITS
    ensures DataBits(g, MarkUsed(g, img, b)) == SetBits(DataBits(g, img), b - g.dataBlockStart, 1, true)
    ensures forall c :: IsData(g, c) ==> BlockBits(MarkUsed(g, img, b), c) == BlockBits(img, c)
  {
  }

  lemma WritePtrViews(g: Geometry, img: Image, b: nat, slot: nat, v: u64)
    requires Mounted(g, |img|) && IsData(g, b) && slot < SLOTS
    ensures DataBits(g, WritePtr(img, b, slot, v)) == DataBits(g, img)
    ensures forall c :: IsData(g, c) && c != b ==> BlockBits(WritePtr(img, b, slot, v), c) == BlockBits(img, c)
    ensures forall t :: 0 <= t < SLOTS ==>
              ReadPtr(WritePtr(img, b, slot, v), b, t) == if t == slot then v else ReadPtr(img, b, t)
  {
    var img' := WritePtr(img, b, slot, v);
    forall c | IsData(g, c) && c != b ensures BlockBits(img', c) == BlockBits(img, c) {}
    forall t | 0 <= t < SLOTS ensures ReadPtr(img', b, t) == if t == slot then v else ReadPtr(img, b, t) {
      WordAfterWrite(img, b, slot, v, t);
    }
  }

  lemma WordAfterWrite(img: Image, b: nat, slot: nat, v: u64, t: nat)
    requires BLOCK_BITS * b + BLOCK_BITS <= |img| && slot < SLOTS && t < SLOTS
    ensures ReadPtr(WritePtr(img, b, slot, v), b, t) == if t == slot then v else ReadPtr(img, b, t)
  {
    hide ToBits, FromBits;
    var at := BLOCK_BITS * b + 64 * t;
    WordAt(img, b, t);
    WordAt(WritePtr(img, b, slot, v), b, t);
    SpliceWindow(img, BLOCK_BITS * b + 64 * slot, ToBits(v, 64), at);
    Pow2Of64();
    BitsRoundTrip(v, 64);
  }

  lemma WordAt(img: Image, b: nat, t: nat)
    requires BLOCK_BITS * b + BLOCK_BITS <= |img| && t < SLOTS
    ensures ReadPtr(img, b, t) == FromBits(img[BLOCK_BITS * b + 64 * t..BLOCK_BITS * b + 64 * t + 64])
  {
    hide FromBits;
    assert BlockBits(img, b)[64 * t..64 * t + 64] == img[BLOCK_BITS * b + 64 * t..BLOCK_BITS * b + 64 * t + 64];
  }

  lemma SpliceWindow(img: Image, pos: nat, bits: seq<bool>, at: nat)
    requires |bits| == 64 && pos + 64 <= |img| && at + 64 <= |img|
    ensures at == pos ==> Splice(img, pos, bits)[at..at + 64] == bits
    ensures at + 64 <= pos || pos + 64 <= at ==> Splice(img, pos, bits)[at..at + 64] == img[at..at + 64]
  {
    hide Splice;
    var r := Splice(img, pos, bits);
    assert |r| == |img|;
  }
}
