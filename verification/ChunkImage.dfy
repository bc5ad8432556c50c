/** A flat image as the store of a chunked file, and what redoing journal operations does to that store. */
module ChunkImage {
  import opened Sizes
  import opened Bytes
  import opened MetadataOps
  import opened ImageModel
  import opened BitList
  import opened BlockImage
  import opened ChunkStore
  import CT = ChunkTree

  // ---------------------------------------------------------------------------
  // Blocks as bytes
  // ---------------------------------------------------------------------------

  function ByteOf(bits: seq<bool>, i: nat): byte
    requires 8 * i + 8 <= |bits|
  {
    ByteFits(bits[8 * i..8 * i + 8]);
    FromBits(bits[8 * i..8 * i + 8])
  }

  lemma ByteFits(bits: seq<bool>)
    requires |bits| == 8
    ensures FromBits(bits) < 256
  {
    FromBitsRoundTrip(bits);
    assert Pow2(8) == 256;
  }

  function BytesIn(bits: seq<bool>): (r: CT.Block)
    requires |bits| == BLOCK_BITS
    ensures forall i :: 0 <= i < BLOCK_SIZE ==> r[i] == ByteOf(bits, i)
  {
    seq<byte>(BLOCK_SIZE, i requires 0 <= i < BLOCK_SIZE => ByteOf(bits, i))
  }

  lemma BitsBack(bits: seq<bool>)
    requires |bits| == BLOCK_BITS
    ensures BitsOf(BytesIn(bits)) == bits
  {
    hide BitsOf, BytesIn, FromBits, ToBits;
    var r := BitsOf(BytesIn(bits));
    forall p | 0 <= p < BLOCK_BITS ensures r[p] == bits[p] {
      var i, j := p / 8, p % 8;
      BitsOfAt(BytesIn(bits), i, j);
      FromBitsRoundTrip(bits[8 * i..8 * i + 8]);
      assert bits[8 * i..8 * i + 8][j] == bits[p];
    }
  }

  lemma ByteOfBits(s: seq<byte>, i: nat)
    requires i < |s|
    ensures 8 * i + 8 <= |BitsOf(s)| && ByteOf(BitsOf(s), i) == s[i]
  {
    hide BitsOf, ToBits;
    var w := BitsOf(s)[8 * i..8 * i + 8];
    forall j | 0 <= j < 8 ensures w[j] == ToBits(s[i], 8)[j] { BitsOfAt(s, i, j); }
    assert w == ToBits(s[i], 8);
    assert Pow2(8) == 256;
    BitsRoundTrip(s[i], 8);
  }

  lemma BytesBack(block: CT.Block)
    ensures |BitsOf(block)| == BLOCK_BITS && BytesIn(BitsOf(block)) == block
  {
    hide BitsOf, ByteOf;
    forall i | 0 <= i < BLOCK_SIZE ensures BytesIn(BitsOf(block))[i] == block[i] { ByteOfBits(block, i); }
  }

  // ---------------------------------------------------------------------------
  // The store of an image
  // ---------------------------------------------------------------------------

  /** What lies before the data area belongs to no file; it is left blank. */
  function BlockAt(g: Geometry, img: Image, b: nat): CT.Block
    requires Mounted(g, |img|) && b < g.blockCount
  {
    if IsData(g, b) then BytesIn(BlockBits(img, b)) else CT.ZeroBlock()
  }

  function StoreOf(g: Geometry, img: Image, hint: nat): (st: Store)
    requires Mounted(g, |img|)
    ensures |st.blocks| == g.blockCount && st.dataStart == g.dataBlockStart && |st.used| == BLOCK_BITS
    ensures st.used == DataBits(g, img) && st.hint == hint
    ensures forall b :: 0 <= b < g.blockCount ==> st.blocks[b] == BlockAt(g, img, b)
  {
    var blocks := seq(g.blockCount, b requires 0 <= b < g.blockCount => BlockAt(g, img, b));
    Store(blocks, g.dataBlockStart, DataBits(g, img), hint)
  }

  lemma SameHint(g: Geometry, img: Image, h: nat, h': nat)
    requires Mounted(g, |img|)
    ensures StoreOf(g, img, h).blocks == StoreOf(g, img, h').blocks
  {
  }

  /** The pointer words of the two views agree on the data area. */
  lemma ReadIsSlot(g: Geometry, img: Image, hint: nat, b: nat, t: nat)
    requires Mounted(g, |img|) && IsData(g, b)
    ensures ReadPtr(img, b, t) == CT.Slot(StoreOf(g, img, hint).blocks, b, t)
  {
    hide FromBits, BytesIn, StoreOf;
    if t < SLOTS {
      var bits := BlockBits(img, b);
      var block := BytesIn(bits);
      WordOfBytes(bits, t);
    }
  }

  lemma WordOfBytes(bits: seq<bool>, t: nat)
    requires |bits| == BLOCK_BITS && t < SLOTS
    ensures FromBits(bits[64 * t..64 * t + 64]) == From64(BytesIn(bits)[8 * t..8 * t + 8])
  {
    hide FromBits, BytesIn, ToBits, BitsOf, LE, FromLE, Pow2;
    var block := BytesIn(bits);
    var w := block[8 * t..8 * t + 8];
    BitsBack(bits);
    assert block == block[..8 * t] + w + block[8 * t + 8..];
    BitsOfConcat(block[..8 * t] + w, block[8 * t + 8..]);
    BitsOfConcat(block[..8 * t], w);
    assert bits[64 * t..64 * t + 64] == BitsOf(w);
    FromLERoundTrip(w);
    BitsOfLE(FromLE(w), 8);
    FromLEBound(w);
    Pow256Values();
    Pow2Of64();
    BitsRoundTrip(FromLE(w), 64);
  }

  /** Images with the same data blocks and bitmap are the same store, and only those. */
  lemma SameStore(g: Geometry, a: Image, b: Image, hint: nat)
    requires Mounted(g, |a|) && Mounted(g, |b|)
    ensures StoreOf(g, a, hint) == StoreOf(g, b, hint) <==>
            DataBits(g, a) == DataBits(g, b) && forall c :: IsData(g, c) ==> BlockBits(a, c) == BlockBits(b, c)
  {
    hide BlockBits, DataBits, BytesIn;
    var x, y := StoreOf(g, a, hint), StoreOf(g, b, hint);
    if x == y {
      forall c: nat | IsData(g, c) ensures BlockBits(a, c) == BlockBits(b, c) {
        assert x.blocks[c] == y.blocks[c];
        DataLength(g, a, c);
        DataLength(g, b, c);
        BitsBack(BlockBits(a, c));
        BitsBack(BlockBits(b, c));
      }
    }
    assert (DataBits(g, a) == DataBits(g, b) && forall c :: IsData(g, c) ==> BlockBits(a, c) == BlockBits(b, c)) ==>
        x.blocks == y.blocks;
  }

  lemma DataLength(g: Geometry, img: Image, b: nat)
    requires Mounted(g, |img|) && IsData(g, b)
    ensures |BlockBits(img, b)| == BLOCK_BITS
  {
  }

  // ---------------------------------------------------------------------------
  // Redo on a store
  // ---------------------------------------------------------------------------

  /** An operation on blocks the first bitmap block tracks, within a block. */
  predicate Proper(g: Geometry, op: MetadataOp) {
    match op
    case SetDataBitmap(b, _) => IsData(g, b) && b < g.dataBlockStart + BLOCK_BITS
    case SetDataBitmapRange(start, count, _) =>
      g.dataBlockStart <= start && start + count <= g.blockCount && start + count <= g.dataBlockStart + BLOCK_BITS
    case WriteBlockSlice(b, off, data) => IsData(g, b) && off + |data| <= BLOCK_SIZE
    case _ => false
  }

  function Patch(block: CT.Block, off: nat, data: seq<byte>): (r: CT.Block)
    requires off + |data| <= BLOCK_SIZE
    ensures forall i :: 0 <= i < BLOCK_SIZE ==> r[i] == if off <= i < off + |data| then data[i - off] else block[i]
  {
    block[..off] + data + block[off + |data|..]
  }

  function RedoOne(st: Store, op: MetadataOp): (r: Store)
    ensures SameShape(st, r) && r.hint == st.hint
  {
    match op
    case SetDataBitmap(b, v) => if b < st.dataStart then st else st.(used := SetBits(st.used, b - st.dataStart, 1, v))
    case SetDataBitmapRange(start, count, v) =>
      if start < st.dataStart then st else st.(used := SetBits(st.used, start - st.dataStart, count, v))
    case WriteBlockSlice(b, off, data) =>
      if b < |st.blocks| && off + |data| <= BLOCK_SIZE
      then st.(blocks := st.blocks[b := Patch(st.blocks[b], off, data)])
      else st
    case _ => st
  }

  function Redo(st: Store, ops: seq<MetadataOp>): (r: Store)
    ensures SameShape(st, r) && r.hint == st.hint
  {
    if ops == [] then st else RedoOne(Redo(st, ops[..|ops| - 1]), ops[|ops| - 1])
  }

  lemma RedoSnoc(st: Store, ops: seq<MetadataOp>, op: MetadataOp)
    ensures Redo(st, ops + [op]) == RedoOne(Redo(st, ops), op)
  {
    assert (ops + [op])[..|ops|] == ops;
  }

  predicate AllProper(g: Geometry, ops: seq<MetadataOp>) {
    forall i :: 0 <= i < |ops| ==> Proper(g, ops[i])
  }

  // ---------------------------------------------------------------------------
  // Redo on the image is redo on its store
  // ---------------------------------------------------------------------------

  lemma BitmapPos(g: Geometry, len: nat, at: nat, count: nat)
    requires Mounted(g, len) && at + count <= BLOCK_BITS
    ensures BlockBit(g, g.dataBitmapBlock) == BLOCK_BITS * g.dataBitmapBlock
    ensures BLOCK_BITS <= BlockBit(g, g.dataBitmapBlocks)
    ensures SpanFits(g, len, g.dataBitmapBlock, g.dataBitmapBlocks)
    ensures forall b :: IsData(g, b) ==> BLOCK_BITS * g.dataBitmapBlock + BLOCK_BITS <= BLOCK_BITS * b
  {
  }

  predicate Marks(op: MetadataOp, start: nat, count: nat, v: bool) {
    || (op.SetDataBitmap? && op.blockId == start && count == 1 && op.used == v)
    || (op.SetDataBitmapRange? && op.startBlock == start && op.count == count && op.used == v)
  }

  lemma RedoBits(g: Geometry, img: Image, op: MetadataOp, hint: nat, at: nat, count: nat, v: bool)
    requires Mounted(g, |img|) && Proper(g, op)
    requires Marks(op, at + g.dataBlockStart, count, v)
    ensures Apply(g, img, op).Ok?
    ensures StoreOf(g, Apply(g, img, op).value, hint) ==
            StoreOf(g, img, hint).(used := SetBits(DataBits(g, img), at, count, v))
  {
    hide BytesIn, BlockBit, SetBits;
    BitmapPos(g, |img|, at, count);
    if op.SetDataBitmap? { SpanBits(g, g.dataBitmapBlocks, at); }
    assert Apply(g, img, op).Ok?;
    var img' := Apply(g, img, op).value;
    BitsMarked(g, img, img', op, at, count, v);
    var x, y := StoreOf(g, img', hint), StoreOf(g, img, hint);
    assert x.blocks == y.blocks;
  }

  lemma BitsMarked(g: Geometry, img: Image, img': Image, op: MetadataOp, at: nat, count: nat, v: bool)
    requires Mounted(g, |img|) && Apply(g, img, op) == Ok(img') && at + count <= BLOCK_BITS
    requires Marks(op, at + g.dataBlockStart, count, v)
    ensures DataBits(g, img') == SetBits(DataBits(g, img), at, count, v)
    ensures forall b :: IsData(g, b) ==> BlockBits(img', b) == BlockBits(img, b)
  {
    hide BlockBit;
    BitmapPos(g, |img|, at, count);
    var pos := BLOCK_BITS * g.dataBitmapBlock + at;
    assert OpPos(g, op) == pos && OpBits(g, op) == Repeat(v, count);
    assert forall p :: 0 <= p < |img| ==> img'[p] == if pos <= p < pos + count then v else img[p];
  }

  lemma RedoSlice(g: Geometry, img: Image, b: u64, off: u32, data: seq<byte>, hint: nat)
    requires Mounted(g, |img|) && IsData(g, b) && off + |data| <= BLOCK_SIZE
    ensures var op := WriteBlockSlice(b, off, data);
            && Apply(g, img, op).Ok?
            && StoreOf(g, Apply(g, img, op).value, hint) == RedoOne(StoreOf(g, img, hint), op)
  {
    hide BytesIn, BitsOf, StoreOf, BlockBits, DataBits, Patch, Splice;
    var op := WriteBlockSlice(b, off, data);
    assert BlockBit(g, b) == BLOCK_BITS * b && BlockBit(g, 1) == BLOCK_BITS;
    var img' := Splice(img, BLOCK_BITS * b + 8 * off, BitsOf(data));
    assert data == [] ==> img' == img;
    assert Apply(g, img, op) == Ok(img');
    SliceAround(g, img, b, 8 * off, BitsOf(data));
    var x, y := StoreOf(g, img', hint), RedoOne(StoreOf(g, img, hint), op);
    DataLength(g, img, b);
    PatchedBytes(BlockBits(img, b), off, data);
    assert x.blocks == y.blocks;
  }

  lemma SliceAround(g: Geometry, img: Image, b: nat, off: nat, bits: seq<bool>)
    requires Mounted(g, |img|) && IsData(g, b) && off + |bits| <= BLOCK_BITS
    ensures |BlockBits(img, b)| == BLOCK_BITS && BLOCK_BITS * b + off + |bits| <= |img|
    ensures var img' := Splice(img, BLOCK_BITS * b + off, bits);
            && DataBits(g, img') == DataBits(g, img)
            && BlockBits(img', b) == Splice(BlockBits(img, b), off, bits)
            && forall c :: IsData(g, c) && c != b ==> BlockBits(img', c) == BlockBits(img, c)
  {
    hide Splice;
    var img' := Splice(img, BLOCK_BITS * b + off, bits);
    forall c: nat | IsData(g, c) && c != b ensures BlockBits(img', c) == BlockBits(img, c) {
      assert BLOCK_BITS * c + BLOCK_BITS <= BLOCK_BITS * b || BLOCK_BITS * b + BLOCK_BITS <= BLOCK_BITS * c;
    }
  }

  lemma PatchedBytes(bits: seq<bool>, off: nat, data: seq<byte>)
    requires |bits| == BLOCK_BITS && off + |data| <= BLOCK_SIZE
    ensures BytesIn(Splice(bits, 8 * off, BitsOf(data))) == Patch(BytesIn(bits), off, data)
  {
    hide BitsOf, ByteOf, Splice;
    var x := Splice(bits, 8 * off, BitsOf(data));
    forall i | 0 <= i < BLOCK_SIZE
      ensures ByteOf(x, i) == if off <= i < off + |data| then data[i - off] else ByteOf(bits, i)
    {
      PatchedByte(bits, off, data, i);
    }
  }

  lemma PatchedByte(bits: seq<bool>, off: nat, data: seq<byte>, i: nat)
    requires |bits| == BLOCK_BITS && off + |data| <= BLOCK_SIZE && i < BLOCK_SIZE
    ensures ByteOf(Splice(bits, 8 * off, BitsOf(data)), i) ==
            if off <= i < off + |data| then data[i - off] else ByteOf(bits, i)
  {
    hide BitsOf, FromBits, Splice;
    SpliceByte(bits, 8 * off, BitsOf(data), 8 * i);
    if off <= i < off + |data| { ByteOfBits(data, i - off); }
  }

  lemma SpliceByte(bits: seq<bool>, at: nat, new': seq<bool>, p: nat)
    requires at + |new'| <= |bits| && p + 8 <= |bits|
    ensures p + 8 <= at || at + |new'| <= p ==> Splice(bits, at, new')[p..p + 8] == bits[p..p + 8]
    ensures at <= p && p + 8 <= at + |new'| ==> Splice(bits, at, new')[p..p + 8] == new'[p - at..p - at + 8]
  {
    hide Splice;
    var x := Splice(bits, at, new');
    assert |x| == |bits|;
  }

  lemma RedoOneLifts(g: Geometry, img: Image, op: MetadataOp, hint: nat)
    requires Mounted(g, |img|) && Proper(g, op)
    ensures Apply(g, img, op).Ok? && StoreOf(g, Apply(g, img, op).value, hint) == RedoOne(StoreOf(g, img, hint), op)
  {
    hide StoreOf, Apply, SetBits, Patch;
    match op
    case SetDataBitmap(b, v) => RedoBits(g, img, op, hint, b - g.dataBlockStart, 1, v);
    case SetDataBitmapRange(start, count, v) => RedoBits(g, img, op, hint, start - g.dataBlockStart, count, v);
    case WriteBlockSlice(b, off, data) => RedoSlice(g, img, b, off, data, hint);
  }

  /** Proper operations can be applied, and do to the store of the image what redo does. */
  lemma {:induction false} RedoLifts(g: Geometry, img: Image, ops: seq<MetadataOp>, hint: nat)
    requires Mounted(g, |img|) && AllProper(g, ops)
    ensures ApplyAll(g, img, ops).Ok? && |ApplyAll(g, img, ops).value| == |img|
    ensures StoreOf(g, ApplyAll(g, img, ops).value, hint) == Redo(StoreOf(g, img, hint), ops)
    decreases |ops|
  {
    hide StoreOf, Apply, RedoOne, Proper;
    if ops != [] {
      var n := |ops| - 1;
      RedoLifts(g, img, ops[..n], hint);
      assert ops == ops[..n] + [ops[n]];
      ApplyAllSnoc(g, img, ops[..n], ops[n]);
      RedoOneLifts(g, ApplyAll(g, img, ops[..n]).value, ops[n], hint);
    }
  }

  // ---------------------------------------------------------------------------
  // What redo depends on
  // ---------------------------------------------------------------------------

  /** Some operation writes byte `q` of block `b`. */
  predicate CoversByte(op: MetadataOp, b: nat, q: nat) {
    op.WriteBlockSlice? && op.blockId == b && op.offset <= q < op.offset + |op.data|
  }

  ghost predicate Overwritten(ops: seq<MetadataOp>, b: nat, q: nat) {
    exists i :: 0 <= i < |ops| && CoversByte(ops[i], b, q)
  }

  predicate SlicesFit(ops: seq<MetadataOp>) {
    forall i :: 0 <= i < |ops| && ops[i].WriteBlockSlice? ==> ops[i].offset + |ops[i].data| <= BLOCK_SIZE
  }

  /** Bits do not depend on blocks; a byte that is written does not depend on what was there, and one that
      is not stays. */
  lemma {:induction false} RedoRebased(st: Store, blocks: CT.Blocks, ops: seq<MetadataOp>)
    requires |blocks| == |st.blocks| && SlicesFit(ops)
    ensures var r, r' := Redo(st, ops), Redo(st.(blocks := blocks), ops);
            && r'.used == r.used
            && (forall b, q :: 0 <= b < |blocks| && 0 <= q < BLOCK_SIZE ==>
                  r'.blocks[b][q] == if Overwritten(ops, b, q) then r.blocks[b][q] else blocks[b][q])
    decreases |ops|
  {
    hide SetBits;
    if ops != [] {
      var n := |ops| - 1;
      RedoRebased(st, blocks, ops[..n]);
      var r, r' := Redo(st, ops), Redo(st.(blocks := blocks), ops);
      forall b, q | 0 <= b < |blocks| && 0 <= q < BLOCK_SIZE
        ensures r'.blocks[b][q] == if Overwritten(ops, b, q) then r.blocks[b][q] else blocks[b][q]
      {
        OverwrittenSnoc(ops[..n], ops[n], b, q);
        assert ops == ops[..n] + [ops[n]];
      }
    }
  }

  lemma OverwrittenSnoc(ops: seq<MetadataOp>, op: MetadataOp, b: nat, q: nat)
    ensures Overwritten(ops + [op], b, q) <==> Overwritten(ops, b, q) || CoversByte(op, b, q)
  {
    var all := ops + [op];
    if Overwritten(ops, b, q) {
      var i :| 0 <= i < |ops| && CoversByte(ops[i], b, q);
      assert CoversByte(all[i], b, q);
    }
    assert all[|ops|] == op;
  }
}
