/** Coalescing keeps the meaning of a transaction, and exactly when it does not. */
module CoalesceTheorem {
  import opened Arith
  import opened Bytes
  import opened LastWins
  import opened MetadataOps
  import opened ImageModel
  import opened Coalesce
  import opened CoalesceMeaning

  // ---------------------------------------------------------------------------
  // Regions of the image
  // ---------------------------------------------------------------------------

  datatype Region = InodeBitmap | DataBitmap | InodeTable | DataArea

  function Lo(g: Geometry, r: Region): nat {
    match r
    case InodeBitmap => BlockBit(g, g.inodeBitmapBlock)
    case DataBitmap => BlockBit(g, g.dataBitmapBlock)
    case InodeTable => BlockBit(g, g.inodeTableBlock)
    case DataArea => BlockBit(g, g.dataBlockStart)
  }

  function Hi(g: Geometry, r: Region): nat {
    match r
    case InodeBitmap => BlockBit(g, g.inodeBitmapBlock) + BlockBit(g, g.inodeBitmapBlocks)
    case DataBitmap => BlockBit(g, g.dataBitmapBlock) + BlockBit(g, g.dataBitmapBlocks)
    case InodeTable => BlockBit(g, g.inodeTableBlock) + 8 * INODE_BYTES * g.inodeCount
    case DataArea => BlockBit(g, g.blockCount)
  }

  predicate InRegion(g: Geometry, r: Region, p: nat) {
    Lo(g, r) <= p < Hi(g, r)
  }

  /** The promises of a validated superblock: the four regions lie in the image and apart, and the
      bitmaps have a bit for every inode and every data block. */
  ghost predicate ValidGeometry(g: Geometry, len: nat) {
    && g.blockSize > 0
    && g.dataBlockStart <= g.blockCount < U64_MAX
    && g.inodeCount <= BlockBit(g, g.inodeBitmapBlocks)
    && g.blockCount - g.dataBlockStart <= BlockBit(g, g.dataBitmapBlocks)
    && (forall r :: Hi(g, r) <= len)
    && (forall r, q :: r != q ==> Hi(g, r) <= Lo(g, q) || Hi(g, q) <= Lo(g, r))
  }

  function OpRegion(op: MetadataOp): Region {
    match op
    case SetInodeBitmap(_, _) => InodeBitmap
    case SetDataBitmap(_, _) => DataBitmap
    case SetDataBitmapRange(_, _, _) => DataBitmap
    case WriteInode(_, _) => InodeTable
    case WriteBlockSlice(_, _, _) => DataArea
  }

  /** On a validated image only the ids and sizes of an operation are left to check. */
  predicate Targets(g: Geometry, op: MetadataOp) {
    match op
    case SetInodeBitmap(id, _) => id < g.inodeCount
    case SetDataBitmap(b, _) => g.dataBlockStart <= b < g.blockCount
    case SetDataBitmapRange(start, count, _) => g.dataBlockStart <= start && start + count <= g.blockCount
    case WriteInode(id, _) => id < g.inodeCount
    case WriteBlockSlice(b, off, data) => g.dataBlockStart <= b < g.blockCount && off + |data| <= g.blockSize
  }

  lemma FitsIsTargets(g: Geometry, len: nat, op: MetadataOp)
    requires ValidGeometry(g, len)
    ensures Fits(g, len, op) <==> Targets(g, op)
  {
    match op
    case SetInodeBitmap(id, _) =>
      assert Hi(g, InodeBitmap) <= len;
      SpanBits(g, g.inodeBitmapBlocks, id);
    case SetDataBitmap(b, _) =>
      assert Hi(g, DataBitmap) <= len;
      if g.dataBlockStart <= b { SpanBits(g, g.dataBitmapBlocks, b - g.dataBlockStart); }
    case SetDataBitmapRange(_, _, _) =>
      assert Hi(g, DataBitmap) <= len;
    case WriteInode(id, _) =>
      assert Hi(g, InodeTable) <= len;
    case WriteBlockSlice(b, _, _) =>
      assert Hi(g, DataArea) <= len;
      if b < g.blockCount { MulGap(g.blockSize, b, g.blockCount); }
  }

  lemma OpInRegion(g: Geometry, len: nat, op: MetadataOp, p: nat)
    requires ValidGeometry(g, len) && Targets(g, op)
    requires OpWrite(g, op, p).Some?
    ensures InRegion(g, OpRegion(op), p)
  {
    if op.WriteBlockSlice? {
      SliceInRegion(g, len, op, p);
    } else {
      hide ValidGeometry, BitsOf;
      FixedInRegion(g, len, op, p);
    }
  }

  lemma FixedInRegion(g: Geometry, len: nat, op: MetadataOp, p: nat)
    requires ValidGeometry(g, len) && Targets(g, op) && !op.WriteBlockSlice?
    requires OpWrite(g, op, p).Some?
    ensures InRegion(g, OpRegion(op), p)
  {
    hide BlockBit, BitsOf, ValidGeometry;
    GeometryBounds(g, len);
  }

  lemma GeometryBounds(g: Geometry, len: nat)
    requires ValidGeometry(g, len)
    ensures g.dataBlockStart <= g.blockCount < U64_MAX && g.inodeCount <= BlockBit(g, g.inodeBitmapBlocks)
    ensures g.blockCount - g.dataBlockStart <= BlockBit(g, g.dataBitmapBlocks)
  {
    hide BlockBit;
  }

  lemma SliceInRegion(g: Geometry, len: nat, op: MetadataOp, p: nat)
    requires ValidGeometry(g, len) && Targets(g, op) && op.WriteBlockSlice?
    requires OpWrite(g, op, p).Some?
    ensures InRegion(g, DataArea, p)
  {
    hide BitsOf, ValidGeometry;
    BlockGap(g, op.blockId, g.blockCount);
    if g.dataBlockStart < op.blockId { BlockGap(g, g.dataBlockStart, op.blockId); }
    hide BlockBit;
  }

  lemma BlockGap(g: Geometry, b: nat, c: nat)
    requires b < c
    ensures BlockBit(g, b) + BlockBit(g, 1) <= BlockBit(g, c) && BlockBit(g, 1) == 8 * g.blockSize
  {
    MulGap(g.blockSize, b, c);
  }

  // ---------------------------------------------------------------------------
  // Each bit of a region through the matching view
  // ---------------------------------------------------------------------------

  lemma InodeBitmapWrite(g: Geometry, len: nat, op: MetadataOp, p: nat)
    requires ValidGeometry(g, len) && Targets(g, op) && InRegion(g, InodeBitmap, p)
    ensures OpWrite(g, op, p) == InodeBit(op, p - Lo(g, InodeBitmap))
  {
    if op.SetInodeBitmap? {
    } else {
      OtherRegionSilent(g, len, op, InodeBitmap, p);
    }
  }

  lemma DataBitmapWrite(g: Geometry, len: nat, op: MetadataOp, p: nat)
    requires ValidGeometry(g, len) && Targets(g, op) && InRegion(g, DataBitmap, p)
    ensures OpWrite(g, op, p) == DataBit(op, p - Lo(g, DataBitmap) + g.dataBlockStart)
  {
    if op.SetDataBitmap? || op.SetDataBitmapRange? {
    } else {
      OtherRegionSilent(g, len, op, DataBitmap, p);
    }
  }

  lemma RecordWrite(g: Geometry, len: nat, op: MetadataOp, id: nat, k: nat)
    requires ValidGeometry(g, len) && Targets(g, op) && id < g.inodeCount && k < 8 * INODE_BYTES
    ensures OpWrite(g, op, Lo(g, InodeTable) + 8 * INODE_BYTES * id + k) == RecordBit(op, id, k)
  {
    if !op.WriteInode? {
      OtherRegionSilent(g, len, op, InodeTable, Lo(g, InodeTable) + 8 * INODE_BYTES * id + k);
    }
  }

  lemma BlockWrite(g: Geometry, len: nat, op: MetadataOp, b: nat, k: nat)
    requires ValidGeometry(g, len) && Targets(g, op) && g.dataBlockStart <= b < g.blockCount && k < BlockBit(g, 1)
    ensures OpWrite(g, op, BlockBit(g, b) + k) == BlockBitOf(op, b, k)
  {
    MulGap(g.blockSize, b, g.blockCount);
    if g.dataBlockStart < b { MulGap(g.blockSize, g.dataBlockStart, b); }
    if op.WriteBlockSlice? {
      if op.blockId < b { MulGap(g.blockSize, op.blockId, b); }
      if b < op.blockId { MulGap(g.blockSize, b, op.blockId); }
    } else {
      OtherRegionSilent(g, len, op, DataArea, BlockBit(g, b) + k);
    }
  }

  lemma OtherRegionSilent(g: Geometry, len: nat, op: MetadataOp, r: Region, p: nat)
    requires ValidGeometry(g, len) && Targets(g, op) && InRegion(g, r, p) && OpRegion(op) != r
    ensures OpWrite(g, op, p).None?
  {
    hide OpWrite, Targets;
    if OpWrite(g, op, p).Some? {
      OpInRegion(g, len, op, p);
    }
  }

  // ---------------------------------------------------------------------------
  // Lists with the same views leave the same image
  // ---------------------------------------------------------------------------

  ghost predicate AllTarget(g: Geometry, ops: seq<MetadataOp>) {
    forall i :: 0 <= i < |ops| ==> Targets(g, ops[i])
  }

  lemma FitsAreTargets(g: Geometry, len: nat, ops: seq<MetadataOp>)
    requires ValidGeometry(g, len)
    ensures AllFit(g, len, ops) <==> AllTarget(g, ops)
  {
    hide ValidGeometry, Fits, Targets;
    forall i | 0 <= i < |ops| ensures Fits(g, len, ops[i]) <==> Targets(g, ops[i]) {
      FitsIsTargets(g, len, ops[i]);
    }
  }

  lemma LastWriteView(g: Geometry, ops: seq<MetadataOp>, p: nat, v: MetadataOp -> Option<bool>)
    requires forall i :: 0 <= i < |ops| ==> OpWrite(g, ops[i], p) == v(ops[i])
    ensures LastWrite(g, ops, p) == Last(ops, v)
  {
    hide OpWrite;
    LastSame(ops, ops, op => OpWrite(g, op, p), v);
  }

  /** Every group of views agrees, except possibly the data bitmap. */
  ghost predicate SameViewsBut(a: seq<MetadataOp>, c: seq<MetadataOp>) {
    && (forall id :: Last(a, InodeBitView(id)) == Last(c, InodeBitView(id)))
    && (forall id, k :: Last(a, RecordView(id, k)) == Last(c, RecordView(id, k)))
    && (forall b, k :: Last(a, BlockView(b, k)) == Last(c, BlockView(b, k)))
  }

  lemma SameWriteOutsideBitmap(g: Geometry, len: nat, a: seq<MetadataOp>, c: seq<MetadataOp>, p: nat)
    requires ValidGeometry(g, len) && AllTarget(g, a) && AllTarget(g, c)
    requires SameViewsBut(a, c) && !InRegion(g, DataBitmap, p)
    ensures LastWrite(g, a, p) == LastWrite(g, c, p)
  {
    hide Targets, LastWrite, InodeBit, RecordBit, BlockBitOf, OpWrite;
    if InRegion(g, InodeBitmap, p) {
      var id := p - Lo(g, InodeBitmap);
      forall op | Targets(g, op) ensures OpWrite(g, op, p) == InodeBit(op, id) { InodeBitmapWrite(g, len, op, p); }
      LastWriteView(g, a, p, InodeBitView(id));
      LastWriteView(g, c, p, InodeBitView(id));
    } else if InRegion(g, InodeTable, p) {
      var rel := p - Lo(g, InodeTable);
      var id, k := rel / (8 * INODE_BYTES), rel % (8 * INODE_BYTES);
      forall op | Targets(g, op) ensures OpWrite(g, op, p) == RecordBit(op, id, k) { RecordWrite(g, len, op, id, k); }
      LastWriteView(g, a, p, RecordView(id, k));
      LastWriteView(g, c, p, RecordView(id, k));
    } else if InRegion(g, DataArea, p) {
      var b, k := BlockOfBit(g, p);
      forall op | Targets(g, op) ensures OpWrite(g, op, p) == BlockBitOf(op, b, k) { BlockWrite(g, len, op, b, k); }
      LastWriteView(g, a, p, BlockView(b, k));
      LastWriteView(g, c, p, BlockView(b, k));
    } else {
      NoWriteElsewhere(g, len, a, p);
      NoWriteElsewhere(g, len, c, p);
    }
  }

  lemma BlockOfBit(g: Geometry, p: nat) returns (b: nat, k: nat)
    requires g.blockSize > 0 && InRegion(g, DataArea, p)
    ensures g.dataBlockStart <= b < g.blockCount && k < BlockBit(g, 1) && p == BlockBit(g, b) + k
  {
    hide BlockBit;
    var bits := 8 * g.blockSize;
    BlockBitMul(g, g.blockCount);
    BlockBitMul(g, g.dataBlockStart);
    b, k := QuotientBounds(p, bits, g.dataBlockStart, g.blockCount);
    BlockBitMul(g, b);
  }

  lemma BlockBitMul(g: Geometry, b: nat)
    ensures BlockBit(g, b) == (8 * g.blockSize) * b && BlockBit(g, 1) == 8 * g.blockSize
  {
  }

  lemma QuotientBounds(p: nat, m: nat, lo: nat, hi: nat) returns (q: nat, r: nat)
    requires m > 0 && m * lo <= p < m * hi
    ensures lo <= q < hi && r < m && p == m * q + r
  {
    q, r := p / m, p % m;
    if q < lo { MulGap(m, q, lo); }
    if hi < q { MulGap(m, hi, q); }
  }

  lemma NoWriteElsewhere(g: Geometry, len: nat, ops: seq<MetadataOp>, p: nat)
    requires ValidGeometry(g, len) && AllTarget(g, ops)
    requires forall r :: !InRegion(g, r, p)
    ensures LastWrite(g, ops, p).None?
  {
    hide Targets, OpWrite, ValidGeometry, InRegion;
    forall i | 0 <= i < |ops| ensures OpWrite(g, ops[i], p).None? {
      if OpWrite(g, ops[i], p).Some? { OpInRegion(g, len, ops[i], p); }
    }
    LastNone(ops, op => OpWrite(g, op, p));
  }

  lemma BitmapWrite(g: Geometry, len: nat, ops: seq<MetadataOp>, p: nat)
    requires ValidGeometry(g, len) && AllTarget(g, ops) && InRegion(g, DataBitmap, p)
    ensures LastWrite(g, ops, p) == Last(ops, DataView(p - Lo(g, DataBitmap) + g.dataBlockStart))
  {
    hide Targets, LastWrite, DataBit, OpWrite;
    var b := p - Lo(g, DataBitmap) + g.dataBlockStart;
    forall op | Targets(g, op) ensures OpWrite(g, op, p) == DataBit(op, b) { DataBitmapWrite(g, len, op, p); }
    LastWriteView(g, ops, p, DataView(b));
  }

  // ---------------------------------------------------------------------------
  // Coalescing
  // ---------------------------------------------------------------------------

  lemma FourParts(a: seq<MetadataOp>, b: seq<MetadataOp>, c: seq<MetadataOp>, d: seq<MetadataOp>,
                  v: MetadataOp -> Option<bool>)
    ensures Last(a + b + c + d, v) ==
            if Last(d, v).Some? then Last(d, v) else if Last(c, v).Some? then Last(c, v)
            else if Last(b, v).Some? then Last(b, v) else Last(a, v)
  {
    LastConcat(a + b + c, d, v);
    LastConcat(a + b, c, v);
    LastConcat(a, b, v);
  }

  lemma {:induction false} InodeBitsKind(ops: seq<MetadataOp>)
    ensures forall i :: 0 <= i < |InodeBits(ops)| ==> InodeBits(ops)[i].SetInodeBitmap? && InodeBits(ops)[i] in ops
  {
    if ops != [] {
      InodeBitsKind(ops[..|ops| - 1]);
    }
  }

  lemma CoalescedViews(ops: seq<MetadataOp>, sorted: seq<Run>)
    requires |ops| > 1 && Tidy(AllSlices(ops))
    ensures SameViewsBut(CoalesceWith(ops, sorted), ops)
  {
    hide InodeBit, RecordBit, BlockBitOf, Tidy, AllSlices;
    var out := CoalesceWith(ops, sorted);
    forall id ensures Last(out, InodeBitView(id)) == Last(ops, InodeBitView(id)) {
      InodeBitsCoalesced(ops, sorted, id);
    }
    forall id, k ensures Last(out, RecordView(id, k)) == Last(ops, RecordView(id, k)) {
      RecordsCoalesced(ops, sorted, id, k);
    }
    forall b, k ensures Last(out, BlockView(b, k)) == Last(ops, BlockView(b, k)) { SlicesCoalesced(ops, sorted, b, k); }
  }

  lemma InodeBitsCoalesced(ops: seq<MetadataOp>, sorted: seq<Run>, id: nat)
    requires |ops| > 1
    ensures Last(CoalesceWith(ops, sorted), InodeBitView(id)) == Last(ops, InodeBitView(id))
  {
    var v := InodeBitView(id);
    var a, b := InodeBits(ops), RunOps(MergedRuns(sorted));
    var c, d := SliceOps(MergedSlices(SliceMap(ops))), ImageOps(InodeImages(ops));
    FourParts(a, b, c, d, v);
    LastNone(b, v); LastNone(c, v); LastNone(d, v);
    InodeBitsKept(ops, id);
  }

  lemma RecordsCoalesced(ops: seq<MetadataOp>, sorted: seq<Run>, id: nat, k: nat)
    requires |ops| > 1
    ensures Last(CoalesceWith(ops, sorted), RecordView(id, k)) == Last(ops, RecordView(id, k))
  {
    hide ImageBit;
    var v := RecordView(id, k);
    var a, b := InodeBits(ops), RunOps(MergedRuns(sorted));
    var c, d := SliceOps(MergedSlices(SliceMap(ops))), ImageOps(InodeImages(ops));
    InodeBitsKind(ops);
    FourParts(a, b, c, d, v);
    LastNone(a, v); LastNone(b, v); LastNone(c, v);
    ImageOpsView(InodeImages(ops), id, k);
    InodeImagesKept(ops, id, k);
  }

  lemma SlicesCoalesced(ops: seq<MetadataOp>, sorted: seq<Run>, b: nat, k: nat)
    requires |ops| > 1 && Tidy(AllSlices(ops))
    ensures Last(CoalesceWith(ops, sorted), BlockView(b, k)) == Last(ops, BlockView(b, k))
  {
    hide SliceBit, Tidy;
    var v := BlockView(b, k);
    var x, y := InodeBits(ops), RunOps(MergedRuns(sorted));
    var z, w := SliceOps(MergedSlices(SliceMap(ops))), ImageOps(InodeImages(ops));
    InodeBitsKind(ops);
    FourParts(x, y, z, w, v);
    LastNone(x, v); LastNone(y, v); LastNone(w, v);
    SliceOpsView(MergedSlices(SliceMap(ops)), b, k);
    MergedSlicesBit(SliceMap(ops), b, k);
    SliceMapKept(ops, b, k);
    AllSlicesView(ops, b, k);
  }

  lemma RunsCoalesced(ops: seq<MetadataOp>, sorted: seq<Run>, lo: nat, hi: nat, b: nat)
    requires |ops| > 1 && hi - lo < 0x1_0000_0000 && RunsWithin(sorted, lo, hi)
    ensures Last(CoalesceWith(ops, sorted), DataView(b)) == LastRun(sorted, b)
  {
    hide RunBit;
    var v := DataView(b);
    var x, y := InodeBits(ops), RunOps(MergedRuns(sorted));
    var z, w := SliceOps(MergedSlices(SliceMap(ops))), ImageOps(InodeImages(ops));
    InodeBitsKind(ops);
    FourParts(x, y, z, w, v);
    LastNone(x, v); LastNone(z, v); LastNone(w, v);
    RunOpsView(MergedRuns(sorted), b);
    MergedRunsBit(sorted, lo, hi, b);
  }

  // Targets stay legal.

  lemma {:induction false} DataRunsWithin(g: Geometry, ops: seq<MetadataOp>)
    requires AllTarget(g, ops)
    ensures RunsWithin(DataRuns(ops), g.dataBlockStart, g.blockCount)
  {
    if ops != [] { DataRunsWithin(g, ops[..|ops| - 1]); }
  }

  lemma RunsWithinPermuted(a: seq<Run>, c: seq<Run>, lo: nat, hi: nat)
    requires multiset(a) == multiset(c) && RunsWithin(a, lo, hi)
    ensures RunsWithin(c, lo, hi)
  {
    forall i | 0 <= i < |c| ensures lo <= c[i].start && c[i].start + c[i].count <= hi { assert c[i] in multiset(a); }
  }

  ghost predicate SlicesWithin(g: Geometry, s: seq<Slice>) {
    forall i :: 0 <= i < |s| ==> Targets(g, SliceOp(s[i]))
  }

  lemma {:induction false} InsertSliceWithin(g: Geometry, s: seq<Slice>, x: Slice)
    requires SlicesWithin(g, s) && Targets(g, SliceOp(x))
    ensures SlicesWithin(g, InsertSlice(s, x))
  {
    if s != [] { InsertSliceWithin(g, s[1..], x); }
  }

  lemma {:induction false} SliceMapWithin(g: Geometry, ops: seq<MetadataOp>)
    requires AllTarget(g, ops)
    ensures SlicesWithin(g, SliceMap(ops))
  {
    if ops != [] {
      var n := |ops| - 1;
      SliceMapWithin(g, ops[..n]);
      if ops[n].WriteBlockSlice? { InsertSliceWithin(g, SliceMap(ops[..n]), SliceOf(ops[n])); }
    }
  }

  lemma {:induction false} MergeSlicesWithin(g: Geometry, cur: Slice, rest: seq<Slice>)
    requires Targets(g, SliceOp(cur)) && SlicesWithin(g, rest)
    ensures SlicesWithin(g, MergeSlices(cur, rest))
    decreases |rest|
  {
    if rest != [] {
      if Continues(cur, rest[0]) {
        MergeSlicesWithin(g, cur.(data := cur.data + rest[0].data), rest[1..]);
      } else {
        MergeSlicesWithin(g, rest[0], rest[1..]);
      }
    }
  }

  ghost predicate ImagesWithin(g: Geometry, s: seq<Record>) {
    forall i :: 0 <= i < |s| ==> s[i].id < g.inodeCount
  }

  lemma {:induction false} PutImageWithin(g: Geometry, s: seq<Record>, x: Record)
    requires ImagesWithin(g, s) && x.id < g.inodeCount
    ensures ImagesWithin(g, PutImage(s, x))
  {
    if s != [] { PutImageWithin(g, s[1..], x); }
  }

  lemma {:induction false} InodeImagesWithin(g: Geometry, ops: seq<MetadataOp>)
    requires AllTarget(g, ops)
    ensures ImagesWithin(g, InodeImages(ops))
  {
    if ops != [] {
      var n := |ops| - 1;
      InodeImagesWithin(g, ops[..n]);
      if ops[n].WriteInode? { PutImageWithin(g, InodeImages(ops[..n]), ImageOf(ops[n])); }
    }
  }

  lemma CoalescedTargets(g: Geometry, ops: seq<MetadataOp>, sorted: seq<Run>)
    requires AllTarget(g, ops) && SortOf(DataRuns(ops), sorted)
    requires g.blockCount - g.dataBlockStart < 0x1_0000_0000
    ensures AllTarget(g, CoalesceWith(ops, sorted))
  {
    hide SortedRuns, Last, RunBit, InodeBits, SliceMap, InodeImages, DataRuns;
    if |ops| > 1 {
      DataRunsWithin(g, ops);
      RunsWithinPermuted(DataRuns(ops), sorted, g.dataBlockStart, g.blockCount);
      MergedRunsBit(sorted, g.dataBlockStart, g.blockCount, 0);
      SliceMapWithin(g, ops);
      InodeImagesWithin(g, ops);
      InodeBitsKind(ops);
      if SliceMap(ops) != [] { MergeSlicesWithin(g, SliceMap(ops)[0], SliceMap(ops)[1..]); }
      PartsTarget(g, InodeBits(ops), MergedRuns(sorted), MergedSlices(SliceMap(ops)), InodeImages(ops));
    }
  }

  lemma PartsTarget(g: Geometry, a: seq<MetadataOp>, runs: seq<Run>, slices: seq<Slice>, images: seq<Record>)
    requires AllTarget(g, a) && RunsWithin(runs, g.dataBlockStart, g.blockCount)
    requires SlicesWithin(g, slices) && ImagesWithin(g, images)
    ensures AllTarget(g, a + RunOps(runs) + SliceOps(slices) + ImageOps(images))
  {
    assert AllTarget(g, RunOps(runs));
    assert AllTarget(g, SliceOps(slices));
    assert AllTarget(g, ImageOps(images));
  }

  /** The main result. For a list that can be applied and whose slices are tidy, the coalesced list
      (for any outcome of the sort) can be applied too, and it leaves the same image exactly when
      every block the list allocates is left allocated by the last operation that touches it. */
  lemma CoalescingKeepsMeaning(g: Geometry, img: Image, ops: seq<MetadataOp>, sorted: seq<Run>)
    requires ValidGeometry(g, |img|) && g.blockCount - g.dataBlockStart < 0x1_0000_0000
    requires SortOf(DataRuns(ops), sorted)
    requires Tidy(AllSlices(ops))
    requires ApplyAll(g, img, ops).Ok?
    ensures ApplyAll(g, img, CoalesceWith(ops, sorted)).Ok?
    ensures ApplyAll(g, img, CoalesceWith(ops, sorted)) == ApplyAll(g, img, ops) <==> AllocatedLast(DataRuns(ops))
  {
    hide ApplyAll, Tidy, AllSlices, AllFit, LastWrite, AllocatedLast, CoalesceWith, SortOf, DataRuns;
    var out := CoalesceWith(ops, sorted);
    ApplyAllExact(g, img, ops);
    ApplyAllExact(g, img, out);
    FitsAreTargets(g, |img|, ops);
    FitsAreTargets(g, |img|, out);
    CoalescedTargets(g, ops, sorted);
    if |ops| <= 1 {
      ShortListUnchanged(ops, sorted);
    } else {
      BitsDecide(g, |img|, ops, sorted);
      var a, c := ApplyAll(g, img, out).value, ApplyAll(g, img, ops).value;
      if AllocatedLast(DataRuns(ops)) {
        forall p | 0 <= p < |img| ensures a[p] == c[p] { assert LastWrite(g, out, p) == LastWrite(g, ops, p); }
        assert a == c;
      } else {
        var p :| 0 <= p < |img| && LastWrite(g, out, p) == Some(true) && LastWrite(g, ops, p) == Some(false);
        assert a[p] != c[p];
      }
    }
  }

  lemma ShortListUnchanged(ops: seq<MetadataOp>, sorted: seq<Run>)
    requires |ops| <= 1
    ensures CoalesceWith(ops, sorted) == ops && AllocatedLast(DataRuns(ops))
  {
    assert |DataRuns(ops)| <= 1 by { if ops != [] { assert ops[..0] == []; } }
    SingleRun(DataRuns(ops));
  }

  lemma SingleRun(runs: seq<Run>)
    requires |runs| <= 1
    ensures AllocatedLast(runs)
  {
    hide RunBit;
    forall b | Covered(runs, b, true) ensures LastRun(runs, b) == Some(true) {
      LastRunCovered(runs, b);
      var i :| 0 <= i < |runs| && RunBit(runs[i], b) == Some(true);
      assert i == 0;
    }
  }

  /** Bit by bit: the two lists agree everywhere, or some data-bitmap bit is set by one and cleared
      by the other. */
  lemma BitsDecide(g: Geometry, len: nat, ops: seq<MetadataOp>, sorted: seq<Run>)
    requires ValidGeometry(g, len) && g.blockCount - g.dataBlockStart < 0x1_0000_0000
    requires |ops| > 1 && AllTarget(g, ops) && AllTarget(g, CoalesceWith(ops, sorted))
    requires SortOf(DataRuns(ops), sorted) && Tidy(AllSlices(ops))
    ensures var out := CoalesceWith(ops, sorted);
            if AllocatedLast(DataRuns(ops))
            then forall p :: 0 <= p < len ==> LastWrite(g, out, p) == LastWrite(g, ops, p)
            else exists p :: 0 <= p < len && LastWrite(g, out, p) == Some(true) && LastWrite(g, ops, p) == Some(false)
  {
    hide ValidGeometry, Targets, Tidy, AllSlices, LastWrite, CoalesceWith, SortOf, DataRuns, Covered, LastRun,
         AllTarget;
    var out, runs := CoalesceWith(ops, sorted), DataRuns(ops);
    CoalescedViews(ops, sorted);
    if AllocatedLast(runs) {
      forall p | 0 <= p < len ensures LastWrite(g, out, p) == LastWrite(g, ops, p) {
        if InRegion(g, DataBitmap, p) {
          var b := p - Lo(g, DataBitmap) + g.dataBlockStart;
          BitmapBit(g, len, ops, sorted, p);
          SortKeepsBit(runs, sorted, b);
        } else {
          SameWriteOutsideBitmap(g, len, out, ops, p);
        }
      }
    } else {
      var b: nat :| Covered(runs, b, true) && LastRun(runs, b) != Some(true);
      var p := FreedBit(g, len, ops, sorted, b);
      BitmapBit(g, len, ops, sorted, p);
    }
  }

  lemma BitmapBit(g: Geometry, len: nat, ops: seq<MetadataOp>, sorted: seq<Run>, p: nat)
    requires ValidGeometry(g, len) && g.blockCount - g.dataBlockStart < 0x1_0000_0000
    requires |ops| > 1 && AllTarget(g, ops) && AllTarget(g, CoalesceWith(ops, sorted))
    requires SortOf(DataRuns(ops), sorted) && InRegion(g, DataBitmap, p)
    ensures var b := p - Lo(g, DataBitmap) + g.dataBlockStart;
            && LastWrite(g, CoalesceWith(ops, sorted), p) == LastRun(sorted, b)
            && LastWrite(g, ops, p) == LastRun(DataRuns(ops), b)
  {
    hide ValidGeometry, Targets, LastWrite, CoalesceWith, DataRuns, LastRun, SortedRuns;
    var b := p - Lo(g, DataBitmap) + g.dataBlockStart;
    BitmapWrite(g, len, ops, p);
    BitmapWrite(g, len, CoalesceWith(ops, sorted), p);
    DataRunsWithin(g, ops);
    RunsWithinPermuted(DataRuns(ops), sorted, g.dataBlockStart, g.blockCount);
    RunsCoalesced(ops, sorted, g.dataBlockStart, g.blockCount, b);
    DataRunsView(ops, b);
  }

  /** A block allocated and then freed for good has its own bit in the bitmap, and sorting flips it. */
  lemma FreedBit(g: Geometry, len: nat, ops: seq<MetadataOp>, sorted: seq<Run>, b: nat) returns (p: nat)
    requires ValidGeometry(g, len) && AllTarget(g, ops) && SortOf(DataRuns(ops), sorted)
    requires Covered(DataRuns(ops), b, true) && LastRun(DataRuns(ops), b) != Some(true)
    ensures p < len && InRegion(g, DataBitmap, p) && b == p - Lo(g, DataBitmap) + g.dataBlockStart
    ensures LastRun(sorted, b) == Some(true) && LastRun(DataRuns(ops), b) == Some(false)
  {
    hide Targets, DataRuns, LastRun, SortedRuns, BlockBit;
    var runs := DataRuns(ops);
    DataRunsWithin(g, ops);
    var i :| 0 <= i < |runs| && RunBit(runs[i], b) == Some(true);
    assert Hi(g, DataBitmap) <= len;
    p := Lo(g, DataBitmap) + (b - g.dataBlockStart);
    LastRunCovered(runs, b);
    SortedRunsBit(sorted, b);
    CoveredPermuted(runs, sorted, b, true);
  }

  /** The plain sufficient condition: nothing the list allocates is freed later in the list. */
  lemma NoFreeAfterAllocation(runs: seq<Run>)
    requires forall i, j, b :: 0 <= i < j < |runs| && RunBit(runs[i], b) == Some(true) ==>
               RunBit(runs[j], b) != Some(false)
    ensures AllocatedLast(runs)
  {
    forall b | Covered(runs, b, true) ensures LastRun(runs, b) == Some(true) {
      LastRunCovered(runs, b);
      var k := LastIndex(runs, RunView(b));
      var i :| 0 <= i < |runs| && RunBit(runs[i], b) == Some(true);
      assert RunView(b)(runs[i]).Some?;
      assert RunView(b)(runs[k]) == RunBit(runs[k], b);
    }
  }

  /** Allocating a block and freeing it again in one transaction is replayed as "allocated". */
  lemma FreedAgainComesBack(b: u64)
    ensures var ops := [SetDataBitmap(b, true), SetDataBitmap(b, false)];
            !AllocatedLast(DataRuns(ops)) && Coalesced(ops) == [SetDataBitmap(b, false), SetDataBitmap(b, true)]
  {
    var ops := [SetDataBitmap(b, true), SetDataBitmap(b, false)];
    TwoRuns(b);
    OnlyDataBits(ops);
    var x, y := Run(b, 1, true), Run(b, 1, false);
    assert RunOps([y, x]) == [SetDataBitmap(b, false), SetDataBitmap(b, true)];
  }

  lemma TwoRuns(b: u64)
    ensures var x, y := Run(b, 1, true), Run(b, 1, false);
            && DataRuns([SetDataBitmap(b, true), SetDataBitmap(b, false)]) == [x, y]
            && !AllocatedLast([x, y])
            && MergedRuns(SortRuns([x, y])) == [y, x]
  {
    var ops := [SetDataBitmap(b, true), SetDataBitmap(b, false)];
    var x, y := Run(b, 1, true), Run(b, 1, false);
    assert ops[..1] == [ops[0]] && [ops[0]][..0] == [];
    assert DataRuns([ops[0]]) == [x];
    assert RunBit([x, y][0], b) == Some(true);
    LastSnoc([x], y, RunView(b));
    assert [x] + [y] == [x, y];
    assert LastRun([x, y], b) == Some(false) && Covered([x, y], b, true);
    assert [x][..0] == [] && [x, y][..1] == [x];
    assert SortRuns([x]) == [x];
    assert SortRuns([x, y]) == InsertRun([x], y) == [y, x];
    assert [y, x][1..] == [x] && [x][1..] == [];
    assert MergeRuns(x, []) == [x];
    assert MergeRuns(y, [x]) == [y] + MergeRuns(x, [x][1..]);
  }

  lemma {:induction false} OnlyDataBits(ops: seq<MetadataOp>)
    requires forall i :: 0 <= i < |ops| ==> ops[i].SetDataBitmap?
    ensures InodeBits(ops) == [] && SliceMap(ops) == [] && InodeImages(ops) == []
  {
    if ops != [] { OnlyDataBits(ops[..|ops| - 1]); }
  }
}
