/** The journaled commit stands for the direct one: redoing its operations, over the staged mapping with the
    blocks taken as pointer blocks blanked, gives the store the direct commit leaves. */
module ChunkMirror {
  import opened Sizes
  import opened Bytes
  import opened LastWins
  import opened MetadataOps
  import opened ImageModel
  import opened BitList
  import opened BlockImage
  import opened Allocator
  import opened Mirror
  import opened ChunkStore
  import opened ChunkCodec
  import opened ChunkCommit
  import opened ChunkImage
  import opened ChunkSim
  import opened ChunkMarks
  import CT = ChunkTree

  /** The blocks with those of `tables` zeroed. */
  function Blank(blocks: CT.Blocks, tables: set<nat>): (r: CT.Blocks)
    ensures |r| == |blocks|
    ensures forall b: nat :: b < |blocks| ==> r[b] == if b in tables then CT.ZeroBlock() else blocks[b]
  {
    seq(|blocks|, b requires 0 <= b < |blocks| => if b in tables then CT.ZeroBlock() else blocks[b])
  }

  function Base(g: Geometry, j: Staging): Store
    requires Mounted(g, |j.img|)
  {
    StoreOf(g, j.img, j.s.hint)
  }

  function Blanked(g: Geometry, j: Staging): Store
    requires Mounted(g, |j.img|)
  {
    Base(g, j).(blocks := Blank(Base(g, j).blocks, j.tables))
  }

  /** The staged transaction stands for the store `st`. */
  ghost predicate Stands(g: Geometry, j: Staging, st: Store) {
    && Mounted(g, |j.img|) && Narrow(g) && AllProper(g, j.s.ops)
    && Redo(Blanked(g, j), j.s.ops) == st && j.s.bits == st.used
  }

  /** Recorded and staged by this transaction only as a run. */
  predicate Payload(j: Staging, b: nat) {
    b in j.s.taken && b !in j.tables
  }

  /** A recorded slice is one pointer, and the simulator knows it. */
  predicate Known(s: Sim, op: MetadataOp) {
    op.WriteBlockSlice? ==> op.offset % 8 == 0 && |op.data| == 8 && (op.blockId, op.offset / 8) in s.pointers
  }

  /** What the simulator has handed out or written to is in use, and slots read as in `st`. */
  ghost predicate Books(g: Geometry, j: Staging, st: Store) {
    && j.tables <= j.s.taken
    && (forall b :: b in j.s.taken ==> IsData(g, b) && Taken(st, b))
    && (forall k :: k in j.s.pointers ==>
          IsData(g, k.0) && k.1 < SLOTS && Taken(st, k.0) && !Payload(j, k.0) && j.s.pointers[k] != 0)
    && (forall i :: 0 <= i < |j.s.ops| ==> Known(j.s, j.s.ops[i])) && Marked(j.s.taken, j.s.ops)
    && (forall b, t :: IsData(g, b) && 0 <= t < SLOTS && !Payload(j, b) ==>
          SimRead(j.img, j.s, b, t) == CT.Slot(st.blocks, b, t))
  }

  lemma ProperSlices(g: Geometry, ops: seq<MetadataOp>)
    requires AllProper(g, ops)
    ensures SlicesFit(ops)
  {
  }

  /** No operation writes a block that is not in use. */
  lemma FreeUnwritten(g: Geometry, j: Staging, st: Store, b: nat, q: nat)
    requires Books(g, j, st) && !Taken(st, b)
    ensures !Overwritten(j.s.ops, b, q)
  {
    hide Taken;
    forall i | 0 <= i < |j.s.ops| ensures !CoversByte(j.s.ops[i], b, q) {
      assert Known(j.s, j.s.ops[i]);
    }
  }

  /** Blocks no operation writes can be replaced before or after redo. */
  lemma RedoWith(st: Store, blocks: CT.Blocks, ops: seq<MetadataOp>, new': set<nat>)
    requires |blocks| == |st.blocks| && SlicesFit(ops)
    requires forall b, q :: b in new' && 0 <= q < BLOCK_SIZE ==> !Overwritten(ops, b, q)
    requires forall b: nat :: b < |blocks| && b !in new' ==> blocks[b] == st.blocks[b]
    ensures var r, r' := Redo(st, ops), Redo(st.(blocks := blocks), ops);
            && r'.used == r.used
            && forall b: nat :: b < |blocks| ==> r'.blocks[b] == if b in new' then blocks[b] else r.blocks[b]
  {
    hide Redo, Overwritten;
    var r, r' := Redo(st, ops), Redo(st.(blocks := blocks), ops);
    RedoRebased(st, blocks, ops);
    RedoRebased(st, st.blocks, ops);
    assert st.(blocks := st.blocks) == st;
    forall b: nat | b < |blocks| ensures r'.blocks[b] == if b in new' then blocks[b] else r.blocks[b] {
      var want := if b in new' then blocks[b] else r.blocks[b];
      forall q | 0 <= q < BLOCK_SIZE ensures r'.blocks[b][q] == want[q] {}
      assert r'.blocks[b] == want;
    }
  }

  // ---------------------------------------------------------------------------
  // Taking a pointer block
  // ---------------------------------------------------------------------------

  function Took(j: Staging, s: Sim): Staging {
    j.(s := s, tables := j.tables + (s.taken - j.s.taken))
  }

  /** Blanking one block more, and marking it. */
  lemma BlankOne(g: Geometry, j: Staging, st: Store, b: nat, hint: nat)
    requires Stands(g, j, st) && Books(g, j, st) && IsData(g, b) && b < g.dataBlockStart + BLOCK_BITS && !Taken(st, b)
    ensures b < 0x1_0000_0000_0000_0000
    ensures var j' := j.(tables := j.tables + {b}, s := j.s.(hint := hint, ops := j.s.ops + [SetDataBitmap(b, true)]));
            && AllProper(g, j'.s.ops)
            && Redo(Blanked(g, j'), j'.s.ops) ==
               st.(blocks := st.blocks[b := CT.ZeroBlock()], used := SetBits(st.used, b - st.dataStart, 1, true),
                    hint := hint)
  {
    hide Taken, Redo, StoreOf, SetBits, SimRead, CT.Slot, Blank;
    var ops := j.s.ops;
    ProperSlices(g, ops);
    var z := Blanked(g, j);
    var z' := z.(hint := hint, blocks := Blank(Base(g, j).blocks, j.tables + {b}));
    forall c, q | c in {b} && 0 <= q < BLOCK_SIZE ensures !Overwritten(ops, c, q) {
      FreeUnwritten(g, j, st, b, q);
    }
    RedoWith(z, z'.blocks, ops, {b});
    RedoHint(z.(blocks := z'.blocks), ops, hint);
    var r := Redo(z', ops);
    assert r.blocks == st.blocks[b := CT.ZeroBlock()];
    RedoSnoc(z', ops, SetDataBitmap(b, true));
    var j' := j.(tables := j.tables + {b}, s := j.s.(hint := hint, ops := j.s.ops + [SetDataBitmap(b, true)]));
    assert Blanked(g, j') == z' by { SameBase(g, j, j'); }
  }

  lemma SameBase(g: Geometry, j: Staging, j': Staging)
    requires Mounted(g, |j.img|) && j'.img == j.img
    ensures Base(g, j') == Base(g, j).(hint := j'.s.hint)
  {
  }

  lemma {:induction false} RedoHint(st: Store, ops: seq<MetadataOp>, hint: nat)
    ensures Redo(st.(hint := hint), ops) == Redo(st, ops).(hint := hint)
    decreases |ops|
  {
    hide SetBits, Patch;
    if ops != [] { RedoHint(st, ops[..|ops| - 1], hint); }
  }

  /** Both allocations take the same block, or none. */
  lemma TakeStands(g: Geometry, j: Staging, st: Store)
    requires Stands(g, j, st) && Books(g, j, st) && StoreOk(st) && j.s.hint == st.hint
    ensures var (s', r) := SimTakeBlock(g, j.s);
            match GrabBlock(st)
            case None => r == NoSpace && s' == j.s
            case Some((st', b)) =>
              && r.Got? && r.id == b && b !in j.s.taken && IsData(g, b) && !Taken(st, b)
              && s'.pointers == j.s.pointers && s'.taken == j.s.taken + {b} && s'.hint == st'.hint
              && Stands(g, Took(j, s'), st') && Books(g, Took(j, s'), st')
  {
    hide Redo, StoreOf, SimRead, CT.Slot, Blank, CT.ZeroBlock, FirstFree;
    Shape(g, j, st);
    if GrabBlock(st).Some? {
      GrabBlockIs(st);
      var (st', b) := GrabBlock(st).value;
      var (s', r) := SimTakeBlock(g, j.s);
      BlankOne(g, j, st, b, b + 1);
      var j' := Took(j, s');
      assert s'.taken - j.s.taken == {b};
      assert Blanked(g, j') == Blanked(g, j.(tables := j.tables + {b}, s := j.s.(hint := b + 1, ops := s'.ops)));
      TakeBooks(g, j, st, s', st', b);
    }
  }

  lemma Shape(g: Geometry, j: Staging, st: Store)
    requires Stands(g, j, st)
    ensures |st.blocks| == g.blockCount && st.dataStart == g.dataBlockStart && |st.used| == BLOCK_BITS
    ensures st.hint == j.s.hint
  {
  }

  lemma TakeBooks(g: Geometry, j: Staging, st: Store, s': Sim, st': Store, b: u64)
    requires Stands(g, j, st) && Books(g, j, st) && IsData(g, b) && !Taken(st, b)
    requires s' == j.s.(bits := s'.bits, hint := s'.hint, taken := j.s.taken + {b as nat},
                        ops := j.s.ops + [SetDataBitmap(b, true)])
    requires st'.blocks == st.blocks[b := CT.ZeroBlock()] && forall c :: Taken(st', c) <==> Taken(st, c) || c == b
    requires b < |st.blocks|
    ensures Books(g, Took(j, s'), st')
  {
    hide Taken, Stands, SimRead, Marked;
    var j' := Took(j, s');
    assert s'.taken - j.s.taken == {b as nat};
    MarkedMore(j.s.taken, j.s.ops, SetDataBitmap(b, true), s'.taken);
    assert forall c :: Payload(j', c) <==> Payload(j, c);
    forall i | 0 <= i < |s'.ops| ensures Known(s', s'.ops[i]) {
      if i < |j.s.ops| { assert Known(j.s, j.s.ops[i]); }
    }
    forall c, t | IsData(g, c) && 0 <= t < SLOTS && !Payload(j', c)
      ensures SimRead(j'.img, s', c, t) == CT.Slot(st'.blocks, c, t)
    {
      TakenReads(j, st, s', st', b, c, t);
    }
  }

  lemma TakenReads(j: Staging, st: Store, s': Sim, st': Store, b: nat, c: nat, t: nat)
    requires s'.pointers == j.s.pointers && s'.taken == j.s.taken + {b} && b < |st.blocks| && t < SLOTS
    requires st'.blocks == st.blocks[b := CT.ZeroBlock()] && (b, t) !in j.s.pointers
    requires c != b ==> SimRead(j.img, j.s, c, t) == CT.Slot(st.blocks, c, t)
    ensures SimRead(j.img, s', c, t) == CT.Slot(st'.blocks, c, t)
  {
    hide CT.Slot, ReadPtr;
    if c == b {
      CT.ZeroSlot(t, st'.blocks, b);
    } else {
      SlotElsewhere(st.blocks, b, CT.ZeroBlock(), c, t);
    }
  }

  lemma SlotElsewhere(blocks: CT.Blocks, b: nat, block: CT.Block, c: nat, t: nat)
    requires b < |blocks| && c != b
    ensures CT.Slot(blocks[b := block], c, t) == CT.Slot(blocks, c, t)
  {
  }

  // ---------------------------------------------------------------------------
  // Recording a slot
  // ---------------------------------------------------------------------------

  lemma RecordStands(g: Geometry, j: Staging, st: Store, parent: u64, slot: nat, v: u64)
    requires Stands(g, j, st) && Books(g, j, st) && slot < SLOTS && v != 0
    requires IsData(g, parent) && Taken(st, parent) && !Payload(j, parent)
    ensures var j' := j.(s := RecordSlot(j.s, parent, slot, v));
            var st' := st.(blocks := CT.WriteSlot(st.blocks, parent, slot, v));
            Stands(g, j', st') && Books(g, j', st')
  {
    hide Redo, StoreOf, SimRead, CT.Slot, CT.WriteSlot, LE, Patch;
    Shape(g, j, st);
    var j' := j.(s := RecordSlot(j.s, parent, slot, v));
    var st' := st.(blocks := CT.WriteSlot(st.blocks, parent, slot, v));
    var op := WriteBlockSlice(parent, 8 * slot, LE64(v));
    RedoSnoc(Blanked(g, j), j.s.ops, op);
    SliceIsSlot(st, parent, slot, v);
    assert Blanked(g, j') == Blanked(g, j);
    RecordBooks(g, j, st, parent, slot, v);
  }

  lemma SliceIsSlot(st: Store, parent: u64, slot: nat, v: u64)
    requires slot < SLOTS && parent < |st.blocks|
    ensures RedoOne(st, WriteBlockSlice(parent, 8 * slot, LE64(v))) ==
            st.(blocks := CT.WriteSlot(st.blocks, parent, slot, v))
  {
    hide LE;
  }

  lemma RecordBooks(g: Geometry, j: Staging, st: Store, parent: u64, slot: nat, v: u64)
    requires Books(g, j, st) && slot < SLOTS && v != 0 && parent < |st.blocks|
    requires IsData(g, parent) && Taken(st, parent) && !Payload(j, parent)
    ensures var j' := j.(s := RecordSlot(j.s, parent, slot, v));
            var st' := st.(blocks := CT.WriteSlot(st.blocks, parent, slot, v));
            Books(g, j', st')
  {
    hide SimRead, CT.Slot, CT.WriteSlot, LE, Marked;
    MarkedSame(j.s.taken, j.s.ops, WriteBlockSlice(parent, 8 * slot, LE64(v)));
    var j' := j.(s := RecordSlot(j.s, parent, slot, v));
    var st' := st.(blocks := CT.WriteSlot(st.blocks, parent, slot, v));
    forall i | 0 <= i < |j'.s.ops| ensures Known(j'.s, j'.s.ops[i]) {
      if i < |j.s.ops| { assert Known(j.s, j.s.ops[i]); }
    }
    forall c, t | IsData(g, c) && 0 <= t < SLOTS && !Payload(j', c)
      ensures SimRead(j'.img, j'.s, c, t) == CT.Slot(st'.blocks, c, t)
    {
      assert SimRead(j.img, j.s, c, t) == CT.Slot(st.blocks, c, t);
      CT.SlotAfterWrite(st.blocks, parent, slot, v, c, t);
      RecordReads(j, parent, slot, v, c, t);
    }
  }

  lemma RecordReads(j: Staging, parent: u64, slot: nat, v: u64, c: nat, t: nat)
    requires slot < SLOTS
    ensures SimRead(j.img, RecordSlot(j.s, parent, slot, v), c, t) ==
            if c == parent && t == slot then v else SimRead(j.img, j.s, c, t)
  {
    hide ReadPtr, LE;
  }

  // ---------------------------------------------------------------------------
  // Taking and filling a run
  // ---------------------------------------------------------------------------

  /** Staging a payload lays it into the store of the mapping. */
  lemma StageIsLay(g: Geometry, img: Image, hint: nat, start: nat, p: Prepared)
    requires Mounted(g, |img|) && ChunkCodec.Fits(p) && g.dataBlockStart <= start && start + p.count <= g.blockCount
    ensures StoreOf(g, StageRun(img, start, p), hint) ==
            StoreOf(g, img, hint).(blocks := Lay(StoreOf(g, img, hint).blocks, start, p))
  {
    hide BytesIn, BlockBits, DataBits, PieceOf, StageRun, ChunkCodec.Fits;
    var img' := StageRun(img, start, p);
    var x, y := StoreOf(g, img', hint), StoreOf(g, img, hint);
    StageBitmap(g, img, start, p);
    forall b: nat | b < g.blockCount ensures x.blocks[b] == Lay(y.blocks, start, p)[b] {
      if IsData(g, b) {
        StageBlock(g, img, start, p, b);
        if InRun(start, p.count, b) { BytesBack(PieceOf(p.payload, b - start)); }
      }
    }
    assert x.blocks == Lay(y.blocks, start, p);
  }

  lemma StageBlock(g: Geometry, img: Image, start: nat, p: Prepared, b: nat)
    requires Mounted(g, |img|) && ChunkCodec.Fits(p) && IsData(g, b)
    ensures BLOCK_SIZE * (b - start) <= |p.payload| || !InRun(start, p.count, b)
    ensures BlockBits(StageRun(img, start, p), b) ==
            if InRun(start, p.count, b) then BitsOf(PieceOf(p.payload, b - start)) else BlockBits(img, b)
  {
    hide BitsOf, PieceOf;
    var img' := StageRun(img, start, p);
    var want := if InRun(start, p.count, b) then BitsOf(PieceOf(p.payload, b - start)) else BlockBits(img, b);
    forall q | 0 <= q < BLOCK_BITS ensures BlockBits(img', b)[q] == want[q] {
      assert BlockBits(img', b)[q] == img'[BLOCK_BITS * b + q];
      assert (BLOCK_BITS * b + q) / BLOCK_BITS == b && (BLOCK_BITS * b + q) % BLOCK_BITS == q;
    }
  }

  lemma StageBitmap(g: Geometry, img: Image, start: nat, p: Prepared)
    requires Mounted(g, |img|) && ChunkCodec.Fits(p) && g.dataBlockStart <= start
    ensures DataBits(g, StageRun(img, start, p)) == DataBits(g, img)
  {
    hide BitsOf, PieceOf;
    var img' := StageRun(img, start, p);
    var at := BLOCK_BITS * g.dataBitmapBlock;
    forall q | at <= q < at + BLOCK_BITS ensures img'[q] == img[q] {
      assert q / BLOCK_BITS == g.dataBitmapBlock;
    }
  }

  lemma RunStands(g: Geometry, j: Staging, st: Store, start: u64, p: Prepared)
    requires Stands(g, j, st) && Books(g, j, st) && StoreOk(st) && ChunkCodec.Fits(p)
    requires g.dataBlockStart <= start && start + p.count <= g.blockCount
    requires start + p.count <= g.dataBlockStart + BLOCK_BITS
    requires forall b :: InRun(start, p.count, b) ==> !Taken(st, b)
    ensures var j' := j.(img := StageRun(j.img, start, p), s := TakeRun(g, j.s, start, p.count));
            var st' := st.(blocks := Lay(st.blocks, start, p), hint := start + p.count,
                           used := SetBits(st.used, start - st.dataStart, p.count, true));
            Stands(g, j', st') && Books(g, j', st')
  {
    hide Taken, Redo, StoreOf, SetBits, Books, Blank, StageRun, Lay, ChunkCodec.Fits, Known, Blanked;
    Shape(g, j, st);
    var j' := j.(img := StageRun(j.img, start, p), s := TakeRun(g, j.s, start, p.count));
    var z := Blanked(g, j).(blocks := Lay(Blanked(g, j).blocks, start, p), hint := start + p.count);
    RunRedo(g, j, st, start, p);
    RunBlanked(g, j, st, start, p);
    RedoSnoc(z, j.s.ops, SetDataBitmapRange(start, p.count, true));
    RunBooks(g, j, st, start, p);
  }

  /** Staging first and redoing then is redoing first and laying the payload then. */
  lemma RunRedo(g: Geometry, j: Staging, st: Store, start: u64, p: Prepared)
    requires Stands(g, j, st) && Books(g, j, st) && ChunkCodec.Fits(p)
    requires g.dataBlockStart <= start && start + p.count <= g.blockCount
    requires forall b :: InRun(start, p.count, b) ==> !Taken(st, b)
    ensures var hint := start + p.count; var z := Blanked(g, j);
            Redo(z.(blocks := Lay(z.blocks, start, p), hint := hint), j.s.ops) ==
            st.(blocks := Lay(st.blocks, start, p), hint := hint)
  {
    hide Taken, Redo, StoreOf, SetBits, Books, Blank, StageRun, Lay, ChunkCodec.Fits, Known, Blanked, Proper;
    Shape(g, j, st);
    var ops, z, run := j.s.ops, Blanked(g, j), BlocksFrom(start, p.count);
    ProperSlices(g, ops);
    forall c, q | c in run && 0 <= q < BLOCK_SIZE ensures !Overwritten(ops, c, q) { FreeUnwritten(g, j, st, c, q); }
    var blocks := Lay(z.blocks, start, p);
    RedoWith(z, blocks, ops, run);
    RedoHint(z.(blocks := blocks), ops, start + p.count);
    LayRun(z.blocks, st.blocks, start, p, Redo(z.(blocks := blocks), ops).blocks);
  }

  lemma RunBlanked(g: Geometry, j: Staging, st: Store, start: u64, p: Prepared)
    requires Stands(g, j, st) && Books(g, j, st) && ChunkCodec.Fits(p)
    requires g.dataBlockStart <= start && start + p.count <= g.blockCount
    requires forall b :: InRun(start, p.count, b) ==> !Taken(st, b)
    ensures var j' := j.(img := StageRun(j.img, start, p), s := TakeRun(g, j.s, start, p.count));
            var z := Blanked(g, j);
            Blanked(g, j') == z.(blocks := Lay(z.blocks, start, p), hint := start + p.count)
  {
    hide Taken, Redo, StoreOf, Books, Blank, StageRun, Lay, ChunkCodec.Fits;
    FreeUntaken(g, j, st);
    LayBlank(Base(g, j).blocks, j.tables, start, p);
    StageIsLay(g, j.img, start + p.count, start, p);
    SameBits(g, j, start + p.count);
  }

  lemma FreeUntaken(g: Geometry, j: Staging, st: Store)
    requires Books(g, j, st)
    ensures forall b :: b in j.s.taken || b in j.tables ==> Taken(st, b)
  {
    hide Taken;
  }

  lemma RunTaken(st: Store, start: nat, count: nat, blocks: CT.Blocks, hint: nat)
    requires st.dataStart <= start && start + count <= st.dataStart + |st.used|
    ensures var st' := st.(blocks := blocks, hint := hint, used := SetBits(st.used, start - st.dataStart, count, true));
            forall c: nat :: Taken(st', c) <==> Taken(st, c) || InRun(start, count, c)
  {
  }

  lemma SameBits(g: Geometry, j: Staging, hint: nat)
    requires Mounted(g, |j.img|)
    ensures StoreOf(g, j.img, hint) == StoreOf(g, j.img, j.s.hint).(hint := hint)
  {
  }

  lemma LayBlank(blocks: CT.Blocks, tables: set<nat>, start: nat, p: Prepared)
    requires ChunkCodec.Fits(p) && forall b: nat :: InRun(start, p.count, b) ==> b !in tables
    ensures Blank(Lay(blocks, start, p), tables) == Lay(Blank(blocks, tables), start, p)
  {
    hide PieceOf;
  }

  lemma LayRun(z: CT.Blocks, st: CT.Blocks, start: nat, p: Prepared, r: CT.Blocks)
    requires ChunkCodec.Fits(p) && |z| == |st| == |r| && start + p.count <= |z|
    requires forall b: nat :: b < |z| ==> r[b] == if b in BlocksFrom(start, p.count) then Lay(z, start, p)[b] else st[b]
    ensures r == Lay(st, start, p)
  {
    hide PieceOf;
  }

  lemma RunBooks(g: Geometry, j: Staging, st: Store, start: u64, p: Prepared)
    requires Stands(g, j, st) && Books(g, j, st) && ChunkCodec.Fits(p)
    requires g.dataBlockStart <= start && start + p.count <= g.blockCount
    requires start + p.count <= g.dataBlockStart + BLOCK_BITS
    requires forall b :: InRun(start, p.count, b) ==> !Taken(st, b)
    ensures var j' := j.(img := StageRun(j.img, start, p), s := TakeRun(g, j.s, start, p.count));
            var st' := st.(blocks := Lay(st.blocks, start, p), hint := start + p.count,
                           used := SetBits(st.used, start - st.dataStart, p.count, true));
            Books(g, j', st')
  {
    hide Redo, StoreOf, SimRead, CT.Slot, Blank, StageRun, Lay, ChunkCodec.Fits, Taken, SetBits, Marked;
    Shape(g, j, st);
    MarkedMore(j.s.taken, j.s.ops, SetDataBitmapRange(start, p.count, true), j.s.taken + BlocksFrom(start, p.count));
    var j' := j.(img := StageRun(j.img, start, p), s := TakeRun(g, j.s, start, p.count));
    var st' := st.(blocks := Lay(st.blocks, start, p), hint := start + p.count,
                   used := SetBits(st.used, start - st.dataStart, p.count, true));
    RunTaken(st, start, p.count, st'.blocks, st'.hint);
    assert forall c: nat :: Payload(j', c) <==> Payload(j, c) || InRun(start, p.count, c);
    forall i | 0 <= i < |j'.s.ops| ensures Known(j'.s, j'.s.ops[i]) {
      if i < |j.s.ops| { assert Known(j.s, j.s.ops[i]); }
    }
    forall c, t | IsData(g, c) && 0 <= t < SLOTS && !Payload(j', c)
      ensures SimRead(j'.img, j'.s, c, t) == CT.Slot(st'.blocks, c, t)
    {
      assert SimRead(j.img, j.s, c, t) == CT.Slot(st.blocks, c, t);
      RunReads(g, j, st, start, p, c, t);
    }
  }

  lemma RunReads(g: Geometry, j: Staging, st: Store, start: u64, p: Prepared, c: nat, t: nat)
    requires Mounted(g, |j.img|) && ChunkCodec.Fits(p) && g.dataBlockStart <= start && IsData(g, c)
    requires !InRun(start, p.count, c)
    ensures SimRead(StageRun(j.img, start, p), TakeRun(g, j.s, start, p.count), c, t) == SimRead(j.img, j.s, c, t)
    ensures CT.Slot(Lay(st.blocks, start, p), c, t) == CT.Slot(st.blocks, c, t)
  {
    hide StageRun, PieceOf, ChunkCodec.Fits;
    StageBlock(g, j.img, start, p, c);
  }

  // ---------------------------------------------------------------------------
  // Giving a run back
  // ---------------------------------------------------------------------------

  lemma BackStands(g: Geometry, j: Staging, st: Store, start: u64, count: u32)
    requires Stands(g, j, st) && Books(g, j, st) && Proper(g, SetDataBitmapRange(start, count, false))
    requires forall b: nat :: InRun(start, count, b) ==> b !in j.s.taken && forall k :: k in j.s.pointers ==> k.0 != b
    ensures var j' := j.(s := GiveBack(g, j.s, start, count)); var st' := ChunkStore.FreeRun(st, start, count);
            Stands(g, j', st') && Books(g, j', st')
  {
    hide Redo, StoreOf, Blank, Books, SetBits;
    Shape(g, j, st);
    var j' := j.(s := GiveBack(g, j.s, start, count));
    RedoSnoc(Blanked(g, j), j.s.ops, SetDataBitmapRange(start, count, false));
    assert Blanked(g, j') == Blanked(g, j).(hint := j'.s.hint) by { SameBase(g, j, j'); }
    RedoHint(Blanked(g, j), j'.s.ops, j'.s.hint);
    assert SetBits(st.used, start - st.dataStart, 0, false) == st.used;
    BackBooks(g, j, st, start, count);
  }

  lemma BackBooks(g: Geometry, j: Staging, st: Store, start: u64, count: u32)
    requires Books(g, j, st) && st.dataStart <= start
    requires forall b: nat :: InRun(start, count, b) ==> b !in j.s.taken && forall k :: k in j.s.pointers ==> k.0 != b
    ensures Books(g, j.(s := GiveBack(g, j.s, start, count)), ChunkStore.FreeRun(st, start, count))
  {
    hide SimRead, CT.Slot, ChunkStore.FreeRun, Taken, Marked;
    MarkedFree(j.s.taken, j.s.ops, SetDataBitmapRange(start, count, false));
    var j' := j.(s := GiveBack(g, j.s, start, count));
    var st' := ChunkStore.FreeRun(st, start, count);
    BackTaken(st, start, count);
    forall i | 0 <= i < |j'.s.ops| ensures Known(j'.s, j'.s.ops[i]) {
      if i < |j.s.ops| { assert Known(j.s, j.s.ops[i]); }
    }
    forall c, t | IsData(g, c) && 0 <= t < SLOTS && !Payload(j', c)
      ensures SimRead(j'.img, j'.s, c, t) == CT.Slot(st'.blocks, c, t)
    {
      assert SimRead(j.img, j.s, c, t) == CT.Slot(st.blocks, c, t);
      BackReads(g, j, start, count, c, t);
    }
  }

  lemma BackTaken(st: Store, start: nat, count: nat)
    requires st.dataStart <= start
    ensures var st' := ChunkStore.FreeRun(st, start, count);
            st'.blocks == st.blocks && forall c: nat :: Taken(st, c) && !InRun(start, count, c) ==> Taken(st', c)
  {
  }

  lemma BackReads(g: Geometry, j: Staging, start: u64, count: u32, c: nat, t: nat)
    ensures SimRead(j.img, GiveBack(g, j.s, start, count), c, t) == SimRead(j.img, j.s, c, t)
  {
    hide ReadPtr;
  }
}
