/** The two allocation paths of the pointer tree: the direct one that writes the image
    (src/disk.rs, `get_or_alloc_block`) and the simulated one that records journal operations
    (src/journal.rs, `sim_get_or_alloc_block`). */
module Mirror {
  import opened Sizes
  import opened Bytes
  import opened MetadataOps
  import opened LastWins
  import opened ImageModel
  import opened BitList
  import opened PointerTree
  import opened BlockImage
  import opened Allocator

  datatype Reply = Got(id: u64) | NoSpace | BadPointer | TooLarge

  // ---------------------------------------------------------------------------
  // Paths through an inode
  // ---------------------------------------------------------------------------

  predicate U64Slots(ino: Inode) {
    (forall i :: 0 <= i < 12 ==> ino.blocks[i] <= U64_MAX) && ino.tripleIndirect <= U64_MAX
  }

  function RootSlot(ino: Inode, p: BlockPath): u64
    requires SlotsInBounds(p) && U64Slots(ino)
  {
    RootOf(ino, p)
  }

  lemma WalkFromSlot(img: Image, ino: Inode, idx: nat)
    requires U64Slots(ino) && idx < MAX_LOGICAL_BLOCKS
    ensures FromLogical(idx).Some? && SlotsInBounds(FromLogical(idx).value)
    ensures var p := FromLogical(idx).value;
            Resolve(PtrReader(img), ino, idx) == Walk(PtrReader(img), RootSlot(ino, p), PathOf(p))
  {
    hide Resolve, Walk;
    ResolveIsWalk(PtrReader(img), ino, idx);
  }

  function SetRoot(ino: Inode, p: BlockPath, v: u64): (r: Inode)
    requires SlotsInBounds(p) && U64Slots(ino)
    ensures U64Slots(r)
  {
    match p
    case Direct(i) => ino.(blocks := ino.blocks[i := v])
    case Single(_) => ino.(blocks := ino.blocks[10 := v])
    case Double(_, _) => ino.(blocks := ino.blocks[11 := v])
    case Triple(_, _, _) => ino.(tripleIndirect := v)
  }

  // ---------------------------------------------------------------------------
  // The direct path
  // ---------------------------------------------------------------------------

  datatype Fs = Fs(img: Image, hint: nat)

  predicate OnDisk(g: Geometry, fs: Fs) {
    Mounted(g, |fs.img|)
  }

  /** `allocate_block`: takes a block and zeroes it. */
  function DirectAlloc(g: Geometry, fs: Fs): (r: (Fs, Reply))
    requires OnDisk(g, fs)
    ensures |r.0.img| == |fs.img|
  {
    match SimAlloc(DataBits(g, fs.img), g.dataBlockStart, g.blockCount, fs.hint)
    case None => (fs, NoSpace)
    case Some(b) =>
      TakenIsFree(g, fs.img, fs.hint);
      (Fs(ZeroBlock(MarkUsed(g, fs.img, b), b), b + 1), Got(b))
  }

  lemma TakenIsFree(g: Geometry, img: Image, hint: nat)
    requires Mounted(g, |img|)
    ensures var r := SimAlloc(DataBits(g, img), g.dataBlockStart, g.blockCount, hint);
            r.Some? ==> Free(g, img, r.value)
  {
    NextFreeExact(DataBits(g, img), HintBit(Some(hint), g.dataBlockStart));
  }

  /** `ensure_root`, and the direct slots alike: the reply is also the new slot value. */
  function DirectRoot(g: Geometry, fs: Fs, slot: u64): (r: (Fs, Reply))
    requires OnDisk(g, fs)
    ensures |r.0.img| == |fs.img|
  {
    if slot == 0 then DirectAlloc(g, fs) else if IsData(g, slot) then (fs, Got(slot)) else (fs, BadPointer)
  }

  /** `get_or_alloc_indirect_child` with `allocate` set. */
  function DirectChild(g: Geometry, fs: Fs, parent: u64, slot: nat): (r: (Fs, Reply))
    requires OnDisk(g, fs) && slot < SLOTS
    ensures |r.0.img| == |fs.img|
  {
    if !IsData(g, parent) then (fs, BadPointer)
    else
      var child := ReadPtr(fs.img, parent, slot);
      if child != 0 then (fs, if IsData(g, child) then Got(child) else BadPointer)
      else
        var (fs', r) := DirectAlloc(g, fs);
        if r.Got? then (fs'.(img := WritePtr(fs'.img, parent, slot, r.id)), r) else (fs', r)
  }

  function DirectDescend(g: Geometry, fs: Fs, parent: u64, path: seq<nat>): (r: (Fs, Reply))
    requires OnDisk(g, fs) && InSlots(path)
    ensures |r.0.img| == |fs.img|
    decreases |path|
  {
    if path == [] then (fs, Got(parent))
    else
      var (fs', r) := DirectChild(g, fs, parent, path[0]);
      if r.Got? then DirectDescend(g, fs', r.id, path[1..]) else (fs', r)
  }

  /** `get_or_alloc_block` with `allocate` set. What a failing call did before it failed stays. */
  function DirectGet(g: Geometry, fs: Fs, ino: Inode, idx: nat): (r: (Fs, Inode, Reply))
    requires OnDisk(g, fs) && U64Slots(ino)
    ensures |r.0.img| == |fs.img| && U64Slots(r.1)
  {
    LogicalRoundTrip(idx);
    match FromLogical(idx)
    case None => (fs, ino, TooLarge)
    case Some(p) =>
      var (fs', r) := DirectRoot(g, fs, RootSlot(ino, p));
      if !r.Got? then (fs', ino, r)
      else
        var (fs'', r') := DirectDescend(g, fs', r.id, PathOf(p));
        (fs'', SetRoot(ino, p, r.id), r')
  }

  // ---------------------------------------------------------------------------
  // The simulated path
  // ---------------------------------------------------------------------------

  /** The simulator's view of the image and the operations recorded so far. */
  datatype Sim = Sim(bits: seq<bool>, hint: nat, taken: set<nat>, pointers: map<(nat, nat), u64>, ops: seq<MetadataOp>)

  function NewSim(g: Geometry, img: Image, hint: nat): Sim
    requires Mounted(g, |img|)
  {
    Sim(DataBits(g, img), hint, {}, map[], [])
  }

  /** `alloc_block` followed by the recorded bitmap operation. */
  function SimTakeBlock(g: Geometry, s: Sim): (Sim, Reply)
    requires g.blockCount < U64_MAX
  {
    match SimAlloc(s.bits, g.dataBlockStart, g.blockCount, s.hint)
    case None => (s, NoSpace)
    case Some(b) =>
      (s.(bits := SetBits(s.bits, b - g.dataBlockStart, 1, true), hint := b + 1, taken := s.taken + {b},
          ops := s.ops + [SetDataBitmap(b, true)]), Got(b))
  }

  function SimRoot(g: Geometry, s: Sim, slot: u64): (Sim, Reply)
    requires g.blockCount < U64_MAX
  {
    if slot == 0 then SimTakeBlock(g, s) else (s, Got(slot))
  }

  /** A slot as the simulator sees it: recorded, then zero in a block it handed out, then the image. */
  function SimRead(img: Image, s: Sim, parent: nat, slot: nat): u64 {
    if (parent, slot) in s.pointers then s.pointers[(parent, slot)]
    else if parent in s.taken then 0
    else ReadPtr(img, parent, slot)
  }

  /** `sim_child`. */
  function SimChild(g: Geometry, img: Image, s: Sim, parent: u64, slot: nat): (Sim, Reply)
    requires g.blockCount < U64_MAX && slot < SLOTS
  {
    if (parent, slot) in s.pointers then (s, Got(s.pointers[(parent, slot)]))
    else
      var existing := SimRead(img, s, parent, slot);
      if existing != 0 then (s, Got(existing))
      else
        var (s', r) := SimTakeBlock(g, s);
        if r.Got? then
          (s'.(pointers := s'.pointers[(parent, slot) := r.id],
               ops := s'.ops + [WriteBlockSlice(parent, 8 * slot, LE64(r.id))]), r)
        else (s', r)
  }

  function SimDescend(g: Geometry, img: Image, s: Sim, parent: u64, path: seq<nat>): (Sim, Reply)
    requires g.blockCount < U64_MAX && InSlots(path)
    decreases |path|
  {
    if path == [] then (s, Got(parent))
    else
      var (s', r) := SimChild(g, img, s, parent, path[0]);
      if r.Got? then SimDescend(g, img, s', r.id, path[1..]) else (s', r)
  }

  /** `sim_get_or_alloc_block`. */
  function SimGet(g: Geometry, img: Image, s: Sim, ino: Inode, idx: nat): (r: (Sim, Inode, Reply))
    requires g.blockCount < U64_MAX && U64Slots(ino)
    ensures U64Slots(r.1)
  {
    LogicalRoundTrip(idx);
    match FromLogical(idx)
    case None => (s, ino, TooLarge)
    case Some(p) =>
      var (s', r) := SimRoot(g, s, RootSlot(ino, p));
      if !r.Got? then (s', ino, r)
      else
        var (s'', r') := SimDescend(g, img, s', r.id, PathOf(p));
        (s'', SetRoot(ino, p, r.id), r')
  }

  // ---------------------------------------------------------------------------
  // What the two paths assume and keep
  // ---------------------------------------------------------------------------

  ghost predicate FreeIsClear(g: Geometry, img: Image)
    requires Mounted(g, |img|)
  {
    forall b :: IsData(g, b) && Free(g, img, b) ==> Clear(BlockBits(img, b))
  }

  /** The subtree at `b` names only data blocks that are in use, `depth` pointer levels down. */
  ghost predicate Sound(g: Geometry, img: Image, b: nat, depth: nat)
    requires Mounted(g, |img|)
    decreases depth
  {
    b != 0 ==>
      && IsData(g, b) && !Free(g, img, b)
      && (depth > 0 ==> forall t :: 0 <= t < SLOTS ==> Sound(g, img, ReadPtr(img, b, t), depth - 1))
  }

  ghost predicate SoundInode(g: Geometry, img: Image, ino: Inode)
    requires Mounted(g, |img|)
  {
    && (forall i :: 0 <= i < 10 ==> Sound(g, img, ino.blocks[i], 0))
    && Sound(g, img, ino.blocks[10], 1) && Sound(g, img, ino.blocks[11], 2) && Sound(g, img, ino.tripleIndirect, 3)
  }

  ghost predicate SameReads(g: Geometry, img0: Image, s: Sim, img: Image) {
    forall b, t :: IsData(g, b) && 0 <= t < SLOTS ==> SimRead(img0, s, b, t) == ReadPtr(img, b, t)
  }

  /** The image with the blocks of `taken` zeroed. */
  function Cleared(img: Image, taken: set<nat>): (r: Image)
    ensures |r| == |img|
    ensures forall p :: 0 <= p < |img| ==> r[p] == if p / BLOCK_BITS in taken then false else img[p]
  {
    seq(|img|, p requires 0 <= p < |img| => if p / BLOCK_BITS in taken then false else img[p])
  }

  /** The simulator, started on `img0`, stands for the file system `fs`: with the blocks it handed out
      zeroed, the operations give the image. */
  ghost predicate Mirrors(g: Geometry, img0: Image, s: Sim, fs: Fs)
    requires OnDisk(g, fs)
  {
    && ApplyAll(g, Cleared(img0, s.taken), s.ops) == Ok(fs.img)
    && s.bits == DataBits(g, fs.img) && s.hint == fs.hint
    && SameReads(g, img0, s, fs.img) && LinksAreSet(s) && InUse(g, img0, s, fs.img)
  }

  /** What the simulator handed out was free and is not, and it writes to no free block. */
  ghost predicate InUse(g: Geometry, img0: Image, s: Sim, img: Image)
    requires Mounted(g, |img|)
  {
    && Mounted(g, |img0|) && (forall b :: Free(g, img, b) ==> Free(g, img0, b))
    && (forall b :: b in s.taken ==> Free(g, img0, b) && !Free(g, img, b))
    && (forall k :: k in s.pointers ==> !Free(g, img, k.0))
    && (forall i :: 0 <= i < |s.ops| ==> Writes(g, img, s.ops[i]))
  }

  ghost predicate Writes(g: Geometry, img: Image, op: MetadataOp)
    requires Mounted(g, |img|)
  {
    || (op.SetDataBitmap? && IsData(g, op.blockId) && op.blockId - g.dataBlockStart < BLOCK_BITS)
    || (&& op.WriteBlockSlice? && IsData(g, op.blockId) && !Free(g, img, op.blockId)
        && op.offset + |op.data| <= BLOCK_SIZE)
  }

  ghost predicate LinksAreSet(s: Sim) {
    forall k :: k in s.pointers ==> s.pointers[k] != 0
  }

  /** Blocks only leave the free set, and a pointer once set in a block in use keeps its value. */
  ghost predicate Grows(g: Geometry, img: Image, img': Image)
    requires Mounted(g, |img|) && Mounted(g, |img'|)
  {
    && (forall b :: Free(g, img', b) ==> Free(g, img, b))
    && (forall b, t :: IsData(g, b) && !Free(g, img, b) && 0 <= t < SLOTS && ReadPtr(img, b, t) != 0 ==>
          ReadPtr(img', b, t) == ReadPtr(img, b, t))
  }

  // ---------------------------------------------------------------------------
  // Marking a free block, then linking it
  // ---------------------------------------------------------------------------

  /** The image once `b` is marked and zeroed. */
  function Handed(g: Geometry, img: Image, b: nat): (r: Image)
    requires Mounted(g, |img|) && Free(g, img, b)
    ensures |r| == |img|
  {
    ZeroBlock(MarkUsed(g, img, b), b)
  }

  lemma ZeroedViews(g: Geometry, img: Image, b: nat)
    requires Mounted(g, |img|) && IsData(g, b)
    ensures DataBits(g, ZeroBlock(img, b)) == DataBits(g, img) && Clear(BlockBits(ZeroBlock(img, b), b))
    ensures forall c :: IsData(g, c) && c != b ==> BlockBits(ZeroBlock(img, b), c) == BlockBits(img, c)
  {
    var img' := ZeroBlock(img, b);
    forall c | IsData(g, c) && c != b ensures BlockBits(img', c) == BlockBits(img, c) {}
  }

  lemma HandedKeeps(g: Geometry, img: Image, b: nat)
    requires Mounted(g, |img|) && Free(g, img, b)
    ensures var img' := Handed(g, img, b);
            && Grows(g, img, img') && Clear(BlockBits(img', b))
            && DataBits(g, img') == SetBits(DataBits(g, img), b - g.dataBlockStart, 1, true)
            && (forall c :: Free(g, img', c) <==> Free(g, img, c) && c != b)
            && (forall c, t :: IsData(g, c) && c != b ==> ReadPtr(img', c, t) == ReadPtr(img, c, t))
            && (forall t :: ReadPtr(img', b, t) == 0)
  {
    hide Word, BlockBits, Clear, ZeroBlock, MarkUsed, DataBits;
    MarkUsedViews(g, img, b);
    ZeroedViews(g, MarkUsed(g, img, b), b);
    forall t ensures ReadPtr(Handed(g, img, b), b, t) == 0 { ReadsZero(Handed(g, img, b), b, t); }
  }

  lemma ReadsZero(img: Image, b: nat, t: nat)
    requires Clear(BlockBits(img, b))
    ensures ReadPtr(img, b, t) == 0
  {
    ClearWord(BlockBits(img, b), t);
  }

  lemma LinkKeeps(g: Geometry, img: Image, parent: nat, slot: nat, v: u64)
    requires Mounted(g, |img|)
    requires IsData(g, parent) && !Free(g, img, parent) && slot < SLOTS && ReadPtr(img, parent, slot) == 0
    ensures var img' := WritePtr(img, parent, slot, v);
            && Grows(g, img, img')
            && (forall c :: Free(g, img', c) <==> Free(g, img, c))
            && (forall c :: IsData(g, c) && c != parent ==> BlockBits(img', c) == BlockBits(img, c))
            && (forall c, t :: IsData(g, c) && 0 <= t < SLOTS ==>
                  ReadPtr(img', c, t) == if c == parent && t == slot then v else ReadPtr(img, c, t))
  {
    hide Word, BlockBits, WritePtr, DataBits;
    WritePtrViews(g, img, parent, slot, v);
  }

  /** A clear block in use is a sound subtree of any depth. */
  lemma {:induction false} ClearIsSound(g: Geometry, img: Image, b: nat, depth: nat)
    requires Mounted(g, |img|) && IsData(g, b) && !Free(g, img, b) && Clear(BlockBits(img, b))
    ensures Sound(g, img, b, depth)
  {
    forall t | 0 <= t < SLOTS ensures ReadPtr(img, b, t) == 0 { ClearWord(BlockBits(img, b), t); }
  }

  /** Growth that sets only links to clear blocks keeps every subtree sound. */
  lemma {:induction false} GrowKeepsSound(g: Geometry, img: Image, img': Image, fresh': nat, b: nat, depth: nat)
    requires Mounted(g, |img|) && Mounted(g, |img'|) && Grows(g, img, img')
    requires forall c, t :: IsData(g, c) && !Free(g, img, c) && 0 <= t < SLOTS && ReadPtr(img, c, t) == 0 ==>
               ReadPtr(img', c, t) in {0, fresh'}
    requires IsData(g, fresh') && !Free(g, img', fresh') && Clear(BlockBits(img', fresh'))
    requires Sound(g, img, b, depth)
    ensures Sound(g, img', b, depth)
    decreases depth
  {
    hide Free, ReadPtr, BlockBits, Clear;
    if b != 0 && depth > 0 {
      forall t | 0 <= t < SLOTS ensures Sound(g, img', ReadPtr(img', b, t), depth - 1) {
        var old', new' := ReadPtr(img, b, t), ReadPtr(img', b, t);
        assert Sound(g, img, old', depth - 1);
        if new' == old' {
          GrowKeepsSound(g, img, img', fresh', old', depth - 1);
        } else {
          assert new' in {0, fresh'};
          if new' == fresh' { ClearIsSound(g, img', fresh', depth - 1); }
        }
      }
    }
  }

  // ---------------------------------------------------------------------------
  // Step by step
  // ---------------------------------------------------------------------------

  /** The step took at most one free block, linked it at most once, and kept every subtree sound. */
  ghost predicate Extends(g: Geometry, img: Image, img': Image)
    requires Mounted(g, |img|) && Mounted(g, |img'|)
  {
    Grows(g, img, img') && forall b, d :: Sound(g, img, b, d) ==> Sound(g, img', b, d)
  }

  lemma ExtendsFrom(g: Geometry, img: Image, img': Image, b: nat)
    requires Mounted(g, |img|) && Mounted(g, |img'|) && Grows(g, img, img')
    requires forall c, t :: IsData(g, c) && !Free(g, img, c) && 0 <= t < SLOTS && ReadPtr(img, c, t) == 0 ==>
               ReadPtr(img', c, t) in {0, b}
    requires IsData(g, b) && !Free(g, img', b) && Clear(BlockBits(img', b))
    ensures Extends(g, img, img') && forall d :: Sound(g, img', b, d)
  {
    hide Sound, Grows, Free, ReadPtr, BlockBits, Clear;
    forall c, d | Sound(g, img, c, d) ensures Sound(g, img', c, d) { GrowKeepsSound(g, img, img', b, c, d); }
    forall d ensures Sound(g, img', b, d) { ClearIsSound(g, img', b, d); }
  }

  /** Both paths take the same block and mark it. */
  lemma TakeMirrors(g: Geometry, img0: Image, s: Sim, fs: Fs)
    requires OnDisk(g, fs) && Mirrors(g, img0, s, fs)
    ensures var (s', r) := SimTakeBlock(g, s); var (fs', q) := DirectAlloc(g, fs);
            && q == r && Mirrors(g, img0, s', fs')
            && s'.pointers == s.pointers
            && (if r.Got?
                then IsData(g, r.id) && Free(g, fs.img, r.id) && fs'.img == Handed(g, fs.img, r.id)
                else s' == s && fs' == fs)
  {
    hide ApplyAll, SimAlloc, DataBits, ReadPtr, MarkUsed, ZeroBlock, Clear, BlockBits, SameReads, InUse, Free;
    TakenIsFree(g, fs.img, fs.hint);
    var (s', r) := SimTakeBlock(g, s);
    if r.Got? {
      HandedKeeps(g, fs.img, r.id);
      TakeReads(g, img0, s, s', fs.img, r.id);
      TakeInUse(g, img0, s, s', fs.img, r.id);
      TakeApplies(g, img0, s, s', fs.img, r.id);
    }
  }

  lemma TakeReads(g: Geometry, img0: Image, s: Sim, s': Sim, img: Image, b: nat)
    requires Mounted(g, |img|) && Free(g, img, b) && SameReads(g, img0, s, img) && InUse(g, img0, s, img)
    requires s'.pointers == s.pointers && s'.taken == s.taken + {b}
    ensures SameReads(g, img0, s', Handed(g, img, b))
  {
    hide Handed, ReadPtr, Clear, BlockBits, Free, Writes;
    HandedKeeps(g, img, b);
    var img' := Handed(g, img, b);
    forall c, t | IsData(g, c) && 0 <= t < SLOTS ensures SimRead(img0, s', c, t) == ReadPtr(img', c, t) {
      assert SimRead(img0, s, c, t) == ReadPtr(img, c, t);
    }
  }

  lemma TakeInUse(g: Geometry, img0: Image, s: Sim, s': Sim, img: Image, b: nat)
    requires Mounted(g, |img|) && Free(g, img, b) && InUse(g, img0, s, img) && b < U64_MAX
    requires s'.pointers == s.pointers && s'.taken == s.taken + {b} && s'.ops == s.ops + [SetDataBitmap(b, true)]
    ensures InUse(g, img0, s', Handed(g, img, b))
  {
    hide Handed, DataBits;
    HandedKeeps(g, img, b);
    forall i | 0 <= i < |s'.ops| ensures Writes(g, Handed(g, img, b), s'.ops[i]) {
      assert i < |s.ops| ==> s'.ops[i] == s.ops[i] && Writes(g, img, s.ops[i]);
    }
  }

  /** No recorded operation reaches into a free block. */
  lemma OpsMiss(g: Geometry, img: Image, ops: seq<MetadataOp>, b: nat, p: nat)
    requires Mounted(g, |img|) && Free(g, img, b) && p / BLOCK_BITS == b
    requires forall i :: 0 <= i < |ops| ==> Writes(g, img, ops[i])
    ensures LastWrite(g, ops, p).None?
  {
    hide Free, BitsOf;
    assert IsData(g, b) by { FreeIsData(g, img, b); }
    forall i | 0 <= i < |ops| ensures OpWrite(g, ops[i], p).None? {
      var op := ops[i];
      assert Writes(g, img, op);
      assert BlockBit(g, g.dataBitmapBlock) == BLOCK_BITS * g.dataBitmapBlock;
      if op.WriteBlockSlice? {
        assert BlockBit(g, op.blockId) == BLOCK_BITS * op.blockId;
        assert op.blockId != b;
      }
    }
    LastNone(ops, op => OpWrite(g, op, p));
  }

  lemma FreeIsData(g: Geometry, img: Image, b: nat)
    requires Mounted(g, |img|) && Free(g, img, b)
    ensures IsData(g, b) && b - g.dataBlockStart < BLOCK_BITS
  {
  }

  /** Zeroing a free block first comes to the same as zeroing it last. */
  lemma TakeApplies(g: Geometry, img0: Image, s: Sim, s': Sim, img: Image, b: nat)
    requires Mounted(g, |img|) && Free(g, img, b) && InUse(g, img0, s, img) && b < U64_MAX
    requires ApplyAll(g, Cleared(img0, s.taken), s.ops) == Ok(img)
    requires s'.taken == s.taken + {b} && s'.ops == s.ops + [SetDataBitmap(b, true)]
    ensures ApplyAll(g, Cleared(img0, s'.taken), s'.ops) == Ok(Handed(g, img, b))
  {
    hide ApplyAll, Free, LastWrite, MarkUsed, Handed, Writes, AllFit;
    var a, a' := Cleared(img0, s.taken), Cleared(img0, s'.taken);
    ApplyAllExact(g, a, s.ops);
    ApplyAllExact(g, a', s.ops);
    var img1 := ApplyAll(g, a', s.ops).value;
    forall p | 0 <= p < |img| ensures img1[p] == if p / BLOCK_BITS == b then false else img[p] {
      if p / BLOCK_BITS == b { OpsMiss(g, img, s.ops, b, p); }
    }
    FreeIsData(g, img, b);
    ApplyAllSnoc(g, a', s.ops, SetDataBitmap(b, true));
    MarkUsedIsOp(g, img1, b);
    MarkThenZero(g, img, img1, b);
  }

  lemma MarkThenZero(g: Geometry, img: Image, img1: Image, b: nat)
    requires Mounted(g, |img|) && |img1| == |img| && Free(g, img, b)
    requires forall p :: 0 <= p < |img| ==> img1[p] == if p / BLOCK_BITS == b then false else img[p]
    ensures MarkUsed(g, img1, b) == Handed(g, img, b)
  {
    hide Free;
    FreeIsData(g, img, b);
    var x, y := MarkUsed(g, img1, b), Handed(g, img, b);
    assert BLOCK_BITS * b + BLOCK_BITS <= |img|;
    forall p | 0 <= p < |img| ensures x[p] == y[p] {
      assert BLOCK_BITS * b <= p < BLOCK_BITS * b + BLOCK_BITS <==> p / BLOCK_BITS == b;
    }
  }

  lemma HandThenLink(g: Geometry, img: Image, b: u64, parent: nat, slot: nat)
    requires Mounted(g, |img|) && Free(g, img, b)
    requires IsData(g, parent) && !Free(g, img, parent) && slot < SLOTS && ReadPtr(img, parent, slot) == 0
    ensures var img1 := Handed(g, img, b); var img' := WritePtr(img1, parent, slot, b);
            && !Free(g, img1, parent) && ReadPtr(img1, parent, slot) == 0
            && Extends(g, img, img') && ReadPtr(img', parent, slot) == b
            && forall d :: Sound(g, img', b, d)
  {
    hide ReadPtr, BlockBits, Clear, Handed, WritePtr, DataBits, Extends, Free;
    HandedKeeps(g, img, b);
    var img1 := Handed(g, img, b);
    LinkKeeps(g, img1, parent, slot, b);
    var img' := WritePtr(img1, parent, slot, b);
    FreeIsData(g, img, b);
    ExtendsFrom(g, img, img', b);
  }

  lemma LinkMirrors(g: Geometry, img0: Image, s: Sim, fs: Fs, parent: u64, slot: nat, v: u64)
    requires OnDisk(g, fs) && Mirrors(g, img0, s, fs) && v != 0
    requires IsData(g, parent) && !Free(g, fs.img, parent) && slot < SLOTS && ReadPtr(fs.img, parent, slot) == 0
    ensures Mirrors(g, img0,
                    s.(pointers := s.pointers[(parent, slot) := v],
                       ops := s.ops + [WriteBlockSlice(parent, 8 * slot, LE64(v))]),
                    fs.(img := WritePtr(fs.img, parent, slot, v)))
  {
    hide ApplyAll, ReadPtr, BlockBits, WritePtr, DataBits, Free, Grows, InUse, Cleared;
    LinkKeeps(g, fs.img, parent, slot, v);
    WritePtrViews(g, fs.img, parent, slot, v);
    WritePtrIsOp(g, fs.img, parent, slot, v);
    ApplyAllSnoc(g, Cleared(img0, s.taken), s.ops, WriteBlockSlice(parent, 8 * slot, LE64(v)));
    LinkInUse(g, img0, s, fs.img, parent, slot, v);
  }

  lemma LinkInUse(g: Geometry, img0: Image, s: Sim, img: Image, parent: u64, slot: nat, v: u64)
    requires Mounted(g, |img|) && InUse(g, img0, s, img)
    requires IsData(g, parent) && !Free(g, img, parent) && slot < SLOTS && ReadPtr(img, parent, slot) == 0
    ensures InUse(g, img0,
                  s.(pointers := s.pointers[(parent, slot) := v],
                     ops := s.ops + [WriteBlockSlice(parent, 8 * slot, LE64(v))]),
                  WritePtr(img, parent, slot, v))
  {
    hide ReadPtr, BlockBits, WritePtr, Free, Grows;
    LinkKeeps(g, img, parent, slot, v);
    var ops, img' := s.ops + [WriteBlockSlice(parent, 8 * slot, LE64(v))], WritePtr(img, parent, slot, v);
    forall i | 0 <= i < |ops| ensures Writes(g, img', ops[i]) {
      assert i < |s.ops| ==> ops[i] == s.ops[i] && Writes(g, img, s.ops[i]);
    }
  }

  /** One pointer level: same reply, same image, the link kept by everything that follows. */
  lemma ChildMirrors(g: Geometry, img0: Image, s: Sim, fs: Fs, parent: u64, slot: nat, depth: nat)
    requires OnDisk(g, fs) && Mirrors(g, img0, s, fs) && slot < SLOTS
    requires parent != 0 && Sound(g, fs.img, parent, depth + 1)
    ensures var (s', r) := SimChild(g, img0, s, parent, slot); var (fs', q) := DirectChild(g, fs, parent, slot);
            && q == r && Mirrors(g, img0, s', fs') && Extends(g, fs.img, fs'.img)
            && (r.Got? ==> r.id != 0 && Sound(g, fs'.img, r.id, depth) && ReadPtr(fs'.img, parent, slot) == r.id)
  {
    hide ApplyAll, SimAlloc, DataBits, ReadPtr, MarkUsed, ZeroBlock, WritePtr, Clear, BlockBits, Free,
         SimTakeBlock, DirectAlloc, Grows, InUse, Cleared, Handed;
    assert SimRead(img0, s, parent, slot) == ReadPtr(fs.img, parent, slot);
    assert Sound(g, fs.img, ReadPtr(fs.img, parent, slot), depth);
    if ReadPtr(fs.img, parent, slot) != 0 {
      GrowsRefl(g, fs.img);
    } else {
      TakeMirrors(g, img0, s, fs);
      var (s1, r) := SimTakeBlock(g, s);
      var (fs1, _) := DirectAlloc(g, fs);
      if r.Got? {
        HandThenLink(g, fs.img, r.id, parent, slot);
        LinkMirrors(g, img0, s1, fs1, parent, slot, r.id);
      } else {
        GrowsRefl(g, fs.img);
      }
    }
  }

  lemma GrowsRefl(g: Geometry, img: Image)
    requires Mounted(g, |img|)
    ensures Extends(g, img, img)
  {
  }

  lemma ExtendsTrans(g: Geometry, a: Image, b: Image, c: Image)
    requires Mounted(g, |a|) && Mounted(g, |b|) && Mounted(g, |c|) && Extends(g, a, b) && Extends(g, b, c)
    ensures Extends(g, a, c)
  {
    hide Free, ReadPtr, Sound;
  }

  lemma {:induction false} DescendMirrors(g: Geometry, img0: Image, s: Sim, fs: Fs, parent: u64, path: seq<nat>)
    requires OnDisk(g, fs) && Mirrors(g, img0, s, fs) && InSlots(path)
    requires parent != 0 && Sound(g, fs.img, parent, |path|)
    ensures var (s', r) := SimDescend(g, img0, s, parent, path); var (fs', q) := DirectDescend(g, fs, parent, path);
            && q == r && Mirrors(g, img0, s', fs') && Extends(g, fs.img, fs'.img)
            && (r.Got? ==> r.id != 0 && Walk(PtrReader(fs'.img), parent, path) == r.id)
    decreases |path|
  {
    hide ReadPtr, Sound, Grows, Mirrors, SimChild, DirectChild, Extends;
    if path == [] {
      GrowsRefl(g, fs.img);
    } else {
      ChildMirrors(g, img0, s, fs, parent, path[0], |path| - 1);
      var (s1, r1) := SimChild(g, img0, s, parent, path[0]);
      var (fs1, _) := DirectChild(g, fs, parent, path[0]);
      if r1.Got? {
        DescendMirrors(g, img0, s1, fs1, r1.id, path[1..]);
        var (fs2, _) := DirectDescend(g, fs1, r1.id, path[1..]);
        ExtendsTrans(g, fs.img, fs1.img, fs2.img);
        LinkStays(g, fs.img, fs1.img, fs2.img, parent, path[0], |path| - 1, r1.id);
      }
    }
  }

  lemma LinkStays(g: Geometry, img: Image, img1: Image, img2: Image, parent: u64, slot: nat, depth: nat, v: nat)
    requires Mounted(g, |img|) && Mounted(g, |img1|) && Mounted(g, |img2|)
    requires Extends(g, img, img1) && Extends(g, img1, img2)
    requires parent != 0 && Sound(g, img, parent, depth + 1) && slot < SLOTS && ReadPtr(img1, parent, slot) == v != 0
    ensures Follow(PtrReader(img2), parent, slot) == v
  {
  }

  /** The depth of the subtree at the root of a path. */
  lemma SoundRoot(g: Geometry, img: Image, ino: Inode, p: BlockPath)
    requires Mounted(g, |img|) && SoundInode(g, img, ino) && SlotsInBounds(p) && U64Slots(ino)
    ensures Sound(g, img, RootSlot(ino, p), |PathOf(p)|)
  {
    hide Sound;
  }

  lemma SetRootSound(g: Geometry, img: Image, ino: Inode, p: BlockPath, v: u64)
    requires Mounted(g, |img|) && SoundInode(g, img, ino) && SlotsInBounds(p) && U64Slots(ino)
    requires Sound(g, img, v, |PathOf(p)|)
    ensures SoundInode(g, img, SetRoot(ino, p, v))
  {
    hide Sound;
  }

  lemma ExtendsKeepsInode(g: Geometry, img: Image, img': Image, ino: Inode)
    requires Mounted(g, |img|) && Mounted(g, |img'|) && Extends(g, img, img') && SoundInode(g, img, ino)
    ensures SoundInode(g, img', ino)
  {
    hide Sound, Grows;
  }

  lemma RootMirrors(g: Geometry, img0: Image, s: Sim, fs: Fs, slot: u64, depth: nat)
    requires OnDisk(g, fs) && Mirrors(g, img0, s, fs) && Sound(g, fs.img, slot, depth)
    ensures var (s', r) := SimRoot(g, s, slot); var (fs', q) := DirectRoot(g, fs, slot);
            && q == r && Mirrors(g, img0, s', fs') && Extends(g, fs.img, fs'.img)
            && (r.Got? ==> r.id != 0 && Sound(g, fs'.img, r.id, depth) && (slot != 0 ==> r.id == slot))
  {
    hide ApplyAll, ReadPtr, Handed, Clear, BlockBits, SimTakeBlock, DirectAlloc, DataBits, Extends, InUse, Free,
         Mirrors;
    GrowsRefl(g, fs.img);
    if slot == 0 {
      TakeMirrors(g, img0, s, fs);
      var (_, r) := SimTakeBlock(g, s);
      if r.Got? {
        HandedKeeps(g, fs.img, r.id);
        ExtendsFrom(g, fs.img, Handed(g, fs.img, r.id), r.id);
      }
    }
  }

  /** One call: the same reply and inode, the same image once the operations are applied, the index
      resolves to the reply, and the tree stays sound. */
  lemma GetMirrors(g: Geometry, img0: Image, s: Sim, fs: Fs, ino: Inode, idx: nat)
    requires OnDisk(g, fs) && Mirrors(g, img0, s, fs) && U64Slots(ino) && SoundInode(g, fs.img, ino)
    ensures var (s', ino', r) := SimGet(g, img0, s, ino, idx); var (fs', ino'', q) := DirectGet(g, fs, ino, idx);
            && q == r && ino'' == ino' && Mirrors(g, img0, s', fs')
            && Extends(g, fs.img, fs'.img) && SoundInode(g, fs'.img, ino')
            && (r.Got? ==> r.id != 0 && Resolve(PtrReader(fs'.img), ino', idx) == r.id)
  {
    hide Mirrors, Sound, SoundInode, Extends, SimRoot, DirectRoot, SimDescend, DirectDescend, Walk, Resolve, PathOf,
         RootSlot, SetRoot;
    LogicalRoundTrip(idx);
    GrowsRefl(g, fs.img);
    if FromLogical(idx).Some? {
      var p := FromLogical(idx).value;
      SoundRoot(g, fs.img, ino, p);
      RootMirrors(g, img0, s, fs, RootSlot(ino, p), |PathOf(p)|);
      var (s1, r1) := SimRoot(g, s, RootSlot(ino, p));
      var (fs1, _) := DirectRoot(g, fs, RootSlot(ino, p));
      ExtendsKeepsInode(g, fs.img, fs1.img, ino);
      if r1.Got? {
        var ino' := SetRoot(ino, p, r1.id);
        SetRootSound(g, fs1.img, ino, p, r1.id);
        DescendMirrors(g, img0, s1, fs1, r1.id, PathOf(p));
        var (fs2, _) := DirectDescend(g, fs1, r1.id, PathOf(p));
        ExtendsTrans(g, fs.img, fs1.img, fs2.img);
        ExtendsKeepsInode(g, fs1.img, fs2.img, ino');
        WalkFromSlot(fs2.img, ino', idx);
        SetThenRoot(ino, p, r1.id);
      }
    }
  }

  lemma SetThenRoot(ino: Inode, p: BlockPath, v: u64)
    requires SlotsInBounds(p) && U64Slots(ino)
    ensures RootSlot(SetRoot(ino, p, v), p) == v
    ensures forall q :: SlotsInBounds(q) && RootSlot(ino, p) in {0, v} && RootSlot(ino, q) != 0 ==>
              RootSlot(SetRoot(ino, p, v), q) == RootSlot(ino, q)
  {
  }

  // ---------------------------------------------------------------------------
  // Whole runs
  // ---------------------------------------------------------------------------

  ghost function DirectRun(g: Geometry, fs: Fs, ino: Inode, idxs: seq<nat>): (r: (Fs, Inode, seq<Reply>))
    requires OnDisk(g, fs) && U64Slots(ino)
    ensures |r.0.img| == |fs.img|
    decreases |idxs|
  {
    if idxs == [] then (fs, ino, [])
    else
      var (fs', ino', r) := DirectGet(g, fs, ino, idxs[0]);
      var (fs'', ino'', rs) := DirectRun(g, fs', ino', idxs[1..]);
      (fs'', ino'', [r] + rs)
  }

  ghost function SimRunAll(g: Geometry, img: Image, s: Sim, ino: Inode, idxs: seq<nat>): (Sim, Inode, seq<Reply>)
    requires g.blockCount < U64_MAX && U64Slots(ino)
    decreases |idxs|
  {
    if idxs == [] then (s, ino, [])
    else
      var (s', ino', r) := SimGet(g, img, s, ino, idxs[0]);
      var (s'', ino'', rs) := SimRunAll(g, img, s', ino', idxs[1..]);
      (s'', ino'', [r] + rs)
  }

  lemma {:induction false} RunMirrors(g: Geometry, img0: Image, s: Sim, fs: Fs, ino: Inode, idxs: seq<nat>)
    requires OnDisk(g, fs) && Mirrors(g, img0, s, fs) && U64Slots(ino) && SoundInode(g, fs.img, ino)
    ensures var (s', ino', rs) := SimRunAll(g, img0, s, ino, idxs); var (fs', ino'', qs) := DirectRun(g, fs, ino, idxs);
            qs == rs && ino'' == ino' && Mirrors(g, img0, s', fs') && SoundInode(g, fs'.img, ino')
    decreases |idxs|
  {
    hide Mirrors, SoundInode, SimGet, DirectGet;
    if idxs != [] {
      GetMirrors(g, img0, s, fs, ino, idxs[0]);
      var (s', ino', _) := SimGet(g, img0, s, ino, idxs[0]);
      var (fs', _, _) := DirectGet(g, fs, ino, idxs[0]);
      RunMirrors(g, img0, s', fs', ino', idxs[1..]);
    }
  }

  /** What the operations do not write of the blocks handed out is clear. */
  ghost predicate TakenClear(g: Geometry, img: Image, taken: set<nat>, ops: seq<MetadataOp>) {
    forall p :: 0 <= p < |img| && p / BLOCK_BITS in taken && LastWrite(g, ops, p).None? ==> !img[p]
  }

  /** The main result. From an inode whose tree is sound any sequence of calls gives the same replies on
      both paths, the same inode, hint and bitmap. Applying the recorded operations gives the image the
      direct path wrote exactly if the blocks handed out were clear where the operations do not write. */
  lemma SimulationMirrorsDirect(g: Geometry, img: Image, hint: nat, ino: Inode, idxs: seq<nat>)
    requires Mounted(g, |img|) && SoundInode(g, img, ino) && U64Slots(ino)
    ensures var (s, ino', rs) := SimRunAll(g, img, NewSim(g, img, hint), ino, idxs);
            var (fs, ino'', qs) := DirectRun(g, Fs(img, hint), ino, idxs);
            && rs == qs && ino' == ino''
            && ApplyAll(g, Cleared(img, s.taken), s.ops) == Ok(fs.img) && ApplyAll(g, img, s.ops).Ok?
            && (ApplyAll(g, img, s.ops) == Ok(fs.img) <==> TakenClear(g, img, s.taken, s.ops))
            && s.bits == DataBits(g, fs.img) && s.hint == fs.hint
            && (forall b :: b in s.taken ==> Free(g, img, b))
  {
    hide SimRunAll, DirectRun, DataBits, ReadPtr, Sound, SoundInode, Free, ApplyAll;
    assert Cleared(img, {}) == img;
    assert ApplyAll(g, img, []) == Ok(img) by { NothingApplied(g, img); }
    assert Mirrors(g, img, NewSim(g, img, hint), Fs(img, hint));
    RunMirrors(g, img, NewSim(g, img, hint), Fs(img, hint), ino, idxs);
    var s := SimRunAll(g, img, NewSim(g, img, hint), ino, idxs).0;
    RedoDependsOutsideFootprint(g, img, Cleared(img, s.taken), s.ops);
  }

  lemma NothingApplied(g: Geometry, img: Image)
    ensures ApplyAll(g, img, []) == Ok(img)
  {
  }

  /** Clear free blocks are enough. */
  lemma ClearIsEnough(g: Geometry, img: Image, taken: set<nat>, ops: seq<MetadataOp>)
    requires Mounted(g, |img|) && FreeIsClear(g, img) && forall b :: b in taken ==> Free(g, img, b)
    ensures TakenClear(g, img, taken, ops)
  {
    hide LastWrite, Free;
    forall p | 0 <= p < |img| && p / BLOCK_BITS in taken ensures !img[p] {
      var b := p / BLOCK_BITS;
      FreeIsData(g, img, b);
      assert BLOCK_BITS * b + BLOCK_BITS <= |img| && BlockBits(img, b)[p - BLOCK_BITS * b] == img[p];
    }
  }

  /** The first block of an empty file: the two images are equal exactly if that block was clear. */
  lemma FirstBlockDecides(g: Geometry, img: Image, hint: nat, ino: Inode, b: u64)
    requires Mounted(g, |img|) && ino.tripleIndirect == 0 && forall i :: 0 <= i < 12 ==> ino.blocks[i] == 0
    requires SimAlloc(DataBits(g, img), g.dataBlockStart, g.blockCount, hint) == Some(b as nat)
    ensures var ops := SimRunAll(g, img, NewSim(g, img, hint), ino, [0]).0.ops;
            ApplyAll(g, img, ops) == Ok(DirectRun(g, Fs(img, hint), ino, [0]).0.img) <==> Clear(BlockBits(img, b))
  {
    hide DirectRun, DirectGet, ApplyAll, SimAlloc, DataBits, LastWrite, Free;
    SimulationMirrorsDirect(g, img, hint, ino, [0]);
    LogicalRoundTrip(0);
    var s := SimRunAll(g, img, NewSim(g, img, hint), ino, [0]).0;
    assert [0][1..] == [];
    assert s == SimGet(g, img, NewSim(g, img, hint), ino, 0).0;
    assert s.taken == {b as nat} && s.ops == [SetDataBitmap(b, true)];
    assert Free(g, img, b);
    FreeIsData(g, img, b);
    assert BLOCK_BITS * b + BLOCK_BITS <= |img|;
    forall p | 0 <= p < |img| && p / BLOCK_BITS == b ensures LastWrite(g, s.ops, p).None? {
      OpsMiss(g, img, s.ops, b, p);
    }
    var bits := BlockBits(img, b);
    if TakenClear(g, img, s.taken, s.ops) {
      forall i | 0 <= i < BLOCK_BITS ensures !bits[i] { assert (BLOCK_BITS * b + i) / BLOCK_BITS == b; }
    } else {
      var p :| 0 <= p < |img| && p / BLOCK_BITS == b && img[p];
      assert bits[p - BLOCK_BITS * b];
    }
  }

  /** Five blocks, the last of them the data area, free and not clear. */
  lemma StaleBlockDiffers(ino: Inode)
    requires ino.tripleIndirect == 0 && forall i :: 0 <= i < 12 ==> ino.blocks[i] == 0
    ensures var g := Geometry(BLOCK_SIZE, 5, 16, 1, 1, 2, 1, 3, 4);
            var img := Repeat(false, 5 * BLOCK_BITS)[4 * BLOCK_BITS := true];
            && Mounted(g, |img|) && SoundInode(g, img, ino) && U64Slots(ino)
            && ApplyAll(g, img, SimRunAll(g, img, NewSim(g, img, 4), ino, [0]).0.ops) !=
               Ok(DirectRun(g, Fs(img, 4), ino, [0]).0.img)
  {
    hide DirectRun, SimRunAll, ApplyAll;
    var g := Geometry(BLOCK_SIZE, 5, 16, 1, 1, 2, 1, 3, 4);
    var img := Repeat(false, 5 * BLOCK_BITS)[4 * BLOCK_BITS := true];
    assert !DataBits(g, img)[0];
    FirstFreeUnique(DataBits(g, img), 0, Some(0));
    FirstBlockDecides(g, img, 4, ino, 4);
    assert BlockBits(img, 4)[0];
  }

  // ---------------------------------------------------------------------------
  // Existing mappings
  // ---------------------------------------------------------------------------

  lemma {:induction false} WalkStays(g: Geometry, img: Image, img': Image, b: nat, path: seq<nat>)
    requires Mounted(g, |img|) && Mounted(g, |img'|) && Grows(g, img, img') && InSlots(path)
    requires Sound(g, img, b, |path|) && Walk(PtrReader(img), b, path) != 0
    ensures b != 0 && Walk(PtrReader(img'), b, path) == Walk(PtrReader(img), b, path)
    decreases |path|
  {
    hide ReadPtr, Free;
    if path != [] {
      var next := Follow(PtrReader(img), b, path[0]);
      if b == 0 { WalkFromHole(PtrReader(img), path[1..]); }
      WalkStays(g, img, img', next, path[1..]);
      assert next == ReadPtr(img, b, path[0]);
    }
  }

  /** No call changes where an index that was mapped already resolves to. */
  lemma GetKeepsMappings(g: Geometry, img0: Image, s: Sim, fs: Fs, ino: Inode, idx: nat, other: nat)
    requires OnDisk(g, fs) && Mirrors(g, img0, s, fs) && U64Slots(ino) && SoundInode(g, fs.img, ino)
    requires Resolve(PtrReader(fs.img), ino, other) != 0
    ensures var (fs', ino', _) := DirectGet(g, fs, ino, idx);
            Resolve(PtrReader(fs'.img), ino', other) == Resolve(PtrReader(fs.img), ino, other)
  {
    hide Mirrors, Sound, SoundInode, Grows, DirectRoot, DirectDescend, Walk, PathOf, RootSlot, SetRoot;
    LogicalRoundTrip(other);
    LogicalRoundTrip(idx);
    GetMirrors(g, img0, s, fs, ino, idx);
    var (fs', ino', _) := DirectGet(g, fs, ino, idx);
    WalkFromSlot(fs.img, ino, other);
    WalkFromSlot(fs'.img, ino', other);
    var q := FromLogical(other).value;
    SoundRoot(g, fs.img, ino, q);
    WalkStays(g, fs.img, fs'.img, RootSlot(ino, q), PathOf(q));
    if FromLogical(idx).Some? {
      var p := FromLogical(idx).value;
      SoundRoot(g, fs.img, ino, p);
      RootMirrors(g, img0, s, fs, RootSlot(ino, p), |PathOf(p)|);
      var (_, r) := DirectRoot(g, fs, RootSlot(ino, p));
      if r.Got? { SetThenRoot(ino, p, r.id); }
    }
  }
}
