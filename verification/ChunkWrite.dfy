/** The journaled chunked write as the source runs it: stage, record, commit, apply. */
module ChunkWrite {
  import opened Sizes
  import opened Bytes
  import opened LastWins
  import opened MetadataOps
  import opened ImageModel
  import opened Coalesce
  import opened CoalesceMeaning
  import opened CoalesceTheorem
  import opened PointerTree
  import opened TreePositions
  import opened BlockImage
  import opened Allocator
  import opened Mirror
  import opened AllocTree
  import opened ChunkStore
  import opened ChunkEntries
  import opened ChunkCodec
  import opened ChunkCommit
  import opened ChunkRuns
  import opened ChunkFile
  import opened ChunkImage
  import opened ChunkSim
  import opened ChunkMarks
  import opened ChunkMirror
  import opened ChunkLockstep
  import opened ChunkJournal
  import Bitmap
  import CT = ChunkTree

  // ---------------------------------------------------------------------------
  // Methods on the simulator
  // ---------------------------------------------------------------------------

  /** The copy loop into the mapping. */
  method StagePayload(image: array<bool>, start: nat, p: Prepared)
    requires ChunkCodec.Fits(p) && BLOCK_BITS * (start + p.count) <= image.Length
    modifies image
    ensures image[..] == StageRun(old(image[..]), start, p)
  {
    hide BitsOf;
    var written := 0;
    for i := 0 to p.count
      invariant written == Min(BLOCK_SIZE * i, |p.payload|)
      invariant forall q :: 0 <= q < image.Length ==>
        image[q] == if InRun(start, i, q / BLOCK_BITS)
                    then BitsOf(PieceOf(p.payload, q / BLOCK_BITS - start))[q % BLOCK_BITS] else old(image[q])
    {
      var toWrite := Min(|p.payload| - written, BLOCK_SIZE);
      var piece := Resize(p.payload[written..written + toWrite], BLOCK_SIZE);
      assert piece == PieceOf(p.payload, i);
      ghost var before := image[..];
      SpliceInPlace(image, BLOCK_BITS * (start + i), BitsOf(piece));
      StagedBlock(before, image[..], start + i, BitsOf(piece));
      written := written + toWrite;
    }
  }

  lemma StagedBlock(before: Image, after: Image, b: nat, bits: seq<bool>)
    requires |bits| == BLOCK_BITS && BLOCK_BITS * b + BLOCK_BITS <= |before|
    requires after == Splice(before, BLOCK_BITS * b, bits)
    ensures forall q :: 0 <= q < |before| ==>
              after[q] == if q / BLOCK_BITS == b then bits[q % BLOCK_BITS] else before[q]
  {
    hide Splice;
    forall q | 0 <= q < |before| ensures after[q] == if q / BLOCK_BITS == b then bits[q % BLOCK_BITS] else before[q] {
      assert q / BLOCK_BITS == b <==> BLOCK_BITS * b <= q < BLOCK_BITS * b + BLOCK_BITS;
    }
  }

  /** One pointer level of `sim_resolve_logical_chunk_entry`. */
  method SimFollow(img: Image, sim: AllocSim, ghost ops: seq<MetadataOp>, parent: nat, slot: nat) returns (v: nat)
    requires sim.Valid()
    ensures v == Follow(SimSlots(img, View(sim, ops)), parent, slot)
  {
    hide ReadPtr, Bitmap.BitsIn;
    if parent == 0 {
      return 0;
    }
    if (parent, slot) in sim.pointers {
      return sim.pointers[(parent, slot)];
    }
    var isFresh := sim.IsFresh(parent);
    return if isFresh then 0 else ReadPtr(img, parent, slot);
  }

  method SimResolveEntry(img: Image, sim: AllocSim, ghost ops: seq<MetadataOp>, ino: Inode, k: nat) returns (e: nat)
    requires sim.Valid()
    ensures e == SimEntry(img, View(sim, ops), ino, k)
  {
    hide View, SimRead, Follow;
    LogicalRoundTrip(k);
    match FromLogical(k)
    case Some(Direct(i)) =>
      return ino.blocks[i];
    case Some(Single(i)) =>
      e := SimFollow(img, sim, ops, ino.blocks[10], i);
    case Some(Double(a, b)) =>
      var sib := SimFollow(img, sim, ops, ino.blocks[11], a);
      e := SimFollow(img, sim, ops, sib, b);
    case Some(Triple(a, b, d)) =>
      var dib := SimFollow(img, sim, ops, ino.tripleIndirect, a);
      var sib := SimFollow(img, sim, ops, dib, b);
      e := SimFollow(img, sim, ops, sib, d);
    case None =>
      return 0;
  }

  /** The recorded slot of an entry. */
  method RecordEntry(sim: AllocSim, ops: seq<MetadataOp>, table: u64, slot: nat, raw: u64)
    returns (ops': seq<MetadataOp>)
    requires slot < SLOTS && sim.Valid()
    modifies sim`pointers
    ensures sim.Valid() && View(sim, ops') == RecordSlot(old(View(sim, ops)), table, slot, raw)
  {
    hide LE, Bitmap.BitsIn;
    sim.pointers := sim.pointers[(table, slot) := raw];
    ops' := ops + [WriteBlockSlice(table, 8 * slot, LE64(raw))];
  }

  /** The child in `slot`, made if missing. */
  function ChildOf(g: Geometry, img: Image, s: Sim, parent: Option<u64>, slot: nat): (Sim, Option<u64>)
    requires g.blockCount < U64_MAX && slot < SLOTS
  {
    if parent.None? then (s, None)
    else var (s', r) := SimChild(g, img, s, parent.value, slot); (s', if r.Got? then Some(r.id) else None)
  }

  function Finish(s: Sim, ino: Inode, table: Option<u64>, slot: nat, raw: u64): (Sim, Inode, bool)
    requires slot < SLOTS
  {
    if table.None? then (s, ino, false) else (RecordSlot(s, table.value, slot, raw), ino, true)
  }

  /** The steps by the path of the index. */
  lemma SetByPath(g: Geometry, img: Image, s: Sim, ino: Inode, k: nat, raw: u64)
    requires g.blockCount < U64_MAX && U64Slots(ino)
    ensures match FromLogical(k)
            case None => SimSet(g, img, s, ino, k, raw) == (s, ino, false)
            case Some(Direct(_)) =>
              k < 10 && SimSet(g, img, s, ino, k, raw) == (s, CT.WithSlot(ino, Leaf(k), raw), true)
            case Some(Single(i)) =>
              && i < SLOTS
              && var (s1, ino1, r) := SimEnsure(g, img, s, ino, Root1);
              SimSet(g, img, s, ino, k, raw) == Finish(s1, ino1, r, i, raw)
            case Some(Double(a, b)) =>
              && a < SLOTS && b < SLOTS
              && var (s1, ino1, r) := SimEnsure(g, img, s, ino, Root2); var (s2, t) := ChildOf(g, img, s1, r, a);
              SimSet(g, img, s, ino, k, raw) == Finish(s2, ino1, t, b, raw)
            case Some(Triple(a, b, d)) =>
              && a < SLOTS && b < SLOTS && d < SLOTS
              && var (s1, ino1, r) := SimEnsure(g, img, s, ino, Root3); var (s2, t) := ChildOf(g, img, s1, r, a);
              var (s3, u) := ChildOf(g, img, s2, t, b);
              SimSet(g, img, s, ino, k, raw) == Finish(s3, ino1, u, d, raw)
  {
    hide SimChild, RecordSlot, SimTakeBlock, CT.WithSlot, SimEnsure;
    LogicalRoundTrip(k);
    match FromLogical(k)
    case Some(Double(a, b)) =>
      EnsureBelow(g, img, s, ino, Sib2(a));
    case Some(Triple(a, b, d)) =>
      EnsureBelow(g, img, s, ino, Sib3(a, b));
      EnsureBelow(g, img, s, ino, Dib3(a));
    case _ =>
  }

  lemma EnsureBelow(g: Geometry, img: Image, s: Sim, ino: Inode, p: Pos)
    requires g.blockCount < U64_MAX && InTree(p) && !p.Leaf? && U64Slots(ino) && Up(p).Some?
    ensures var (t, slot) := Up(p).value; var (s1, ino1, parent) := SimEnsure(g, img, s, ino, t);
            var (s2, child) := ChildOf(g, img, s1, parent, slot);
            SimEnsure(g, img, s, ino, p) == (s2, ino1, child)
  {
    hide SimChild;
  }

  /** `sim_set_logical_chunk_entry` for an entry that is not empty. */
  method SimSetEntry(g: Geometry, img: Image, sim: AllocSim, ops: seq<MetadataOp>, ino: Inode, k: nat, raw: u64)
    returns (ops': seq<MetadataOp>, ino': Inode, ok: bool)
    requires SimValid(g, sim) && U64Slots(ino)
    modifies sim, sim.dataBitmap
    ensures SimValid(g, sim)
    ensures (View(sim, ops'), ino', ok) == SimSet(g, img, old(View(sim, ops)), ino, k, raw)
  {
    hide View, SimChild, SimEnsure, SimSet, SimTakeBlock, RecordSlot, CT.WithSlot;
    LogicalRoundTrip(k);
    SetByPath(g, img, View(sim, ops), ino, k, raw);
    ops', ino', ok := ops, ino, false;
    var r;
    match FromLogical(k)
    case Some(Direct(i)) =>
      ino', ok := CT.WithSlot(ino, Leaf(k), raw), true;
    case Some(Single(i)) =>
      ops', ino', r := SimRootAt(g, img, sim, ops', ino, Root1);
      if r.Got? {
        ops' := RecordEntry(sim, ops', r.id, i, raw);
        ok := true;
      }
    case Some(Double(a, b)) =>
      ops', ino', r := SimRootAt(g, img, sim, ops', ino, Root2);
      if r.Got? {
        ops', r := SimChildBlock(g, img, sim, ops', r.id, a);
        if r.Got? {
          ops' := RecordEntry(sim, ops', r.id, b, raw);
          ok := true;
        }
      }
    case Some(Triple(a, b, d)) =>
      ops', ino', r := SimRootAt(g, img, sim, ops', ino, Root3);
      if r.Got? {
        ops', r := SimChildBlock(g, img, sim, ops', r.id, a);
        if r.Got? {
          ops', r := SimChildBlock(g, img, sim, ops', r.id, b);
          if r.Got? {
            ops' := RecordEntry(sim, ops', r.id, d, raw);
            ok := true;
          }
        }
      }
    case None =>
  }

  /** `sim_ensure_root` for the slot of the inode that holds position `p`. */
  method SimRootAt(g: Geometry, img: Image, sim: AllocSim, ops: seq<MetadataOp>, ino: Inode, p: Pos)
    returns (ops': seq<MetadataOp>, ino': Inode, r: Reply)
    requires SimValid(g, sim) && U64Slots(ino) && InTree(p) && !p.Leaf? && Up(p).None?
    modifies sim, sim.dataBitmap
    ensures SimValid(g, sim)
    ensures (View(sim, ops'), ino', if r.Got? then Some(r.id) else None) ==
            SimEnsure(g, img, old(View(sim, ops)), ino, p)
  {
    hide View, SimTakeBlock, CT.WithSlot;
    ops', r := SimEnsureRoot(g, sim, ops, InodeSlot(ino, p));
    ino' := if r.Got? && InodeSlot(ino, p) == 0 then CT.WithSlot(ino, p, r.id) else ino;
  }

  // ---------------------------------------------------------------------------
  // The loop
  // ---------------------------------------------------------------------------

  /** `alloc_contiguous` and its operation. */
  method TakeRunSim(g: Geometry, sim: AllocSim, ops: seq<MetadataOp>, count: u32)
    returns (start: Option<u64>, ops': seq<MetadataOp>)
    requires SimValid(g, sim) && count > 0
    modifies sim, sim.dataBitmap
    ensures SimValid(g, sim)
    ensures var s := old(View(sim, ops)); var fit := SimFit(s.bits, g.dataBlockStart, g.blockCount, s.hint, count);
            if fit.None? then start == None && ops' == ops && View(sim, ops) == s
            else start.Some? && start.value == fit.value && View(sim, ops') == TakeRun(g, s, fit.value, count)
  {
    hide Bitmap.BitsIn, SimFit, BlocksFrom;
    var r := sim.AllocContiguous(count);
    if r.None? {
      return None, ops;
    }
    return Some(r.value), ops + [SetDataBitmapRange(r.value, count, true)];
  }

  method GiveBackSim(g: Geometry, sim: AllocSim, ops: seq<MetadataOp>, start: u64, count: u32)
    returns (ops': seq<MetadataOp>)
    requires SimValid(g, sim)
    modifies sim, sim.dataBitmap
    ensures SimValid(g, sim) && View(sim, ops') == GiveBack(g, old(View(sim, ops)), start, count)
  {
    hide Bitmap.BitsIn;
    sim.FreeContiguous(start, count);
    ops' := ops + [SetDataBitmapRange(start, count, false)];
  }

  /** The entry a commit finds for its chunk. */
  function FoundEntry(g: Geometry, j: Staging, ino: Inode, k: nat, p: Prepared): nat
    requires |j.s.bits| == BLOCK_BITS && Narrow(g) && ChunkCodec.Fits(p)
  {
    match SimFit(j.s.bits, g.dataBlockStart, g.blockCount, j.s.hint, p.count)
    case None => 0
    case Some(start) => SimEntry(StageRun(j.img, start, p), TakeRun(g, j.s, start, p.count), ino, k)
  }

  /** One turn of the loop. */
  method CommitTurn(g: Geometry, image: array<bool>, sim: AllocSim, ops: seq<MetadataOp>, ghost tables: set<nat>,
                    ino: Inode,
                    k: nat, p: Prepared)
    returns (ok: bool, ops': seq<MetadataOp>, ino': Inode, oldLen: nat)
    requires SimValid(g, sim) && Narrow(g) && ChunkCodec.Fits(p) && U64Slots(ino)
    requires BLOCK_BITS * g.blockCount <= image.Length
    requires |View(sim, ops).bits| == BLOCK_BITS
    modifies image, sim, sim.dataBitmap
    ensures SimValid(g, sim)
    ensures var j := Staging(old(image[..]), old(View(sim, ops)), tables); var t := JournalStep(g, j, ino, k, p);
            && ok == t.ok && ino' == t.ino && image[..] == t.j.img && View(sim, ops') == t.j.s
            && (ok ==> oldLen == StoredLen(FoundEntry(g, j, ino, k, p)))
  {
    hide View, SimFit, StageRun, TakeRun, SimSet, SimEntry, GiveBack, EntryFor, EntryIsEmpty, EntryStart, EntryCount,
         StoredLen;
    var start;
    start, ops' := TakeRunSim(g, sim, ops, p.count);
    if start.None? {
      return false, ops, ino, 0;
    }
    StagePayload(image, start.value, p);
    var img := image[..];
    var old' := SimResolveEntry(img, sim, ops', ino, k);
    ops', ino', ok := SimSetEntry(g, img, sim, ops', ino, k, EntryFor(start.value, p));
    if !ok {
      return false, ops', ino', 0;
    }
    oldLen := StoredLen(old');
    if !EntryIsEmpty(old') {
      EntryFields(old');
      ops' := GiveBackSim(g, sim, ops', EntryStart(old'), EntryCount(old'));
    }
  }

  lemma FoundIs(c: Codec, g: Geometry, j: Staging, st: Store, ino: Inode, p: Prepared, first: nat, n: nat)
    requires Mirrored(g, j, st, ino, first, n) && ChunkCodec.Fits(p) && first + n < MAX_LOGICAL_BLOCKS && RunFits(st, p)
    requires GrabRun(st, p.count).Some?
    ensures Narrow(g) && |j.s.bits| == BLOCK_BITS
    ensures FoundEntry(g, j, ino, first + n, p) == EntryAt(st.blocks, ino, first + n)
  {
    hide Mirrored, SimFit, GrabRun, StageRun, TakeRun, Lay, SimEntry, EntryOf, EntryFor, Keeps, Reserved, EntryAt;
    Start(g, j, st, ino, first, n);
    FitIsGrab(g, j, st, ino, p, first, n);
    var (st1, start) := GrabRun(st, p.count).value;
    RunStep(g, j, st, ino, p, first, n, st1, start);
    var j2 := j.(img := StageRun(j.img, start, p), s := TakeRun(g, j.s, start, p.count));
    var st2 := st1.(blocks := Lay(st1.blocks, start, p));
    SimEntryIs(g, j2, st2, ino, first + n, first, n);
    OldEntry(st, ino, st2, first + n);
  }

  /** Once stopped, nothing more happens. */
  lemma {:induction false} JournalStops(c: Codec, g: Geometry, j: Staging, ino: Inode, first: nat,
                                        bufs: seq<seq<byte>>, m: nat,
                                        n: nat)
    requires Lawful(c) && Narrow(g) && |j.s.bits| == BLOCK_BITS && U64Slots(ino) && AllChunks(bufs) && m <= n <= |bufs|
    requires !JournalMany(c, g, j, ino, first, bufs, m).ok
    ensures JournalMany(c, g, j, ino, first, bufs, n) == JournalMany(c, g, j, ino, first, bufs, m)
    decreases n
  {
    hide JournalStep, Lawful;
    if m < n { JournalStops(c, g, j, ino, first, bufs, m, n - 1); }
  }

  /** The commit loop on a journaled image. */
  method CommitJournaled(c: Codec, g: Geometry, image: array<bool>, sim: AllocSim, ino0: Inode, first: nat,
                         bufs: seq<seq<byte>>, ghost hint0: nat, ghost n: nat)
    returns (ok: bool, ops: seq<MetadataOp>, ino: Inode, delta: int)
    requires Lawful(c) && AllChunks(bufs) && SimValid(g, sim) && Mounted(g, image.Length) && Narrow(g)
    requires View(sim, []) == NewSim(g, image[..], hint0) && U64Slots(ino0) && first + |bufs| <= n
    requires FileOk(StoreOf(g, image[..], hint0), ino0) && EntriesInside(StoreOf(g, image[..], hint0), ino0)
    modifies image, sim, sim.dataBitmap
    ensures SimValid(g, sim)
    ensures var t := JournalMany(c, g, NewStaging(g, old(image[..]), hint0), ino0, first, bufs, |bufs|);
            ok == t.ok && ino == t.ino && image[..] == t.j.img && View(sim, ops) == t.j.s
    ensures StoreOk(StoreOf(g, old(image[..]), hint0))
    ensures ok && n <= MAX_LOGICAL_BLOCKS ==>
              var st0 := StoreOf(g, old(image[..]), hint0); var d := CommitMany(c, st0, ino0, first, bufs, |bufs|);
              ChunkFile.Total(d.st.blocks, d.ino, n) == ChunkFile.Total(st0.blocks, ino0, n) + delta
  {
    hide View, NewSim, Mirrored, EntriesInside, FileOk, JournalStep, CommitStep, StoreOf, ChunkFile.Total, Prepare,
         Lawful, EntryAt, FoundEntry, StoredLen, RunFits;
    ghost var st0, j0 := StoreOf(g, image[..], hint0), NewStaging(g, image[..], hint0);
    OkStore(st0, ino0);
    NewStands(g, image[..], hint0, ino0, first);
    ManyMirrors(c, g, j0, st0, ino0, first, bufs, 0);
    ops, ino, delta := [], ino0, 0;
    for i := 0 to |bufs|
      invariant SimValid(g, sim)
      invariant var t := JournalMany(c, g, j0, ino0, first, bufs, i);
                t.ok && ino == t.ino && image[..] == t.j.img && View(sim, ops) == t.j.s
      invariant var d := CommitMany(c, st0, ino0, first, bufs, i);
                n <= MAX_LOGICAL_BLOCKS ==>
                  ChunkFile.Total(d.st.blocks, d.ino, n) == ChunkFile.Total(st0.blocks, ino0, n) + delta
    {
      ghost var t, d := JournalMany(c, g, j0, ino0, first, bufs, i), CommitMany(c, st0, ino0, first, bufs, i);
      ManyMirrors(c, g, j0, st0, ino0, first, bufs, i);
      var p := Prepare(c, bufs[i]);
      PreparedFits(c, bufs[i]);
      StepMirrors(c, g, t.j, d.st, d.ino, p, first, i);
      var oldLen;
      ok, ops, ino, oldLen := CommitTurn(g, image, sim, ops, t.j.tables, ino, first + i, p);
      if !ok {
        JournalStops(c, g, j0, ino0, first, bufs, i + 1, |bufs|);
        return;
      }
      TurnTotal(c, g, t.j, d.st, d.ino, p, first, i, n);
      delta := delta + p.len - oldLen;
    }
    ok := true;
  }

  /** What one commit changes of the sum over the entries. */
  lemma TurnTotal(c: Codec, g: Geometry, j: Staging, st: Store, ino: Inode, p: Prepared, first: nat, i: nat, n: nat)
    requires Mirrored(g, j, st, ino, first, i) && ChunkCodec.Fits(p) && RunFits(st, p) && first + i < n
    requires StoreOk(st) && CommitStep(st, ino, first + i, p).ok
    ensures Narrow(g) && |j.s.bits| == BLOCK_BITS
    ensures n <= MAX_LOGICAL_BLOCKS ==>
              var d := CommitStep(st, ino, first + i, p);
              ChunkFile.Total(d.st.blocks, d.ino, n) ==
              ChunkFile.Total(st.blocks, ino, n) + p.len - StoredLen(FoundEntry(g, j, ino, first + i, p))
  {
    hide Mirrored, CommitStep, FoundEntry, ChunkFile.Total, EntryAt, StoredLen, RunFits, ChunkPlaced, FileOk;
    Start(g, j, st, ino, first, i);
    StepPlaces(c, st, ino, first + i, p);
    var d := CommitStep(st, ino, first + i, p);
    PlacedRun(c, st, ino, first + i, p, d.st, d.ino);
    FoundIs(c, g, j, st, ino, p, first, i);
    if n <= MAX_LOGICAL_BLOCKS { PlacedTotal(c, st, ino, first + i, p, d.st, d.ino, n); }
  }

  lemma PlacedRun(c: Codec, st: Store, ino: Inode, k: nat, p: Prepared, st': Store, ino': Inode)
    requires k < MAX_LOGICAL_BLOCKS && StoreOk(st) && ChunkCodec.Fits(p) && ChunkPlaced(c, st, ino, k, p, st', ino')
    ensures GrabRun(st, p.count).Some?
  {
  }

  // ---------------------------------------------------------------------------
  // The inode at the end of the transaction
  // ---------------------------------------------------------------------------

  /** Writing an inode touches neither the data area nor its bitmap. */
  lemma InodeKeepsStore(g: Geometry, img: Image, id: u64, bytes: InodeBytes, hint: nat)
    requires Mounted(g, |img|) && ValidGeometry(g, |img|) && id < g.inodeCount
    ensures Apply(g, img, WriteInode(id, bytes)).Ok?
    ensures StoreOf(g, Apply(g, img, WriteInode(id, bytes)).value, hint) == StoreOf(g, img, hint)
  {
    hide BitsOf, StoreOf;
    var op := WriteInode(id, bytes);
    FitsIsTargets(g, |img|, op);
    var r := Apply(g, img, op).value;
    assert Hi(g, InodeTable) <= Lo(g, DataBitmap) || Hi(g, DataBitmap) <= Lo(g, InodeTable);
    assert Hi(g, InodeTable) <= Lo(g, DataArea) || Hi(g, DataArea) <= Lo(g, InodeTable);
    forall q | 0 <= q < |img| && (InRegion(g, DataBitmap, q) || InRegion(g, DataArea, q)) ensures r[q] == img[q] {}
    assert DataBits(g, r) == DataBits(g, img);
    forall b | IsData(g, b) ensures BlockBits(r, b) == BlockBits(img, b) {
      DataInside(g, b);
      forall q | BLOCK_BITS * b <= q < BLOCK_BITS * b + BLOCK_BITS ensures r[q] == img[q] {}
    }
    SameStore(g, r, img, hint);
  }

  lemma DataInside(g: Geometry, b: nat)
    requires g.blockSize == BLOCK_SIZE && IsData(g, b)
    ensures Lo(g, DataArea) <= BLOCK_BITS * b && BLOCK_BITS * b + BLOCK_BITS <= Hi(g, DataArea)
  {
  }

  // ---------------------------------------------------------------------------
  // Coalescing
  // ---------------------------------------------------------------------------

  lemma {:induction false} KnownSlices(s: Sim, ops: seq<MetadataOp>)
    requires forall i :: 0 <= i < |ops| ==> Known(s, ops[i])
    ensures forall i :: 0 <= i < |AllSlices(ops)| ==> AllSlices(ops)[i].offset % 8 == 0 && |AllSlices(ops)[i].data| == 8
  {
    if ops != [] { KnownSlices(s, ops[..|ops| - 1]); }
  }

  /** The transaction with its inode meets the condition for coalescing: what the log keeps of it redoes
      the same image. */
  lemma CoalescedWrite(g: Geometry, j: Staging, st: Store, id: u64, bytes: InodeBytes, sorted: seq<Run>)
    requires Books(g, j, st) && ValidGeometry(g, |j.img|) && g.blockCount - g.dataBlockStart < 0x1_0000_0000
    requires ApplyAll(g, j.img, j.s.ops + [WriteInode(id, bytes)]).Ok?
    requires SortOf(DataRuns(j.s.ops + [WriteInode(id, bytes)]), sorted)
    ensures ApplyAll(g, j.img, CoalesceWith(j.s.ops + [WriteInode(id, bytes)], sorted)) ==
            ApplyAll(g, j.img, j.s.ops + [WriteInode(id, bytes)])
  {
    hide ApplyAll, Marked, CoalesceWith, SortOf, AllocatedLast, ValidGeometry, Known;
    var ops := j.s.ops + [WriteInode(id, bytes)];
    assert ops[..|ops| - 1] == j.s.ops;
    assert AllSlices(ops) == AllSlices(j.s.ops) && DataRuns(ops) == DataRuns(j.s.ops);
    KnownSlices(j.s, j.s.ops);
    assert Tidy(AllSlices(ops));
    MarkedLast(j.s.taken, j.s.ops);
    CoalescingKeepsMeaning(g, j.img, ops, sorted);
  }

  // ---------------------------------------------------------------------------
  // The write
  // ---------------------------------------------------------------------------

  /** A file on an image with room in the entries for every block number. */
  ghost predicate Ready(c: Codec, g: Geometry, img: Image, hint: nat, ino: Inode) {
    && Lawful(c) && Mounted(g, |img|) && ValidGeometry(g, |img|) && Narrow(g) && U64Slots(ino)
    && FileReadable(c, StoreOf(g, img, hint), ino) && EntriesInside(StoreOf(g, img, hint), ino)
  }

  /** The transaction a write builds. */
  ghost function Transaction(c: Codec, g: Geometry, img: Image, hint: nat, ino: Inode, offset: nat,
                             data: seq<byte>): Turn
    requires Ready(c, g, img, hint, ino)
  {
    var blocks := StoreOf(g, img, hint).blocks;
    NewChunksFit(c, blocks, ino, offset, data);
    var bufs := NewChunks(c, blocks, ino, offset, data);
    JournalMany(c, g, NewStaging(g, img, hint), ino, offset / CHUNK_SIZE, bufs, |bufs|)
  }

  /** It goes through exactly if the direct write does and every run ends inside the image; staging
      changes nothing but the runs it took, and the direct write leaves what the transaction stands for. */
  lemma TransactionStands(c: Codec, g: Geometry, img: Image, hint: nat, ino: Inode, offset: nat, data: seq<byte>)
    requires Ready(c, g, img, hint, ino)
    ensures var st := StoreOf(g, img, hint); StoreOk(st)
    ensures var st := StoreOf(g, img, hint); var t := Transaction(c, g, img, hint, ino, offset, data);
            var d := WriteOutcome(c, st, ino, offset, data);
            && StagedOnly(img, t.j)
            && (t.ok <==> d.ok && WriteFits(c, st, ino, offset, data))
            && (t.ok ==> t.ino == d.ino && U64Slots(t.ino) && EntriesInside(d.st, d.ino) &&
                         Mirrored(g, t.j, d.st, d.ino, offset / CHUNK_SIZE,
                                  |NewChunks(c, st.blocks, ino, offset, data)|))
  {
    hide Mirrored, EntriesInside, FileOk, StoreOf, NewChunks, RunInside, JournalMany, CommitMany, Lawful,
         ValidGeometry, AllReadable;
    var st := StoreOf(g, img, hint);
    OkStore(st, ino);
    NewChunksFit(c, st.blocks, ino, offset, data);
    var bufs, first := NewChunks(c, st.blocks, ino, offset, data), offset / CHUNK_SIZE;
    NewStands(g, img, hint, ino, first);
    ManyMirrors(c, g, NewStaging(g, img, hint), st, ino, first, bufs, |bufs|);
    ManyStages(c, g, img, NewStaging(g, img, hint), st, ino, first, bufs, |bufs|);
  }

  /** Applying the transaction, and replaying what the log keeps of it. */
  lemma TransactionApplies(c: Codec, g: Geometry, img: Image, hint: nat, ino: Inode, offset: nat, data: seq<byte>,
                           id: u64,
                           bytes: InodeBytes)
    requires Ready(c, g, img, hint, ino) && id < g.inodeCount && StoreOk(StoreOf(g, img, hint))
    requires Transaction(c, g, img, hint, ino, offset, data).ok
    ensures var st := StoreOf(g, img, hint); var t := Transaction(c, g, img, hint, ino, offset, data);
            var d := WriteOutcome(c, st, ino, offset, data); var ops := t.j.s.ops + [WriteInode(id, bytes)];
            && ApplyAll(g, t.j.img, ops).Ok? && |ApplyAll(g, t.j.img, ops).value| == |img|
            && (StoreOf(g, ApplyAll(g, t.j.img, ops).value, t.j.s.hint) == d.st <==>
                TablesClear(st.blocks, t.j.tables, t.j.s.ops))
            && (g.blockCount - g.dataBlockStart < 0x1_0000_0000 ==>
                  forall sorted :: SortOf(DataRuns(ops), sorted) ==>
                    ApplyAll(g, t.j.img, CoalesceWith(ops, sorted)) == ApplyAll(g, t.j.img, ops))
  {
    hide Mirrored, Stands, Books, EntriesInside, FileOk, StoreOf, NewChunks, JournalMany, CommitMany, Lawful,
         ValidGeometry, ApplyAll, TablesClear, Transaction, WriteOutcome, SortOf, DataRuns, CoalesceWith, AllReadable;
    TransactionStands(c, g, img, hint, ino, offset, data);
    var st, t := StoreOf(g, img, hint), Transaction(c, g, img, hint, ino, offset, data);
    var d := WriteOutcome(c, st, ino, offset, data);
    MirroredBooks(g, t.j, d.st, d.ino, offset / CHUNK_SIZE, |NewChunks(c, st.blocks, ino, offset, data)|);
    AppliesExactly(g, img, hint, t.j, d.st);
    var op := WriteInode(id, bytes);
    InodeKeepsStore(g, ApplyAll(g, t.j.img, t.j.s.ops).value, id, bytes, t.j.s.hint);
    ApplyAllSnoc(g, t.j.img, t.j.s.ops, op);
    if g.blockCount - g.dataBlockStart < 0x1_0000_0000 {
      forall sorted | SortOf(DataRuns(t.j.s.ops + [op]), sorted)
        ensures ApplyAll(g, t.j.img, CoalesceWith(t.j.s.ops + [op], sorted)) == ApplyAll(g, t.j.img, t.j.s.ops + [op])
      {
        CoalescedWrite(g, t.j, d.st, id, bytes, sorted);
      }
    }
  }

  /** The recount over a file that was not chunked before. */
  method SumSim(g: Geometry, img: Image, sim: AllocSim, ghost ops: seq<MetadataOp>, ino: Inode, n: nat,
                ghost tables: set<nat>,
                ghost st: Store, ghost first: nat, ghost m: nat) returns (total: nat)
    requires sim.Valid() && Mirrored(g, Staging(img, View(sim, ops), tables), st, ino, first, m)
    requires n <= MAX_LOGICAL_BLOCKS
    ensures total == ChunkFile.Total(st.blocks, ino, n)
  {
    hide Mirrored, View, EntryAt, EntryOf, EntryLen, EntryIsEmpty, SimEntry;
    total := 0;
    for k := 0 to n
      invariant total == ChunkFile.Total(st.blocks, ino, k)
    {
      var e := SimResolveEntry(img, sim, ops, ino, k);
      SimEntryIs(g, Staging(img, View(sim, ops), tables), st, ino, k, first, m);
      EntryOfIs(st.blocks, ino, k);
      if !EntryIsEmpty(e) {
        total := total + EntryLen(e);
      }
    }
  }

  /** What a write that went through leaves, if its transaction is applied exactly. */
  lemma WroteFile(c: Codec, st0: Store, ino0: Inode, total0: nat, offset: nat, data: seq<byte>, ino: Inode, total: nat)
    requires Lawful(c) && FileState(c, st0, ino0, total0) && data != [] && StoreOk(st0)
    requires var d := WriteOutcome(c, st0, ino0, offset, data);
             && d.ok && WriteFits(c, st0, ino0, offset, data)
             && EntriesInside(d.st, d.ino)
             && ino == d.ino.(size := Max(ino0.size, offset + |data|), seekable := true)
             && (NumChunks(ino.size) <= MAX_LOGICAL_BLOCKS ==>
                   total == ChunkFile.Total(d.st.blocks, d.ino, NumChunks(ino.size)))
    ensures var st := WriteOutcome(c, st0, ino0, offset, data).st;
            && FileState(c, st, ino, total) && Spares(st0, ino0, st, ino) && EntriesInside(st, ino)
            && Content(c, st.blocks, ino) == Spliced(Content(c, st0.blocks, ino0), offset, data)
  {
    hide FileOk, EntryAt, AllReadable, Spares, SparesOthers, ByteAt, ChunkFile.Total, EmptyPast, ZeroPast, Spliced,
         Lawful, NewChunks, Stored, CommitMany, WroteInside, Foreign, WriteOutcome, WriteFits, EntriesInside;
    Committed(c, st0, ino0, offset, data);
    var d := WriteOutcome(c, st0, ino0, offset, data);
    SameOwner(d.st, d.ino, ino);
    SameSpares(st0, ino0, d.st, d.ino, ino);
    Relabelled(c, d.st, d.ino, ino);
    Written(c, st0, ino0, offset, data, d.st, d.ino, ino);
    SameInside(d.st, d.ino, ino);
  }

  lemma SameInside(st: Store, ino: Inode, ino': Inode)
    requires ino'.blocks == ino.blocks && ino'.tripleIndirect == ino.tripleIndirect && EntriesInside(st, ino)
    ensures EntriesInside(st, ino')
  {
    hide EntryInside;
    SameFile(st.blocks, ino, ino');
  }

  /** A write on a journaled image: chunks are built, staged and recorded; the inode closes the
      transaction; once it is logged it is applied to the mapping. `tx` is the transaction as it stood
      before the inode; `logged` says that the log took it. */
  method WriteJournaled(c: Codec, g: Geometry, image: array<bool>, hint0: nat, id: u64, encode: (Inode,
                        nat) -> InodeBytes,
                        ino0: Inode, total0: nat, offset: nat, data: seq<byte>, logged: bool)
    returns (ok: bool, ino: Inode, total: nat, hint: nat, ghost tx: Staging)
    requires Ready(c, g, image[..], hint0, ino0) && id < g.inodeCount
    requires FileState(c, StoreOf(g, image[..], hint0), ino0, total0) && (ino0.seekable || ino0.size == 0)
    modifies image
    ensures StoreOk(StoreOf(g, old(image[..]), hint0))
    ensures data != [] ==>
              tx == Transaction(c, g, old(image[..]), hint0, ino0, offset, data).j && StagedOnly(old(image[..]), tx)
    ensures var st0 := StoreOf(g, old(image[..]), hint0);
            ok <==>
              || data == []
              || (logged && WriteOutcome(c, st0, ino0, offset, data).ok && WriteFits(c, st0, ino0, offset, data))
    ensures logged && RoomFor(StoreOf(g, old(image[..]), hint0), offset, |data|) && data != [] ==> ok
    ensures data == [] ==> image[..] == old(image[..]) && ino == ino0 && total == total0 && hint == hint0
    ensures !ok ==> image[..] == tx.img && ino == ino0 && total == total0 && hint == hint0
    ensures ok && data != [] ==>
              && ApplyAll(g, tx.img, tx.s.ops + [WriteInode(id, encode(ino, total))]) == Ok(image[..])
              && (StoreOf(g, image[..], hint) ==
                    WriteOutcome(c, StoreOf(g, old(image[..]), hint0), ino0, offset, data).st <==>
                  TablesClear(StoreOf(g, old(image[..]), hint0).blocks, tx.tables, tx.s.ops))
    ensures ok && data != [] && TablesClear(StoreOf(g, old(image[..]), hint0).blocks, tx.tables, tx.s.ops) ==>
              var st0, st := StoreOf(g, old(image[..]), hint0), StoreOf(g, image[..], hint);
              && FileState(c, st, ino, total) && Spares(st0, ino0, st, ino)
              && Ready(c, g, image[..], hint, ino) && ino.seekable
              && Content(c, st.blocks, ino) == Spliced(Content(c, st0.blocks, ino0), offset, data)
    ensures ok && data != [] && g.blockCount - g.dataBlockStart < 0x1_0000_0000 ==>
              var ops := tx.s.ops + [WriteInode(id, encode(ino, total))];
              forall sorted :: SortOf(DataRuns(ops), sorted) ==>
                ApplyAll(g, tx.img, CoalesceWith(ops, sorted)) == Ok(image[..])
  {
    hide FileOk, EntryAt, AllReadable, Spares, SparesOthers, ByteAt, ChunkFile.Total, EmptyPast, ZeroPast, Spliced,
         Lawful, NewChunks, Stored, CommitMany, JournalMany, WroteInside, Foreign, EntriesInside, StoreOf, TablesClear,
         ValidGeometry, ApplyAll, Mirrored, StagedOnly, Bitmap.BitsIn, DataRuns, SortOf, CoalesceWith, WriteFits,
         Content, RoomFor;
    ghost var img0 := image[..];
    ghost var st0 := StoreOf(g, img0, hint0);
    OkStore(st0, ino0);
    ino, total, hint, tx := ino0, total0, hint0, NewStaging(g, img0, hint0);
    if data == [] {
      return true, ino, total, hint, tx;
    }
    NewChunksFit(c, st0.blocks, ino0, offset, data);
    TransactionStands(c, g, img0, hint0, ino0, offset, data);
    ghost var d := WriteOutcome(c, st0, ino0, offset, data);
    Committed(c, st0, ino0, offset, data);
    var newSize := Max(ino0.size, offset + |data|);
    var n := NumChunks(newSize);
    var bufs := BuildChunks(c, StoreOf(g, image[..], hint0).blocks, ino0, offset, data);
    var bitmap := BitmapBytes(DataBits(g, image[..]));
    var sim := new AllocSim(bitmap[..], g.dataBlockStart, g.blockCount, hint0);
    assert image[..] == img0 && View(sim, []) == NewSim(g, img0, hint0);
    var staged, ops, inode, delta := CommitJournaled(c, g, image, sim, ino0, offset / CHUNK_SIZE, bufs.value, hint0, n);
    tx := Staging(image[..], View(sim, ops), Transaction(c, g, img0, hint0, ino0, offset, data).j.tables);
    assert tx == Transaction(c, g, img0, hint0, ino0, offset, data).j;
    if !staged || !logged {
      return false, ino, total, hint, tx;
    }
    if ino0.seekable {
      TotalPast(st0.blocks, ino0, ino0.size, n);
      total := AtLeastZero(total0 + delta);
    } else {
      total := SumSim(g, image[..], sim, ops, inode, n, tx.tables, d.st, offset / CHUNK_SIZE, |bufs.value|);
    }
    ino := inode.(size := newSize, seekable := true);
    hint := sim.freeBlockHint;
    var bytes := encode(ino, total);
    TransactionApplies(c, g, img0, hint0, ino0, offset, data, id, bytes);
    ok := ApplyAllInPlace(g, image, ops + [WriteInode(id, bytes)]);
    WroteFile(c, st0, ino0, total0, offset, data, ino, total);
  }
}
