/** The journaled form of a chunk commit (src/disk.rs, `commit_prepared_chunked_write`; src/journal.rs,
    `sim_set_logical_chunk_entry`): payload goes into the mapping, metadata becomes operations. */
module ChunkSim {
  import opened Sizes
  import opened Bytes
  import opened LastWins
  import opened MetadataOps
  import opened ImageModel
  import opened BitList
  import opened PointerTree
  import opened TreePositions
  import opened BlockImage
  import opened Allocator
  import opened Mirror
  import opened ChunkStore
  import opened ChunkCodec
  import opened ChunkCommit
  import CT = ChunkTree

  /** Tracked ids fit the start field of a chunk entry. */
  predicate Narrow(g: Geometry) {
    g.blockCount < U64_MAX && 0 < g.dataBlockStart && g.dataBlockStart + BLOCK_BITS <= MAX_BLOCKS
  }

  // ---------------------------------------------------------------------------
  // Runs
  // ---------------------------------------------------------------------------

  /** `alloc_contiguous` once it has found `start`, and the operation recorded for it. */
  function TakeRun(g: Geometry, s: Sim, start: u64, count: u32): Sim
    requires g.dataBlockStart <= start
  {
    s.(bits := SetBits(s.bits, start - g.dataBlockStart, count, true), hint := start + count,
       taken := s.taken + BlocksFrom(start, count), ops := s.ops + [SetDataBitmapRange(start, count, true)])
  }

  /** `free_contiguous`, and the operation recorded for it. */
  function GiveBack(g: Geometry, s: Sim, start: u64, count: u32): Sim {
    var s' := s.(ops := s.ops + [SetDataBitmapRange(start, count, false)]);
    if count == 0 then s'
    else s'.(bits := if start < g.dataBlockStart then s.bits
                     else SetBits(s.bits, start - g.dataBlockStart, count, false),
             hint := if start < s.hint then start else s.hint)
  }

  /** The payload, staged in the mapping. */
  function StageRun(img: Image, start: nat, p: Prepared): (r: Image)
    requires ChunkCodec.Fits(p)
    ensures |r| == |img|
  {
    seq(|img|, q requires 0 <= q < |img| =>
      if InRun(start, p.count, q / BLOCK_BITS)
      then BitsOf(PieceOf(p.payload, q / BLOCK_BITS - start))[q % BLOCK_BITS]
      else img[q])
  }

  // ---------------------------------------------------------------------------
  // Entries
  // ---------------------------------------------------------------------------

  /** The slots as the simulator sees them. */
  function SimSlots(img: Image, s: Sim): Reader {
    (b, t) => SimRead(img, s, b, t)
  }

  /** `sim_resolve_logical_chunk_entry`. */
  function SimEntry(img: Image, s: Sim, ino: Inode, k: nat): nat {
    Resolve(SimSlots(img, s), ino, k)
  }

  /** `sim_ensure_root` and the `sim_child` calls that lead to the pointer block at `p`. */
  function SimEnsure(g: Geometry, img: Image, s: Sim, ino: Inode, p: Pos): (r: (Sim, Inode, Option<u64>))
    requires g.blockCount < U64_MAX && InTree(p) && !p.Leaf? && U64Slots(ino)
    ensures U64Slots(r.1) && |r.0.bits| == |s.bits|
    decreases Rank(p)
  {
    match Up(p)
    case None =>
      if InodeSlot(ino, p) != 0 then (s, ino, Some(InodeSlot(ino, p)))
      else
        var (s', r) := SimTakeBlock(g, s);
        if r.Got? then (s', CT.WithSlot(ino, p, r.id), Some(r.id)) else (s', ino, None)
    case Some((t, slot)) =>
      var (s1, ino1, parent) := SimEnsure(g, img, s, ino, t);
      if parent.None? then (s1, ino1, None)
      else
        var (s2, r) := SimChild(g, img, s1, parent.value, slot);
        (s2, ino1, if r.Got? then Some(r.id) else None)
  }

  /** One slot of a pointer block, recorded. */
  function RecordSlot(s: Sim, parent: u64, slot: nat, v: u64): Sim
    requires slot < SLOTS
  {
    s.(pointers := s.pointers[(parent, slot) := v], ops := s.ops + [WriteBlockSlice(parent, 8 * slot, LE64(v))])
  }

  /** `sim_set_logical_chunk_entry` with an entry that is not empty. */
  function SimSet(g: Geometry, img: Image, s: Sim, ino: Inode, k: nat, raw: u64): (r: (Sim, Inode, bool))
    requires g.blockCount < U64_MAX && U64Slots(ino)
    ensures U64Slots(r.1) && |r.0.bits| == |s.bits|
  {
    if k >= MAX_LOGICAL_BLOCKS then (s, ino, false)
    else match Up(Leaf(k))
      case None => (s, CT.WithSlot(ino, Leaf(k), raw), true)
      case Some((t, slot)) =>
        var (s', ino', table) := SimEnsure(g, img, s, ino, t);
        if table.None? then (s', ino', false) else (RecordSlot(s', table.value, slot, raw), ino', true)
  }

  // ---------------------------------------------------------------------------
  // One commit
  // ---------------------------------------------------------------------------

  /** The mapping with the payload staged so far, the simulator, and the blocks it took as pointer blocks. */
  datatype Staging = Staging(img: Image, s: Sim, tables: set<nat>)

  /** What a step leaves, and whether it got to its end. */
  datatype Turn = Turn(ok: bool, j: Staging, ino: Inode)

  lemma EntryFields(e: nat)
    ensures EntryStart(e) < 0x1_0000_0000 && EntryCount(e) < 256
  {
  }

  function SimRelease(g: Geometry, s: Sim, old': nat): Sim {
    EntryFields(old');
    if EntryIsEmpty(old') then s else GiveBack(g, s, EntryStart(old'), EntryCount(old'))
  }

  /** A run inside the image, its payload, the entry, and the old run given back. */
  function JournalStep(g: Geometry, j: Staging, ino: Inode, k: nat, p: Prepared): (r: Turn)
    requires Narrow(g) && |j.s.bits| == BLOCK_BITS && ChunkCodec.Fits(p) && U64Slots(ino)
    ensures |r.j.img| == |j.img| && |r.j.s.bits| == BLOCK_BITS && U64Slots(r.ino)
  {
    match SimFit(j.s.bits, g.dataBlockStart, g.blockCount, j.s.hint, p.count)
    case None => Turn(false, j, ino)
    case Some(start) =>
      var s1 := TakeRun(g, j.s, start, p.count);
      var img1 := StageRun(j.img, start, p);
      var old' := SimEntry(img1, s1, ino, k);
      var (s2, ino', ok) := SimSet(g, img1, s1, ino, k, EntryFor(start, p));
      var tables := j.tables + (s2.taken - s1.taken);
      if ok then Turn(true, Staging(img1, SimRelease(g, s2, old'), tables), ino')
      else Turn(false, Staging(img1, s2, tables), ino')
  }
}
