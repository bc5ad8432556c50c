/** Chunked writes on a journaled image (src/disk.rs, `commit_prepared_chunked_write`): the transaction,
    what applying it gives, and when that is what the direct write gives. */
module ChunkJournal {
  import opened Sizes
  import opened Bytes
  import opened LastWins
  import opened MetadataOps
  import opened ImageModel
  import opened PointerTree
  import opened TreePositions
  import opened BlockImage
  import opened Allocator
  import opened Mirror
  import opened ChunkStore
  import opened ChunkCodec
  import opened ChunkCommit
  import opened ChunkRuns
  import opened ChunkImage
  import opened ChunkSim
  import opened ChunkMarks
  import opened ChunkMirror
  import opened ChunkLockstep
  import CT = ChunkTree

  // ---------------------------------------------------------------------------
  // The loop
  // ---------------------------------------------------------------------------

  function NewStaging(g: Geometry, img: Image, hint: nat): Staging
    requires Mounted(g, |img|)
  {
    Staging(img, NewSim(g, img, hint), {})
  }

  /** The first `n` commits, from chunk `first` on, up to the one that fails. */
  ghost function JournalMany(c: Codec, g: Geometry, j: Staging, ino: Inode, first: nat, bufs: seq<seq<byte>>,
                             n: nat): (r: Turn)
    requires Lawful(c) && Narrow(g) && |j.s.bits| == BLOCK_BITS && U64Slots(ino) && AllChunks(bufs) && n <= |bufs|
    ensures |r.j.img| == |j.img| && |r.j.s.bits| == BLOCK_BITS && U64Slots(r.ino)
  {
    if n == 0 then Turn(true, j, ino)
    else
      var prev := JournalMany(c, g, j, ino, first, bufs, n - 1);
      if !prev.ok then prev
      else
        PreparedFits(c, bufs[n - 1]);
        JournalStep(g, prev.j, prev.ino, first + n - 1, Prepare(c, bufs[n - 1]))
  }

  /** Before the first commit the transaction stands for the image as it is. */
  lemma NewStands(g: Geometry, img: Image, hint: nat, ino: Inode, first: nat)
    requires Mounted(g, |img|) && Narrow(g) && U64Slots(ino) && FileOk(StoreOf(g, img, hint), ino)
    ensures Mirrored(g, NewStaging(g, img, hint), StoreOf(g, img, hint), ino, first, 0)
  {
    hide StoreOf, FileOk, ReadPtr, CT.Slot, Taken, DataBits, Marked;
    NothingMarked();
    var j, st := NewStaging(g, img, hint), StoreOf(g, img, hint);
    assert Blanked(g, j) == st;
    forall b, t | IsData(g, b) && 0 <= t < SLOTS ensures SimRead(j.img, j.s, b, t) == CT.Slot(st.blocks, b, t) {
      ReadIsSlot(g, img, hint, b, t);
    }
  }

  /** All commits: the journaled loop gets to its end exactly if the direct one does and every run it takes
      ends inside the image, and then it stands for what the direct loop leaves. */
  lemma {:induction false} ManyMirrors(c: Codec, g: Geometry, j: Staging, st: Store, ino: Inode, first: nat,
                                       bufs: seq<seq<byte>>, n: nat)
    requires Lawful(c) && AllChunks(bufs) && n <= |bufs| && Mirrored(g, j, st, ino, first, 0) && EntriesInside(st, ino)
    ensures Narrow(g) && |j.s.bits| == BLOCK_BITS && U64Slots(ino) && StoreOk(st)
    ensures var t := JournalMany(c, g, j, ino, first, bufs, n); var d := CommitMany(c, st, ino, first, bufs, n);
            && (t.ok <==> d.ok && forall i :: 0 <= i < n ==> RunInside(c, st, ino, first, bufs, i))
            && (t.ok ==> t.ino == d.ino && Mirrored(g, t.j, d.st, d.ino, first, n) && EntriesInside(d.st, d.ino))
    decreases n
  {
    hide Lawful, Mirrored, JournalStep, CommitStep, EntriesInside, Prepare, RunFits, ChunkCodec.Fits;
    Start(g, j, st, ino, first, 0);
    if n > 0 {
      ManyMirrors(c, g, j, st, ino, first, bufs, n - 1);
      var prev, d := JournalMany(c, g, j, ino, first, bufs, n - 1), CommitMany(c, st, ino, first, bufs, n - 1);
      PreparedFits(c, bufs[n - 1]);
      if prev.ok {
        StepMirrors(c, g, prev.j, d.st, d.ino, Prepare(c, bufs[n - 1]), first, n - 1);
        assert RunInside(c, st, ino, first, bufs, n - 1) <==> RunFits(d.st, Prepare(c, bufs[n - 1]));
      }
    }
  }

  // ---------------------------------------------------------------------------
  // What staging changes
  // ---------------------------------------------------------------------------

  /** Staging changes the mapping only in the runs the transaction took. */
  ghost predicate StagedOnly(img0: Image, j: Staging) {
    |j.img| == |img0| && forall q :: 0 <= q < |img0| && j.img[q] != img0[q] ==> Payload(j, q / BLOCK_BITS)
  }

  lemma StepStages(g: Geometry, img0: Image, j: Staging, st: Store, ino: Inode, p: Prepared, first: nat, n: nat)
    requires Mirrored(g, j, st, ino, first, n) && ChunkCodec.Fits(p) && StagedOnly(img0, j)
    ensures Narrow(g) && |j.s.bits| == BLOCK_BITS && U64Slots(ino)
    ensures StagedOnly(img0, JournalStep(g, j, ino, first + n, p).j)
  {
    hide Mirrored, SimFit, SimSet, TakeRun, EntryFor, SimEntry, SimRelease, Lay, Up;
    Start(g, j, st, ino, first, n);
    FitIsGrab(g, j, st, ino, p, first, n);
    var fit := SimFit(j.s.bits, g.dataBlockStart, g.blockCount, j.s.hint, p.count);
    if fit.Some? {
      var start := fit.value;
      RunNotTable(g, j, st, ino, p, first, n, start);
      var s1, img1 := TakeRun(g, j.s, start, p.count), StageRun(j.img, start, p);
      var (s2, ino', ok) := SimSet(g, img1, s1, ino, first + n, EntryFor(start, p));
      SimSetGrows(g, img1, s1, ino, first + n, EntryFor(start, p));
      ReleaseKeepsTaken(g, s2, SimEntry(img1, s1, ino, first + n));
      var j' := JournalStep(g, j, ino, first + n, p).j;
      assert j'.s.taken == s2.taken && j'.img == img1 && j'.tables == j.tables + (s2.taken - s1.taken);
      TakeRunTakes(g, j.s, start, p.count);
      StagedRun(img0, j, start, p, s1, s2, j');
    }
  }

  lemma TakeRunTakes(g: Geometry, s: Sim, start: u64, count: u32)
    requires g.dataBlockStart <= start
    ensures TakeRun(g, s, start, count).taken == s.taken + BlocksFrom(start, count)
  {
  }

  lemma StagedRun(img0: Image, j: Staging, start: nat, p: Prepared, s1: Sim, s2: Sim, j': Staging)
    requires ChunkCodec.Fits(p) && StagedOnly(img0, j) && s1.taken == j.s.taken + BlocksFrom(start, p.count)
    requires s1.taken <= s2.taken && j'.s.taken == s2.taken && j'.tables == j.tables + (s2.taken - s1.taken)
    requires j'.img == StageRun(j.img, start, p) && forall b :: b in BlocksFrom(start, p.count) ==> b !in j.tables
    ensures StagedOnly(img0, j')
  {
    hide BitsOf, PieceOf, ChunkCodec.Fits;
    forall q | 0 <= q < |img0| && j'.img[q] != img0[q] ensures Payload(j', q / BLOCK_BITS) {
      if !InRun(start, p.count, q / BLOCK_BITS) { assert Payload(j, q / BLOCK_BITS); }
    }
  }

  lemma RunNotTable(g: Geometry, j: Staging, st: Store, ino: Inode, p: Prepared, first: nat, n: nat, start: nat)
    requires Mirrored(g, j, st, ino, first, n) && ChunkCodec.Fits(p)
    requires |j.s.bits| == BLOCK_BITS
    requires SimFit(j.s.bits, g.dataBlockStart, g.blockCount, j.s.hint, p.count) == Some(start)
    ensures forall b :: b in BlocksFrom(start, p.count) ==> b !in j.tables && b !in j.s.taken && !Taken(st, b)
  {
    hide Mirrored, Taken, GrabRun, SimFit, ChunkCodec.Fits;
    Start(g, j, st, ino, first, n);
    FitIsGrab(g, j, st, ino, p, first, n);
    FitsCount(p);
    GrabRunIs(st, p.count);
    assert Books(g, j, st) by { MirroredBooks(g, j, st, ino, first, n); }
    FreeUntaken(g, j, st);
  }

  lemma MirroredBooks(g: Geometry, j: Staging, st: Store, ino: Inode, first: nat, n: nat)
    requires Mirrored(g, j, st, ino, first, n)
    ensures Books(g, j, st) && Stands(g, j, st)
  {
  }

  lemma {:induction false} SimEnsureGrows(g: Geometry, img: Image, s: Sim, ino: Inode, p: Pos)
    requires g.blockCount < U64_MAX && InTree(p) && !p.Leaf? && U64Slots(ino)
    ensures s.taken <= SimEnsure(g, img, s, ino, p).0.taken
    decreases Rank(p)
  {
    hide ReadPtr, SimAlloc, LE;
    if Up(p).Some? { SimEnsureGrows(g, img, s, ino, Up(p).value.0); }
  }

  lemma SimSetGrows(g: Geometry, img: Image, s: Sim, ino: Inode, k: nat, raw: u64)
    requires g.blockCount < U64_MAX && U64Slots(ino)
    ensures s.taken <= SimSet(g, img, s, ino, k, raw).0.taken
  {
    hide SimEnsure, LE;
    if k < MAX_LOGICAL_BLOCKS && Up(Leaf(k)).Some? { SimEnsureGrows(g, img, s, ino, Up(Leaf(k)).value.0); }
  }

  lemma ReleaseKeepsTaken(g: Geometry, s: Sim, e: nat)
    ensures SimRelease(g, s, e).taken == s.taken && SimRelease(g, s, e).pointers == s.pointers
  {
    hide EntryStart, EntryCount, EntryIsEmpty;
  }

  /** Whatever the loop leaves, finished or not: only its runs were written. */
  lemma {:induction false} ManyStages(c: Codec, g: Geometry, img0: Image, j: Staging, st: Store, ino: Inode, first: nat,
                                      bufs: seq<seq<byte>>, n: nat)
    requires Lawful(c) && AllChunks(bufs) && n <= |bufs| && Mirrored(g, j, st, ino, first, 0) && EntriesInside(st, ino)
    requires StagedOnly(img0, j)
    ensures Narrow(g) && |j.s.bits| == BLOCK_BITS && U64Slots(ino)
    ensures StagedOnly(img0, JournalMany(c, g, j, ino, first, bufs, n).j)
    decreases n
  {
    hide Lawful, Mirrored, JournalStep, EntriesInside, Prepare, ChunkCodec.Fits, StagedOnly;
    Start(g, j, st, ino, first, 0);
    if n > 0 {
      ManyStages(c, g, img0, j, st, ino, first, bufs, n - 1);
      ManyMirrors(c, g, j, st, ino, first, bufs, n - 1);
      var prev, d := JournalMany(c, g, j, ino, first, bufs, n - 1), CommitMany(c, st, ino, first, bufs, n - 1);
      PreparedFits(c, bufs[n - 1]);
      if prev.ok { StepStages(g, img0, prev.j, d.st, d.ino, Prepare(c, bufs[n - 1]), first, n - 1); }
    }
  }

  // ---------------------------------------------------------------------------
  // The exact condition
  // ---------------------------------------------------------------------------

  /** What the transaction does not write of the blocks it took as pointer blocks is zero. */
  ghost predicate TablesClear(blocks: CT.Blocks, tables: set<nat>, ops: seq<MetadataOp>) {
    forall b: nat, q :: b in tables && b < |blocks| && 0 <= q < BLOCK_SIZE && !Overwritten(ops, b, q) ==>
      blocks[b][q] == 0
  }

  /** Blanking these blocks makes no difference exactly then. */
  lemma BlankIffClear(st: Store, tables: set<nat>, ops: seq<MetadataOp>)
    requires SlicesFit(ops)
    ensures Redo(st, ops) == Redo(st.(blocks := Blank(st.blocks, tables)), ops) <==> TablesClear(st.blocks, tables, ops)
  {
    hide Redo, Overwritten, Blank;
    var blocks := Blank(st.blocks, tables);
    var r, r' := Redo(st, ops), Redo(st.(blocks := blocks), ops);
    RedoRebased(st, blocks, ops);
    RedoRebased(st, st.blocks, ops);
    assert st.(blocks := st.blocks) == st;
    if r == r' {
      forall b: nat, q | b in tables && b < |blocks| && 0 <= q < BLOCK_SIZE && !Overwritten(ops, b, q)
        ensures st.blocks[b][q] == 0
      {
        assert r'.blocks[b][q] == blocks[b][q] == 0;
      }
    }
    if TablesClear(st.blocks, tables, ops) {
      forall b | 0 <= b < |blocks| ensures r.blocks[b] == r'.blocks[b] {
        forall q | 0 <= q < BLOCK_SIZE ensures r.blocks[b][q] == r'.blocks[b][q] {}
      }
      assert r.blocks == r'.blocks;
    }
  }

  /** The blocks taken as pointer blocks still hold what they held before the transaction. */
  lemma TablesUntouched(g: Geometry, img0: Image, j: Staging, hint: nat)
    requires Mounted(g, |img0|) && StagedOnly(img0, j)
    ensures forall b: nat :: b < g.blockCount && b in j.tables ==>
              StoreOf(g, j.img, hint).blocks[b] == StoreOf(g, img0, hint).blocks[b]
  {
    hide BytesIn, StoreOf;
    forall b: nat | b < g.blockCount && b in j.tables ensures BlockAt(g, j.img, b) == BlockAt(g, img0, b) {
      if IsData(g, b) {
        forall q | BLOCK_BITS * b <= q < BLOCK_BITS * b + BLOCK_BITS ensures j.img[q] == img0[q] {
          assert q / BLOCK_BITS == b;
        }
        assert BlockBits(j.img, b) == BlockBits(img0, b);
      }
    }
  }

  /** Applying the recorded operations to the staged mapping gives the store of the direct write exactly if
      the blocks taken as pointer blocks were clear where the transaction does not write them. */
  lemma AppliesExactly(g: Geometry, img0: Image, hint0: nat, j: Staging, st: Store)
    requires Stands(g, j, st) && StagedOnly(img0, j)
    ensures Mounted(g, |img0|) && ApplyAll(g, j.img, j.s.ops).Ok? && |ApplyAll(g, j.img, j.s.ops).value| == |img0|
    ensures StoreOf(g, ApplyAll(g, j.img, j.s.ops).value, j.s.hint) == st <==>
            TablesClear(StoreOf(g, img0, hint0).blocks, j.tables, j.s.ops)
  {
    hide StoreOf, Redo, Overwritten, Blank, ApplyAll;
    RedoLifts(g, j.img, j.s.ops, j.s.hint);
    ProperSlices(g, j.s.ops);
    BlankIffClear(Base(g, j), j.tables, j.s.ops);
    TablesUntouched(g, img0, j, hint0);
    SameBits(g, j, hint0);
    var a, b := StoreOf(g, img0, hint0).blocks, Base(g, j).blocks;
    assert TablesClear(a, j.tables, j.s.ops) <==> TablesClear(b, j.tables, j.s.ops);
  }
}
