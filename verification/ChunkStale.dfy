/** Pointer blocks that are not clear: what a journaled chunked write leaves in them, with an input. */
module ChunkStale {
  import opened Sizes
  import opened Bytes
  import opened LastWins
  import opened MetadataOps
  import opened ImageModel
  import opened CoalesceTheorem
  import opened BitList
  import opened PointerTree
  import opened TreePositions
  import opened BlockImage
  import opened Allocator
  import opened Mirror
  import opened ChunkStore
  import opened ChunkCodec
  import opened ChunkCommit
  import opened ChunkRuns
  import opened ChunkFile
  import opened ChunkLimits
  import opened ChunkImage
  import opened ChunkSim
  import opened ChunkMarks
  import opened ChunkMirror
  import opened ChunkLockstep
  import opened ChunkJournal
  import opened ChunkWrite
  import CT = ChunkTree

  // ---------------------------------------------------------------------------
  // Every word of the result
  // ---------------------------------------------------------------------------

  /** The recorded slices are whole words. */
  lemma WholeWords(g: Geometry, j: Staging, st: Store, b: nat, t: nat)
    requires Books(g, j, st) && t < SLOTS
    ensures forall q :: 8 * t <= q < 8 * t + 8 ==> (Overwritten(j.s.ops, b, q) <==> Overwritten(j.s.ops, b, 8 * t))
    ensures Overwritten(j.s.ops, b, 8 * t) ==> (b, t) in j.s.pointers
  {
    hide Taken, Marked, SimRead, CT.Slot;
    forall i, q | 0 <= i < |j.s.ops| && 8 * t <= q < 8 * t + 8
      ensures CoversByte(j.s.ops[i], b, q) <==> CoversByte(j.s.ops[i], b, 8 * t)
      ensures CoversByte(j.s.ops[i], b, q) ==> (b, t) in j.s.pointers
    {
      assert Known(j.s, j.s.ops[i]);
    }
  }

  /** A word of a blanked block, redone: written by the operations, or what the block held. */
  lemma WordAfter(base: Store, tables: set<nat>, ops: seq<MetadataOp>, b: nat, t: nat)
    requires SlicesFit(ops) && b < |base.blocks| && b in tables && t < SLOTS
    requires forall q :: 8 * t <= q < 8 * t + 8 ==> (Overwritten(ops, b, q) <==> Overwritten(ops, b, 8 * t))
    ensures var r, r' := Redo(base, ops), Redo(base.(blocks := Blank(base.blocks, tables)), ops);
            && r.used == r'.used && CT.Slot(r.blocks, b, t) ==
               (if Overwritten(ops, b, 8 * t) then CT.Slot(r'.blocks, b, t) else CT.Slot(base.blocks, b, t))
            && (!Overwritten(ops, b, 8 * t) ==> CT.Slot(r'.blocks, b, t) == 0)
  {
    hide Redo, Overwritten, CT.Slot, Blank;
    var blank := Blank(base.blocks, tables);
    RedoRebased(base, blank, ops);
    RedoRebased(base, base.blocks, ops);
    assert base.(blocks := base.blocks) == base;
    var r, r' := Redo(base, ops), Redo(base.(blocks := blank), ops);
    WordFrom(r.blocks, r'.blocks, base.blocks, b, t, Overwritten(ops, b, 8 * t));
  }

  lemma WordFrom(r: CT.Blocks, r': CT.Blocks, base: CT.Blocks, b: nat, t: nat, over: bool)
    requires |r| == |r'| == |base| && b < |r| && t < SLOTS
    requires over ==> forall q :: 8 * t <= q < 8 * t + 8 ==> r'[b][q] == r[b][q]
    requires !over ==> forall q :: 8 * t <= q < 8 * t + 8 ==> r'[b][q] == 0 && r[b][q] == base[b][q]
    ensures CT.Slot(r, b, t) == if over then CT.Slot(r', b, t) else CT.Slot(base, b, t)
    ensures !over ==> CT.Slot(r', b, t) == 0
  {
    hide From64;
    var w, w' := r[b][8 * t..8 * t + 8], r'[b][8 * t..8 * t + 8];
    if over {
      assert w == w';
    } else {
      assert w' == Zeros(8);
      ZeroWord();
      assert w == base[b][8 * t..8 * t + 8];
    }
  }

  /** The words of a pointer block the transaction took: those it set, and what lay in the block elsewhere. */
  lemma LaidOver(g: Geometry, img0: Image, hint0: nat, j: Staging, st: Store, b: nat, t: nat)
    requires Stands(g, j, st) && Books(g, j, st) && StagedOnly(img0, j) && b in j.tables && t < SLOTS
    ensures Mounted(g, |img0|) && Redo(Base(g, j), j.s.ops).used == st.used
    ensures CT.Slot(Redo(Base(g, j), j.s.ops).blocks, b, t) ==
            if CT.Slot(st.blocks, b, t) != 0 then CT.Slot(st.blocks, b, t)
            else CT.Slot(StoreOf(g, img0, hint0).blocks, b, t)
  {
    hide StoreOf, Redo, Overwritten, Blank, Taken, Marked, CT.Slot, Known, SimRead;
    ProperSlices(g, j.s.ops);
    WholeWords(g, j, st, b, t);
    assert IsData(g, b);
    WordAfter(Base(g, j), j.tables, j.s.ops, b, t);
    if (b, t) in j.s.pointers { KnownWord(g, j, st, b, t); }
    TablesUntouched(g, img0, j, j.s.hint);
    SameSlot(StoreOf(g, j.img, j.s.hint).blocks, StoreOf(g, img0, j.s.hint).blocks, b, t);
    SameHint(g, img0, hint0, j.s.hint);
  }

  lemma SameSlot(a: CT.Blocks, a': CT.Blocks, b: nat, t: nat)
    requires |a| == |a'| && (b < |a| ==> a[b] == a'[b])
    ensures CT.Slot(a, b, t) == CT.Slot(a', b, t)
  {
  }

  lemma ZeroWord()
    ensures From64(Zeros(8)) == 0
  {
  }

  lemma KnownWord(g: Geometry, j: Staging, st: Store, b: nat, t: nat)
    requires Books(g, j, st) && b in j.tables && t < SLOTS && (b, t) in j.s.pointers
    ensures CT.Slot(st.blocks, b, t) != 0
  {
    hide Taken, Marked, CT.Slot;
    assert SimRead(j.img, j.s, b, t) == CT.Slot(st.blocks, b, t);
  }

  /** The mapping once a transaction and its inode have been applied. */
  ghost function Applied(c: Codec, g: Geometry, img: Image, hint: nat, ino: Inode, offset: nat, data: seq<byte>,
                         id: u64,
                         bytes: InodeBytes): (r: Image)
    requires Ready(c, g, img, hint, ino) && id < g.inodeCount && StoreOk(StoreOf(g, img, hint))
    requires Transaction(c, g, img, hint, ino, offset, data).ok
    ensures Mounted(g, |r|)
  {
    var j := Transaction(c, g, img, hint, ino, offset, data).j;
    TransactionApplies(c, g, img, hint, ino, offset, data, id, bytes);
    ApplyAll(g, j.img, j.s.ops + [WriteInode(id, bytes)]).value
  }

  /** Every pointer block a write took holds the words of the direct write, and where that has none, what
      lay in the block before. */
  lemma StaleWordsStay(c: Codec, g: Geometry, img: Image, hint: nat, ino: Inode, offset: nat, data: seq<byte>, id: u64,
                       bytes: InodeBytes, b: nat, t: nat)
    requires Ready(c, g, img, hint, ino) && id < g.inodeCount && StoreOk(StoreOf(g, img, hint)) && t < SLOTS
    requires Transaction(c, g, img, hint, ino, offset, data).ok
    requires b in Transaction(c, g, img, hint, ino, offset, data).j.tables
    ensures var st := StoreOf(g, img, hint);
            var want := CT.Slot(WriteOutcome(c, st, ino, offset, data).st.blocks, b, t);
            CT.Slot(StoreOf(g, Applied(c, g, img, hint, ino, offset, data, id, bytes), hint).blocks, b, t) ==
            if want != 0 then want else CT.Slot(st.blocks, b, t)
  {
    hide Mirrored, Stands, Books, EntriesInside, FileOk, StoreOf, NewChunks, JournalMany, CommitMany, Lawful,
         ValidGeometry, ApplyAll, Transaction, WriteOutcome, AllReadable, CT.Slot, Redo;
    TransactionStands(c, g, img, hint, ino, offset, data);
    var st, t' := StoreOf(g, img, hint), Transaction(c, g, img, hint, ino, offset, data);
    var d := WriteOutcome(c, st, ino, offset, data);
    MirroredBooks(g, t'.j, d.st, d.ino, offset / CHUNK_SIZE, |NewChunks(c, st.blocks, ino, offset, data)|);
    LaidOver(g, img, hint, t'.j, d.st, b, t);
    ApplyThenInode(g, t'.j, d.st, id, bytes);
    SameHint(g, Applied(c, g, img, hint, ino, offset, data, id, bytes), hint, t'.j.s.hint);
  }

  lemma ApplyThenInode(g: Geometry, j: Staging, st: Store, id: u64, bytes: InodeBytes)
    requires Stands(g, j, st) && ValidGeometry(g, |j.img|) && id < g.inodeCount
    ensures var r := ApplyAll(g, j.img, j.s.ops + [WriteInode(id, bytes)]);
            r.Ok? && |r.value| == |j.img| && StoreOf(g, r.value, j.s.hint) == Redo(Base(g, j), j.s.ops)
  {
    hide ApplyAll, StoreOf, Redo, ValidGeometry;
    RedoLifts(g, j.img, j.s.ops, j.s.hint);
    InodeKeepsStore(g, ApplyAll(g, j.img, j.s.ops).value, id, bytes, j.s.hint);
    ApplyAllSnoc(g, j.img, j.s.ops, WriteInode(id, bytes));
  }

  // ---------------------------------------------------------------------------
  // An input
  // ---------------------------------------------------------------------------

  ghost predicate NothingUsed(g: Geometry, img: Image)
    requires Mounted(g, |img|)
  {
    forall i :: 0 <= i < BLOCK_BITS ==> !DataBits(g, img)[i]
  }

  /** The first commit of a file with no tables: one block of payload, and the next block as its table. */
  lemma FirstTable(g: Geometry, j: Staging, m: nat, p: Prepared)
    requires Narrow(g) && |j.s.bits| == BLOCK_BITS && ChunkCodec.Fits(p) && p.count == 1 && m < SLOTS
    requires j.s.hint == g.dataBlockStart && g.dataBlockStart + 2 <= g.blockCount && j.s.taken == {} && j.tables == {}
    requires forall i :: 0 <= i < BLOCK_BITS ==> !j.s.bits[i]
    ensures var t := JournalStep(g, j, NewFile(), 10 + m, p);
            t.ok && t.j.tables == {g.dataBlockStart + 1} && t.ino.blocks[10] == g.dataBlockStart + 1
  {
    hide StageRun, EntryFor, SimEntry, SimRelease, LE64, ChunkCodec.Fits;
    var start := g.dataBlockStart;
    assert BitList.FreeRun(j.s.bits, 0, 1);
    FirstFitUnique(j.s.bits, 0, 1, Some(0));
    var s1, img1 := TakeRun(g, j.s, start, 1), StageRun(j.img, start, p);
    FirstFreeUnique(s1.bits, 1, Some(1));
    assert SimTakeBlock(g, s1).1 == Got(start + 1);
    LogicalRoundTrip(10 + m);
    assert Up(Leaf(10 + m)) == Some((Root1, m));
    var s2 := SimSet(g, img1, s1, NewFile(), 10 + m, EntryFor(start, p)).0;
    ReleaseKeepsTaken(g, s2, SimEntry(img1, s1, NewFile(), 10 + m));
    assert s2.taken == {start, start + 1};
  }

  /** A new file is ready to be written, on any image. */
  lemma NewFileIsReady(g: Geometry, img: Image, hint: nat)
    requires Mounted(g, |img|) && ValidGeometry(g, |img|) && Narrow(g)
    ensures Ready(Plain(), g, img, hint, NewFile()) && FileState(Plain(), StoreOf(g, img, hint), NewFile(), 0)
    ensures StoreOk(StoreOf(g, img, hint))
    ensures forall k :: 0 <= k < MAX_LOGICAL_BLOCKS ==> EntryAt(StoreOf(g, img, hint).blocks, NewFile(), k) == 0
  {
    hide StoreOf, ValidGeometry, FileState, Lawful, EntryAt, EntriesInside, FileReadable, Plain;
    PlainIsLawful();
    var st, ino := StoreOf(g, img, hint), NewFile();
    EmptyFile(Plain(), st, ino);
    StateReads(Plain(), st, ino, 0);
    NewFileEntries(st);
  }

  lemma NewFileEntries(st: Store)
    ensures EntriesInside(st, NewFile())
    ensures forall k :: 0 <= k < MAX_LOGICAL_BLOCKS ==> EntryAt(st.blocks, NewFile(), k) == 0
  {
    hide Node, EntryIsEmpty;
    forall k: nat | k < MAX_LOGICAL_BLOCKS ensures EntryAt(st.blocks, NewFile(), k) == 0 {
      NothingThere(CT.Slots(st.blocks), NewFile(), Leaf(k));
    }
    EmptyNamesNothing();
  }

  /** One byte, in chunk `k` of a new file. */
  lemma OneByteChunk(c: Codec, blocks: CT.Blocks, k: nat, x: byte)
    requires AllReadable(c, blocks, NewFile())
    ensures var bufs := NewChunks(c, blocks, NewFile(), CHUNK_SIZE * k, [x]); |bufs| == 1 && |bufs[0]| == 1
  {
    hide NewChunks, AllReadable, NewByte;
    NewChunksAre(c, blocks, NewFile(), CHUNK_SIZE * k, [x], 0);
  }

  /** The transaction of that write: the block after the first one becomes the table. */
  lemma OneByteTransaction(g: Geometry, img: Image, m: nat, x: byte)
    requires Mounted(g, |img|) && ValidGeometry(g, |img|) && Narrow(g)
    requires NothingUsed(g, img) && g.dataBlockStart + 2 <= g.blockCount && m < SLOTS
    ensures var c, ino, hint, offset := Plain(), NewFile(), g.dataBlockStart, CHUNK_SIZE * (10 + m);
            && Ready(c, g, img, hint, ino)
            && var t := Transaction(c, g, img, hint, ino, offset, [x]);
            t.ok && t.j.tables == {g.dataBlockStart + 1} && t.ino.blocks[10] == g.dataBlockStart + 1
  {
    hide StoreOf, ValidGeometry, FileState, Lawful, NewChunks, JournalStep, Prepare, Plain, NewFile, FileOk,
         AllReadable, EntriesInside, EntryAt, ChunkCodec.Fits;
    var c, ino, hint, offset := Plain(), NewFile(), g.dataBlockStart, CHUNK_SIZE * (10 + m);
    NewFileIsReady(g, img, hint);
    var st := StoreOf(g, img, hint);
    NewChunksFit(c, st.blocks, ino, offset, [x]);
    OneByteChunk(c, st.blocks, 10 + m, x);
    var bufs := NewChunks(c, st.blocks, ino, offset, [x]);
    PlainIsRaw(bufs[0]);
    PreparedFits(c, bufs[0]);
    var p, j := Prepare(c, bufs[0]), NewStaging(g, img, hint);
    FirstTable(g, j, m, p);
    assert JournalMany(c, g, j, ino, 10 + m, bufs, 0) == Turn(true, j, ino);
  }

  /** The direct write leaves every other chunk a hole. */
  lemma OthersAreHoles(c: Codec, st: Store, ino: Inode, k: nat, x: byte, i: nat)
    requires Lawful(c) && FileReadable(c, st, ino) && StoreOk(st) && ino == NewFile() && i < MAX_LOGICAL_BLOCKS
    requires i != k
    requires WriteOutcome(c, st, ino, CHUNK_SIZE * k, [x]).ok && EntryAt(st.blocks, ino, i) == 0
    ensures var d := WriteOutcome(c, st, ino, CHUNK_SIZE * k, [x]); EntryAt(d.st.blocks, d.ino, i) == 0
  {
    hide Lawful, NewChunks, CommitStep, Prepare, NewFile, FileOk, AllReadable, EntryAt, ChunkCodec.Fits, Spares;
    var offset := CHUNK_SIZE * k;
    NewChunksFit(c, st.blocks, ino, offset, [x]);
    OneByteChunk(c, st.blocks, k, x);
    var bufs := NewChunks(c, st.blocks, ino, offset, [x]);
    PreparedFits(c, bufs[0]);
    OneCommit(c, st, ino, k, bufs);
    StepPlaces(c, st, ino, k, Prepare(c, bufs[0]));
  }

  /** One byte is written to chunk `10 + m` of a new file, on an image with nothing in use. The file gets a
      table, and each chunk `10 + t` that was not written should have no entry: it has the word that lay in
      the block. */
  lemma StaleTableShows(g: Geometry, img: Image, m: nat, t: nat, x: byte, id: u64, bytes: InodeBytes)
    requires Mounted(g, |img|) && ValidGeometry(g, |img|) && Narrow(g) && id < g.inodeCount
    requires NothingUsed(g, img) && g.dataBlockStart + 2 <= g.blockCount && m < SLOTS && t < SLOTS && m != t
    ensures var c, ino, hint, offset := Plain(), NewFile(), g.dataBlockStart, CHUNK_SIZE * (10 + m);
            && Ready(c, g, img, hint, ino) && StoreOk(StoreOf(g, img, hint))
            && FileState(c, StoreOf(g, img, hint), ino, 0)
            && Transaction(c, g, img, hint, ino, offset, [x]).ok
            && var st := StoreOf(g, img, hint); var d := WriteOutcome(c, st, ino, offset, [x]);
            && EntryAt(d.st.blocks, d.ino, 10 + t) == 0
            && EntryAt(StoreOf(g, Applied(c, g, img, hint, ino, offset, [x], id, bytes), hint).blocks, d.ino, 10 + t) ==
               CT.Slot(st.blocks, g.dataBlockStart + 1, t)
  {
    hide StoreOf, ValidGeometry, FileState, Lawful, Plain, NewFile, FileReadable, EntriesInside, EntryAt, Applied,
         CT.Slot, Transaction, WriteOutcome, WriteFits, StagedOnly, Mirrored;
    var c, ino, hint, offset := Plain(), NewFile(), g.dataBlockStart, CHUNK_SIZE * (10 + m);
    NewFileIsReady(g, img, hint);
    OneByteTransaction(g, img, m, x);
    var st := StoreOf(g, img, hint);
    TransactionStands(c, g, img, hint, ino, offset, [x]);
    OthersAreHoles(c, st, ino, 10 + m, x, 10 + t);
    var d := WriteOutcome(c, st, ino, offset, [x]);
    StaleWordsStay(c, g, img, hint, ino, offset, [x], id, bytes, g.dataBlockStart + 1, t);
    SingleEntry(d.st.blocks, d.ino, t);
    SingleEntry(StoreOf(g, Applied(c, g, img, hint, ino, offset, [x], id, bytes), hint).blocks, d.ino, t);
  }

  lemma SingleEntry(blocks: CT.Blocks, ino: Inode, t: nat)
    requires t < SLOTS && ino.blocks[10] != 0
    ensures EntryAt(blocks, ino, 10 + t) == CT.Slot(blocks, ino.blocks[10], t)
  {
    hide CT.Slot;
    LogicalRoundTrip(10 + t);
    assert Up(Leaf(10 + t)) == Some((Root1, t));
    assert Node(CT.Slots(blocks), ino, Root1) == ino.blocks[10];
  }

  /** Six blocks, the data area from block 4 on. */
  function SmallDisk(): Geometry {
    Geometry(BLOCK_SIZE, 6, 16, 1, 1, 2, 1, 3, 4)
  }

  /** Nothing in use, and the word `v` at the start of block 5. */
  function StaleImage(v: u64): Image {
    WritePtr(Repeat(false, 6 * BLOCK_BITS), 5, 0, v)
  }

  /** A byte written to chunk 11 of a new file: chunk 10, a hole, has the entry `v`. */
  lemma StaleTableExample(v: u64, x: byte, bytes: InodeBytes)
    requires v != 0
    ensures var c, g, img, ino, hint, offset := Plain(), SmallDisk(), StaleImage(v), NewFile(), 4, CHUNK_SIZE * 11;
            && Mounted(g, |img|) && Ready(c, g, img, hint, ino) && StoreOk(StoreOf(g, img, hint))
            && FileState(c, StoreOf(g, img, hint), ino, 0)
            && Transaction(c, g, img, hint, ino, offset, [x]).ok
            && var d := WriteOutcome(c, StoreOf(g, img, hint), ino, offset, [x]);
            && EntryAt(d.st.blocks, d.ino, 10) == 0
            && EntryAt(StoreOf(g, Applied(c, g, img, hint, ino, offset, [x], 0, bytes), hint).blocks, d.ino, 10) == v
  {
    hide StoreOf, Ready, FileState, Transaction, WriteOutcome, EntryAt, Applied, WritePtr, CT.Slot, ReadPtr, Repeat;
    var g, img := SmallDisk(), StaleImage(v);
    var empty := Repeat(false, 6 * BLOCK_BITS);
    WritePtrViews(g, empty, 5, 0, v);
    assert DataBits(g, img) == DataBits(g, empty);
    assert ValidGeometry(g, |img|);
    StaleTableShows(g, img, 1, 0, x, 0, bytes);
    ReadIsSlot(g, img, 4, 5, 0);
  }
}
