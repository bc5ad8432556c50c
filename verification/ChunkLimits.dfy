/** Two inputs on which a chunked write on an image without a journal (src/disk.rs,
    `commit_prepared_chunked_write`) does less than it promises. */
module ChunkLimits {
  import opened Sizes
  import opened Bytes
  import opened LastWins
  import opened PointerTree
  import opened TreePositions
  import opened ChunkTree
  import opened ChunkStore
  import opened ChunkEntries
  import opened ChunkCodec
  import opened ChunkCommit
  import opened ChunkRuns
  import opened ChunkFile
  import Allocator
  import Bits = BitList

  /** A compressor that gains nothing. */
  function Plain(): Codec {
    Codec((x: seq<byte>) => [0] + x, (y: seq<byte>) => if y == [] then None else Some(y[1..]))
  }

  lemma PlainIsLawful()
    ensures Lawful(Plain())
  {
    var c := Plain();
    forall x: seq<byte> ensures |c.compress(x)| > 0 && c.decompress(c.compress(x)) == Some(x) {
      assert ([0] + x)[1..] == x;
    }
  }

  lemma PlainIsRaw(buf: seq<byte>)
    requires 0 < |buf| <= CHUNK_SIZE
    ensures Prepare(Plain(), buf) == Prepared(buf, FLAG_RAW, |buf| % 0x1_0000, DivCeil(|buf|))
  {
  }

  /** A write of one chunk is one commit. */
  lemma OneCommit(c: Codec, st: Store, ino: Inode, first: nat, bufs: seq<seq<byte>>)
    requires Lawful(c) && StoreOk(st) && AllChunks(bufs) && |bufs| >= 1 && Fits(Prepare(c, bufs[0]))
    ensures var s := CommitStep(st, ino, first, Prepare(c, bufs[0]));
            CommitMany(c, st, ino, first, bufs, 1) == Outcome(s.ok, s.st, s.ino, if s.ok then 1 else 0)
  {
    hide CommitStep, Prepare, Lawful, Fits;
    assert CommitMany(c, st, ino, first, bufs, 0) == Outcome(true, st, ino, 0);
  }

  // ---------------------------------------------------------------------------
  // A run that leaves the image
  // ---------------------------------------------------------------------------

  /** Three blocks, the data area from block 1 on; the bitmap tracks four blocks. */
  function ShortImage(): Store {
    Store(seq(3, _ => ZeroBlock()), 1, [true, false, false, false], 2)
  }

  function NewFile(): Inode {
    Inode(File, 0, seq(12, _ => 0), 0, false)
  }

  lemma TwoBlocksPastTheEnd(p: Prepared)
    requires Fits(p) && p.count == 2
    ensures StoreOk(ShortImage()) && !RunFits(ShortImage(), p)
    ensures CommitStep(ShortImage(), NewFile(), 0, p).ok
  {
    hide Lay, EntryFor, Release, EntryOf, Fits;
    var st := ShortImage();
    assert Bits.FreeRun(st.used, 1, 2);
    Bits.FirstFitUnique(st.used, 1, 2, Some(1));
    assert GrabRun(st, 2).value.1 == 2;
  }

  /** A write of 4097 bytes to a new file reports success, and the file cannot be read. */
  lemma RunLeavesImage(data: seq<byte>)
    requires |data| == 4097
    ensures var c := Plain(); var st := ShortImage(); var ino := NewFile();
            && Lawful(c) && FileState(c, st, ino, 0)
            && WriteOutcome(c, st, ino, 0, data).ok && !WriteFits(c, st, ino, 0, data)
            && !AllReadable(c, WriteOutcome(c, st, ino, 0, data).st.blocks, WriteOutcome(c, st, ino, 0, data).ino)
  {
    hide FileOk, AllReadable, NewChunks, CommitStep, Prepare, Lawful, Plain, ShortImage, NewFile, RunFits, Fits,
         ZeroPast, EmptyPast, Spares, WroteInside, RoomFor, SparesOthers, IsNewChunk, CommitMany;
    var c, st, ino := Plain(), ShortImage(), NewFile();
    PlainIsLawful();
    NewFileIsOk();
    OkStore(st, ino);
    NewChunksFit(c, st.blocks, ino, 0, data);
    var bufs := NewChunks(c, st.blocks, ino, 0, data);
    assert |bufs| == 1;
    FirstChunk(c, st.blocks, ino, data);
    PlainIsRaw(bufs[0]);
    PreparedFits(c, bufs[0]);
    TwoBlocksPastTheEnd(Prepare(c, bufs[0]));
    OneCommit(c, st, ino, 0, bufs);
    NoCommit(c, st, ino, 0, bufs);
    assert !RunInside(c, st, ino, 0, bufs, 0);
    Committed(c, st, ino, 0, data);
  }

  lemma NoCommit(c: Codec, st: Store, ino: Inode, first: nat, bufs: seq<seq<byte>>)
    requires Lawful(c) && StoreOk(st) && AllChunks(bufs)
    ensures CommitMany(c, st, ino, first, bufs, 0) == Outcome(true, st, ino, 0)
  {
    hide Lawful;
  }

  lemma NewFileIsOk()
    ensures FileState(Plain(), ShortImage(), NewFile(), 0)
  {
    hide FileState;
    EmptyFile(Plain(), ShortImage(), NewFile());
  }

  lemma FirstChunk(c: Codec, blocks: Blocks, ino: Inode, data: seq<byte>)
    requires AllReadable(c, blocks, ino) && |data| > 0
    ensures |NewChunks(c, blocks, ino, 0, data)| >= 1
    ensures |NewChunks(c, blocks, ino, 0, data)[0]| == Min(Max(ino.size, |data|), CHUNK_SIZE)
  {
    hide NewChunks, AllReadable, NewByte;
    NewChunksAre(c, blocks, ino, 0, data, 0);
  }

  // ---------------------------------------------------------------------------
  // A run given back while the stored inode names it
  // ---------------------------------------------------------------------------

  /** Seventeen data blocks, of which the file has the first. */
  function TightImage(): Store {
    Store(seq(18, _ => ZeroBlock()), 1, [true] + seq(16, _ => false), 1)
  }

  /** One byte, in block `b`. */
  function OneByteFile(b: u32): (r: Inode)
    ensures r.size == 1
  {
    Inode(File, 1, [PackEntry(b, 1, FLAG_RAW, 1)] + seq(11, _ => 0), 0, true)
  }

  lemma {:induction false} OnlyFirst(rd: Reader, b: u32, q: Pos)
    requires InTree(q)
    ensures Node(rd, OneByteFile(b), q) == if q == Leaf(0) then PackEntry(b, 1, FLAG_RAW, 1) else 0
    decreases Rank(q)
  {
    hide PackEntry;
    if Up(q).Some? { OnlyFirst(rd, b, Up(q).value.0); }
  }

  lemma OneOwner(blocks: Blocks, b: u32)
    ensures forall o, x: nat :: Owns(blocks, OneByteFile(b), o, x) <==> o == Chunk(0) && x == b
    ensures forall k :: 0 <= k < MAX_LOGICAL_BLOCKS ==>
              EntryAt(blocks, OneByteFile(b), k) == if k == 0 then PackEntry(b, 1, FLAG_RAW, 1) else 0
  {
    hide PackEntry, OneByteFile, EntryStart, EntryCount, EntryIsEmpty, Node;
    var rd := Slots(blocks);
    forall q | InTree(q)
      ensures Node(rd, OneByteFile(b), q) == if q == Leaf(0) then PackEntry(b, 1, FLAG_RAW, 1) else 0
    {
      OnlyFirst(rd, b, q);
    }
    EntryRoundTrip(b, 1, FLAG_RAW, 1);
    EmptyNamesNothing();
  }

  /** The first chunk reads as the block, all others as zeros. */
  lemma OneByteReads(blocks: Blocks, b: u32, k: nat)
    requires k < MAX_LOGICAL_BLOCKS && b < |blocks|
    ensures var e := EntryAt(blocks, OneByteFile(b), k);
            && Readable(Plain(), blocks, e)
            && Whole(Plain(), blocks, e) == if k == 0 then Resize(blocks[b], CHUNK_SIZE) else Zeros(CHUNK_SIZE)
  {
    hide PackEntry, EntryAt, EntryStart, EntryCount, EntryIsEmpty, EntryFlags, RunBytes;
    OneOwner(blocks, b);
    if k == 0 {
      EntryRoundTrip(b, 1, FLAG_RAW, 1);
      assert RunBytes(blocks, b, 1) == blocks[b] by { OneBlock(blocks, b); }
    } else {
      EmptyNamesNothing();
    }
  }

  lemma OneBlock(blocks: Blocks, b: nat)
    requires b < |blocks|
    ensures RunBytes(blocks, b, 1) == blocks[b]
  {
    assert RunBytes(blocks, b, 0) == [];
  }

  /** The file reads as the first byte of its block, if the rest of the block is zero. */
  lemma OneByteFileIsOk(st: Store, b: u32)
    requires StoreOk(st) && b < |st.blocks| && Taken(st, b) && st.dataStart <= b < st.dataStart + |st.used|
    requires forall q :: 0 < q < BLOCK_SIZE ==> st.blocks[b][q] == 0
    ensures FileState(Plain(), st, OneByteFile(b), 1)
    ensures Content(Plain(), st.blocks, OneByteFile(b)) == [st.blocks[b][0]]
  {
    hide PackEntry, EntryAt, EntryIsEmpty, EntryLen, Owns, Readable, Whole, Taken;
    var ino := OneByteFile(b);
    OneOwner(st.blocks, b);
    forall k: nat | k < MAX_LOGICAL_BLOCKS
      ensures Readable(Plain(), st.blocks, EntryAt(st.blocks, ino, k))
      ensures Whole(Plain(), st.blocks, EntryAt(st.blocks, ino, k)) ==
              if k == 0 then Resize(st.blocks[b], CHUNK_SIZE) else Zeros(CHUNK_SIZE)
    {
      OneByteReads(st.blocks, b, k);
    }
    EntryRoundTrip(b, 1, FLAG_RAW, 1);
    EmptyNamesNothing();
    assert Total(st.blocks, ino, 0) == 0;
    assert NumChunks(1) == 1;
    assert Content(Plain(), st.blocks, ino)[0] == st.blocks[b][0];
  }

  lemma TightFileIsOk()
    ensures FileState(Plain(), TightImage(), OneByteFile(1), 1)
  {
    hide FileState, OneByteFile;
    OneByteFileIsOk(TightImage(), 1);
  }

  /** The first commit takes all free blocks and gives the old run back. */
  lemma TakesAll(p: Prepared)
    requires Fits(p) && p.count == 16
    ensures StoreOk(TightImage())
    ensures var s := CommitStep(TightImage(), OneByteFile(1), 0, p);
            s.ok && s.st.dataStart == 1 && |s.st.used| == 17 && forall i :: 0 <= i < 17 ==> (s.st.used[i] <==> i != 0)
  {
    hide Lay, EntryFor, EntryAt, EntryOf, Fits, PackEntry, EntryStart, EntryCount, EntryIsEmpty;
    var st, ino := TightImage(), OneByteFile(1);
    var bit := Bits.FirstFit(st.used, 0, 16);
    assert Bits.FreeRun(st.used, 1, 16);
    assert !Bits.FreeRun(st.used, 0, 16) by { assert st.used[0]; }
    Bits.FirstFitUnique(st.used, 0, 16, Some(1));
    var st2 := GrabRun(st, 16).value.0.(blocks := Lay(st.blocks, 2, p));
    OneOwner(st2.blocks, 1);
    EntryOfIs(st2.blocks, ino, 0);
    EntryRoundTrip(1, 1, FLAG_RAW, 1);
  }

  /** Then no two blocks in a row are left. */
  lemma NoneLeft(st: Store, count: nat)
    requires |st.used| == 17 && count >= 2 && forall i :: 0 <= i < 17 ==> (st.used[i] <==> i != 0)
    ensures GrabRun(st, count).None?
  {
    forall at: nat ensures !Bits.FreeRun(st.used, at, count) {
      assert at + 1 < 17 ==> st.used[at + 1];
    }
    Bits.FirstFitUnique(st.used, Allocator.HintBit(Some(st.hint), st.dataStart), count, None);
    Bits.FirstFitUnique(st.used, 0, count, None);
  }

  /** A write over two direct chunks fails at the second one, and the block of the first one's old run is
      free although the stored inode still names it. */
  lemma FailedWriteFreesNamedRun(data: seq<byte>)
    requires |data| == CHUNK_SIZE + 4097
    ensures var c := Plain(); var st := TightImage(); var ino := OneByteFile(1);
            && Lawful(c) && FileState(c, st, ino, 1)
            && var r := WriteOutcome(c, st, ino, 0, data);
            !r.ok && r.done == 1 && StaleAt(st, ino, r.st, 0) && Owns(r.st.blocks, ino, Chunk(0), 1) && !Taken(r.st, 1)
  {
    hide FileOk, AllReadable, NewChunks, CommitStep, Prepare, Lawful, Plain, TightImage, OneByteFile, Fits, ZeroPast,
         EntryAt, EmptyPast, IsNewChunk, CommitMany, Owns, Total, EntryIsEmpty, EntryCount, PackEntry, NewByte,
         EntryStart;
    var c, st, ino := Plain(), TightImage(), OneByteFile(1);
    PlainIsLawful();
    TightFileIsOk();
    OkStore(st, ino);
    NewChunksFit(c, st.blocks, ino, 0, data);
    var bufs := NewChunks(c, st.blocks, ino, 0, data);
    TwoChunks(c, st.blocks, ino, data);
    PlainIsRaw(bufs[0]);
    PlainIsRaw(bufs[1]);
    PreparedFits(c, bufs[0]);
    PreparedFits(c, bufs[1]);
    TakesAll(Prepare(c, bufs[0]));
    OneCommit(c, st, ino, 0, bufs);
    var s := CommitMany(c, st, ino, 0, bufs, 1);
    NoneLeft(s.st, Prepare(c, bufs[1]).count);
    SecondFails(c, st, ino, 0, bufs);
    OneOwner(st.blocks, 1);
    OneOwner(s.st.blocks, 1);
    EntryRoundTrip(1, 1, FLAG_RAW, 1);
  }

  lemma SecondFails(c: Codec, st: Store, ino: Inode, first: nat, bufs: seq<seq<byte>>)
    requires Lawful(c) && StoreOk(st) && AllChunks(bufs) && |bufs| == 2 && CommitMany(c, st, ino, first, bufs, 1).ok
    requires GrabRun(CommitMany(c, st, ino, first, bufs, 1).st, Prepare(c, bufs[1]).count).None?
    ensures var s := CommitMany(c, st, ino, first, bufs, 1);
            CommitMany(c, st, ino, first, bufs, 2) == Outcome(false, s.st, s.ino, 1)
  {
    hide Lawful, Prepare, GrabRun, SetEntry, Lay;
  }

  lemma TwoChunks(c: Codec, blocks: Blocks, ino: Inode, data: seq<byte>)
    requires AllReadable(c, blocks, ino) && CHUNK_SIZE < |data| <= 2 * CHUNK_SIZE && ino.size <= |data|
    ensures var bufs := NewChunks(c, blocks, ino, 0, data);
            |bufs| == 2 && |bufs[0]| == CHUNK_SIZE && |bufs[1]| == |data| - CHUNK_SIZE
  {
    hide NewChunks, AllReadable, NewByte;
    NewChunksAre(c, blocks, ino, 0, data, 0);
    NewChunksAre(c, blocks, ino, 0, data, 1);
  }
}
