/** A crash in the middle of a journaled chunked write (src/disk.rs, `commit_prepared_chunked_write`): the
    payload is staged in the mapping before the transaction is logged, and the log then knows nothing of it. */
module ChunkCrash {
  import opened Sizes
  import opened Bytes
  import opened LastWins
  import opened ImageModel
  import opened BitList
  import opened PointerTree
  import opened TreePositions
  import opened BlockImage
  import opened Allocator
  import opened Mirror
  import opened ChunkStore
  import opened ChunkEntries
  import opened ChunkCodec
  import opened ChunkCommit
  import opened ChunkRuns
  import opened ChunkFile
  import opened ChunkLimits
  import opened ChunkImage
  import opened ChunkSim
  import opened ChunkMirror
  import opened ChunkLockstep
  import opened ChunkJournal
  import opened ChunkWrite
  import opened CoalesceTheorem
  import CT = ChunkTree

  // ---------------------------------------------------------------------------
  // What a commit frees
  // ---------------------------------------------------------------------------

  lemma {:induction false} EnsureKeepsTaken(st: Store, ino: Inode, p: Pos, b: nat)
    requires InTree(p) && !p.Leaf? && StoreOk(st) && Taken(st, b)
    ensures Taken(EnsureTable(st, ino, p).0, b)
    decreases Rank(p)
  {
    hide Taken, GrabBlock;
    match Up(p)
    case None =>
      if GrabBlock(st).Some? { GrabBlockIs(st); }
    case Some((t, s)) =>
      EnsureKeepsTaken(st, ino, t, b);
      var (st1, ino1, parent) := EnsureTable(st, ino, t);
      if parent.Some? {
        if GrabBlock(st1).Some? { GrabBlockIs(st1); }
        var st2 := EnsureChild(st1, parent.value, s).0;
        TakenByBits(st2, if GrabBlock(st1).Some? then GrabBlock(st1).value.0 else st1, b);
        TakenByBits(st2, st1, b);
      }
  }

  lemma TakenByBits(st: Store, st': Store, b: nat)
    ensures st.used == st'.used && st.dataStart == st'.dataStart ==> (Taken(st, b) <==> Taken(st', b))
  {
  }

  /** One commit frees nothing but the run its chunk had. */
  lemma StepFrees(c: Codec, st: Store, ino: Inode, k: nat, p: Prepared, b: nat)
    requires FileOk(st, ino) && StoreOk(st) && ChunkCodec.Fits(p) && CommitStep(st, ino, k, p).ok
    requires Taken(st, b) && !Taken(CommitStep(st, ino, k, p).st, b)
    ensures k < MAX_LOGICAL_BLOCKS && EntryHas(EntryAt(st.blocks, ino, k), b)
  {
    hide Taken, GrabRun, EnsureTable, EntryFor, EntryOf, EntryAt, FileOk, Keeps, EntryIsEmpty, EntryStart, EntryCount;
    OkStore(st, ino);
    FitsCount(p);
    var (st1, start) := GrabRun(st, p.count).value;
    GrabRunIs(st, p.count);
    var st2 := st1.(blocks := Lay(st1.blocks, start, p));
    TakenByBits(st1, st2, b);
    var (st3, ino', _) := SetEntry(st2, ino, k, EntryFor(start, p));
    if Up(Leaf(k)).Some? {
      EnsureKeepsTaken(st2, ino, Up(Leaf(k)).value.0, b);
      TakenByBits(st3, EnsureTable(st2, ino, Up(Leaf(k)).value.0).0, b);
    }
    assert Taken(st3, b);
    RunReserved(st, ino, st1, start, p.count, st2.blocks);
    OldEntry(st, ino, st2, k);
    var e := EntryAt(st.blocks, ino, k);
    FreeRunIs(st3, EntryStart(e), EntryCount(e));
  }

  /** Some chunk among the first `n` of the write had block `b`. */
  ghost predicate HadBefore(blocks: CT.Blocks, ino: Inode, first: nat, n: nat, b: nat) {
    exists k :: first <= k < first + n && k < MAX_LOGICAL_BLOCKS && EntryHas(EntryAt(blocks, ino, k), b)
  }

  /** A block that was in use and is free after `n` commits lay in the run of a chunk among them. */
  lemma {:induction false} ManyFrees(c: Codec, st: Store, ino: Inode, first: nat, bufs: seq<seq<byte>>, n: nat, b: nat)
    requires Lawful(c) && FileOk(st, ino) && StoreOk(st) && AllChunks(bufs) && n <= |bufs|
    requires CommitMany(c, st, ino, first, bufs, n).ok
    requires Taken(st, b) && !Taken(CommitMany(c, st, ino, first, bufs, n).st, b)
    ensures HadBefore(st.blocks, ino, first, n, b)
    decreases n
  {
    hide Lawful, FileOk, Taken, CommitStep, Prepare, EntryAt, EntryHas, ChunkCodec.Fits, SparesOthers, SameChunk,
         RunEntry, RunInside;
    if n > 0 {
      var prev, k := CommitMany(c, st, ino, first, bufs, n - 1), first + n - 1;
      PreparedFits(c, bufs[n - 1]);
      if !Taken(prev.st, b) {
        ManyFrees(c, st, ino, first, bufs, n - 1, b);
      } else {
        ManyStores(c, st, ino, first, bufs, n - 1);
        OkStore(prev.st, prev.ino);
        StepFrees(c, prev.st, prev.ino, k, Prepare(c, bufs[n - 1]), b);
        assert ChunkAfter(c, st, ino, first, bufs, n - 1, prev.st, prev.ino, k);
      }
    }
  }

  // ---------------------------------------------------------------------------
  // The runs of a transaction
  // ---------------------------------------------------------------------------

  /** Commit `i` of the transaction takes block `b` for its payload. */
  ghost predicate TakenBy(c: Codec, g: Geometry, j: Staging, ino: Inode, first: nat, bufs: seq<seq<byte>>, i: nat,
                          b: nat)
    requires Lawful(c) && Narrow(g) && |j.s.bits| == BLOCK_BITS && U64Slots(ino) && AllChunks(bufs) && i < |bufs|
  {
    var t, p := JournalMany(c, g, j, ino, first, bufs, i), Prepare(c, bufs[i]);
    PreparedFits(c, bufs[i]);
    var run := SimFit(t.j.s.bits, g.dataBlockStart, g.blockCount, t.j.s.hint, p.count);
    t.ok && run.Some? && InRun(run.value, p.count, b)
  }

  /** A step adds its run to what is staged, whether it gets to its end or not. */
  lemma StepPayload(g: Geometry, j: Staging, st: Store, ino: Inode, p: Prepared, first: nat, n: nat, b: nat)
    requires Mirrored(g, j, st, ino, first, n) && ChunkCodec.Fits(p)
    ensures Narrow(g) && |j.s.bits| == BLOCK_BITS && U64Slots(ino)
    ensures var run := SimFit(j.s.bits, g.dataBlockStart, g.blockCount, j.s.hint, p.count);
            Payload(JournalStep(g, j, ino, first + n, p).j, b) <==>
            Payload(j, b) || (run.Some? && InRun(run.value, p.count, b))
  {
    hide Mirrored, SimFit, SimSet, TakeRun, EntryFor, SimEntry, SimRelease, Up, StageRun;
    Start(g, j, st, ino, first, n);
    FitIsGrab(g, j, st, ino, p, first, n);
    var fit := SimFit(j.s.bits, g.dataBlockStart, g.blockCount, j.s.hint, p.count);
    if fit.Some? {
      var start := fit.value;
      RunNotTable(g, j, st, ino, p, first, n, start);
      var s1, img1 := TakeRun(g, j.s, start, p.count), StageRun(j.img, start, p);
      var (s2, ino', ok) := SimSet(g, img1, s1, ino, first + n, EntryFor(start, p));
      SimSetGrows(g, img1, s1, ino, first + n, EntryFor(start, p));
      ReleaseKeepsTaken(g, s2, SimEntry(img1, s1, ino, first + n));
      TakeRunTakes(g, j.s, start, p.count);
    }
  }

  /** What is staged is the runs that were taken. */
  lemma {:induction false} PayloadIs(c: Codec, g: Geometry, j: Staging, st: Store, ino: Inode, first: nat,
                                     bufs: seq<seq<byte>>, n: nat, b: nat)
    requires Lawful(c) && AllChunks(bufs) && n <= |bufs| && Mirrored(g, j, st, ino, first, 0) && EntriesInside(st, ino)
    ensures Narrow(g) && |j.s.bits| == BLOCK_BITS && U64Slots(ino)
    ensures Payload(JournalMany(c, g, j, ino, first, bufs, n).j, b) <==>
            Payload(j, b) || exists i :: 0 <= i < n && TakenBy(c, g, j, ino, first, bufs, i, b)
    decreases n
  {
    hide Lawful, Mirrored, JournalStep, CommitStep, EntriesInside, Prepare, RunFits, ChunkCodec.Fits, SimFit, Payload;
    ManyMirrors(c, g, j, st, ino, first, bufs, n);
    if n > 0 {
      PayloadIs(c, g, j, st, ino, first, bufs, n - 1, b);
      ManyMirrors(c, g, j, st, ino, first, bufs, n - 1);
      var prev, d := JournalMany(c, g, j, ino, first, bufs, n - 1), CommitMany(c, st, ino, first, bufs, n - 1);
      PreparedFits(c, bufs[n - 1]);
      if prev.ok {
        StepPayload(g, prev.j, d.st, d.ino, Prepare(c, bufs[n - 1]), first, n - 1, b);
      }
      assert TakenBy(c, g, j, ino, first, bufs, n - 1, b) <==>
        (prev.ok && var p := Prepare(c, bufs[n - 1]);
         var run := SimFit(prev.j.s.bits, g.dataBlockStart, g.blockCount, prev.j.s.hint, p.count);
         run.Some? && InRun(run.value, p.count, b));
    }
  }

  // ---------------------------------------------------------------------------
  // When the stored file is out of reach
  // ---------------------------------------------------------------------------

  /** A run is taken that meets the run some chunk gave up earlier in the transaction. */
  ghost predicate TakesBack(c: Codec, g: Geometry, img: Image, hint: nat, ino: Inode, offset: nat, data: seq<byte>)
    requires Ready(c, g, img, hint, ino)
  {
    var blocks, first := StoreOf(g, img, hint).blocks, offset / CHUNK_SIZE;
    NewChunksFit(c, blocks, ino, offset, data);
    var bufs := NewChunks(c, blocks, ino, offset, data);
    exists i, b: nat :: 0 <= i < |bufs| && TakenBy(c, g, NewStaging(g, img, hint), ino, first, bufs, i, b) &&
      HadBefore(blocks, ino, first, i, b)
  }

  /** Payload is staged over a block of the stored file exactly then. */
  lemma StagedOverStored(c: Codec, g: Geometry, img: Image, hint: nat, ino: Inode, offset: nat, data: seq<byte>)
    requires Ready(c, g, img, hint, ino)
    ensures (exists o, b: nat :: Owns(StoreOf(g, img, hint).blocks, ino, o, b) &&
               Payload(Transaction(c, g, img, hint, ino, offset, data).j, b)) <==>
            TakesBack(c, g, img, hint, ino, offset, data)
  {
    hide Mirrored, EntriesInside, FileOk, StoreOf, NewChunks, JournalMany, CommitMany, Lawful, ValidGeometry,
         AllReadable, TakenBy, HadBefore, Owns;
    var st, first, j0 := StoreOf(g, img, hint), offset / CHUNK_SIZE, NewStaging(g, img, hint);
    NewChunksFit(c, st.blocks, ino, offset, data);
    var bufs := NewChunks(c, st.blocks, ino, offset, data);
    NewStands(g, img, hint, ino, first);
    forall b: nat
      ensures Payload(JournalMany(c, g, j0, ino, first, bufs, |bufs|).j, b) <==>
              exists i :: 0 <= i < |bufs| && TakenBy(c, g, j0, ino, first, bufs, i, b)
    {
      PayloadIs(c, g, j0, st, ino, first, bufs, |bufs|, b);
      assert !Payload(j0, b) by { NothingStaged(g, img, hint, b); }
    }
    forall i, b: nat, o | 0 <= i < |bufs| && TakenBy(c, g, j0, ino, first, bufs, i, b) && Owns(st.blocks, ino, o, b)
      ensures HadBefore(st.blocks, ino, first, i, b)
    {
      TakenWasFreed(c, g, j0, st, ino, first, bufs, i, b, o);
    }
    forall i, b: nat | 0 <= i < |bufs| && HadBefore(st.blocks, ino, first, i, b)
      ensures exists o :: Owns(st.blocks, ino, o, b)
    {
      HadOwns(st.blocks, ino, first, i, b);
    }
  }

  lemma NothingStaged(g: Geometry, img: Image, hint: nat, b: nat)
    requires Mounted(g, |img|)
    ensures !Payload(NewStaging(g, img, hint), b)
  {
  }

  lemma HadOwns(blocks: CT.Blocks, ino: Inode, first: nat, n: nat, b: nat)
    requires HadBefore(blocks, ino, first, n, b)
    ensures exists o :: Owns(blocks, ino, o, b)
  {
    hide EntryAt, EntryHas;
    var k :| first <= k < first + n && k < MAX_LOGICAL_BLOCKS && EntryHas(EntryAt(blocks, ino, k), b);
    assert Owns(blocks, ino, Chunk(k), b);
  }

  /** A block of the stored file that a commit takes was freed by an earlier one. */
  lemma TakenWasFreed(c: Codec, g: Geometry, j: Staging, st: Store, ino: Inode, first: nat, bufs: seq<seq<byte>>,
                      i: nat,
                      b: nat, o: Owner)
    requires Lawful(c) && AllChunks(bufs) && i < |bufs| && Mirrored(g, j, st, ino, first, 0) && EntriesInside(st, ino)
    requires Narrow(g) && |j.s.bits| == BLOCK_BITS && U64Slots(ino)
    requires TakenBy(c, g, j, ino, first, bufs, i, b) && Owns(st.blocks, ino, o, b)
    ensures HadBefore(st.blocks, ino, first, i, b)
  {
    hide Mirrored, EntriesInside, JournalMany, CommitMany, Lawful, HadBefore, Prepare, SimFit, ChunkCodec.Fits, Taken;
    ManyMirrors(c, g, j, st, ino, first, bufs, i);
    PreparedFits(c, bufs[i]);
    var t, d := JournalMany(c, g, j, ino, first, bufs, i), CommitMany(c, st, ino, first, bufs, i);
    var p := Prepare(c, bufs[i]);
    var start := SimFit(t.j.s.bits, g.dataBlockStart, g.blockCount, t.j.s.hint, p.count).value;
    RunNotTable(g, t.j, d.st, d.ino, p, first, i, start);
    assert b in BlocksFrom(start, p.count);
    Start(g, j, st, ino, first, 0);
    assert FileOk(st, ino) by { MirroredFile(g, j, st, ino, first, 0); }
    assert Taken(st, b);
    ManyFrees(c, st, ino, first, bufs, i, b);
  }

  lemma MirroredFile(g: Geometry, j: Staging, st: Store, ino: Inode, first: nat, n: nat)
    requires Mirrored(g, j, st, ino, first, n)
    ensures FileOk(st, ino)
  {
  }

  // ---------------------------------------------------------------------------
  // Crash before the log has the transaction
  // ---------------------------------------------------------------------------

  /** The image after a crash before the transaction is logged: anything may be in the blocks it staged. */
  ghost predicate CrashImage(img: Image, j: Staging, x: Image) {
    StagedOnly(img, j.(img := x))
  }

  /** At whatever commit the crash comes, and whatever part of the staged bytes has reached the disk. */
  lemma EveryCrashPoint(c: Codec, g: Geometry, img: Image, hint: nat, ino: Inode, offset: nat, data: seq<byte>,
                        bufs: seq<seq<byte>>, n: nat, x: Image)
    requires Ready(c, g, img, hint, ino) && bufs == NewChunks(c, StoreOf(g, img, hint).blocks, ino, offset, data)
    requires AllChunks(bufs) && n <= |bufs| && |x| == |img|
    requires forall q :: 0 <= q < |img| ==>
      x[q] == img[q] || x[q] == JournalMany(c, g, NewStaging(g, img, hint), ino, offset / CHUNK_SIZE, bufs, n).j.img[q]
    ensures CrashImage(img, Transaction(c, g, img, hint, ino, offset, data).j, x)
  {
    hide Mirrored, EntriesInside, FileOk, StoreOf, NewChunks, JournalMany, Lawful, ValidGeometry, AllReadable,
         TakenBy, Payload;
    var st, first, j0 := StoreOf(g, img, hint), offset / CHUNK_SIZE, NewStaging(g, img, hint);
    NewStands(g, img, hint, ino, first);
    ManyStages(c, g, img, j0, st, ino, first, bufs, n);
    var t, all := JournalMany(c, g, j0, ino, first, bufs, n).j, JournalMany(c, g, j0, ino, first, bufs, |bufs|).j;
    forall q | 0 <= q < |img| && x[q] != img[q] ensures Payload(all.(img := x), q / BLOCK_BITS) {
      PayloadIs(c, g, j0, st, ino, first, bufs, n, q / BLOCK_BITS);
      PayloadIs(c, g, j0, st, ino, first, bufs, |bufs|, q / BLOCK_BITS);
      SamePayload(all, x, q / BLOCK_BITS);
    }
  }

  lemma SamePayload(j: Staging, x: Image, b: nat)
    ensures Payload(j.(img := x), b) <==> Payload(j, b)
  {
  }

  /** Only data blocks are staged. */
  lemma PayloadIsData(c: Codec, g: Geometry, img: Image, hint: nat, ino: Inode, offset: nat, data: seq<byte>, b: nat)
    requires Ready(c, g, img, hint, ino) && Payload(Transaction(c, g, img, hint, ino, offset, data).j, b)
    ensures IsData(g, b)
  {
    hide Mirrored, EntriesInside, FileOk, StoreOf, NewChunks, JournalMany, Lawful, ValidGeometry, AllReadable, SimFit,
         Payload, Prepare;
    var st, first, j0 := StoreOf(g, img, hint), offset / CHUNK_SIZE, NewStaging(g, img, hint);
    NewChunksFit(c, st.blocks, ino, offset, data);
    var bufs := NewChunks(c, st.blocks, ino, offset, data);
    NewStands(g, img, hint, ino, first);
    PayloadIs(c, g, j0, st, ino, first, bufs, |bufs|, b);
    NothingStaged(g, img, hint, b);
    var i :| 0 <= i < |bufs| && TakenBy(c, g, j0, ino, first, bufs, i, b);
    PreparedFits(c, bufs[i]);
  }

  ghost predicate Untouched(g: Geometry, img: Image, x: Image, hint: nat, ino: Inode)
    requires Mounted(g, |img|) && |x| == |img|
  {
    forall o, b: nat :: Owns(StoreOf(g, img, hint).blocks, ino, o, b) && b < g.blockCount ==>
      StoreOf(g, x, hint).blocks[b] == StoreOf(g, img, hint).blocks[b]
  }

  /** Outside the staged blocks a crash image is the old one. */
  lemma CrashKeeps(c: Codec, g: Geometry, img: Image, hint: nat, ino: Inode, offset: nat, data: seq<byte>, x: Image)
    requires Ready(c, g, img, hint, ino) && CrashImage(img, Transaction(c, g, img, hint, ino, offset, data).j, x)
    ensures |x| == |img| && StoreOf(g, x, hint).used == StoreOf(g, img, hint).used
    ensures forall b: nat :: b < g.blockCount && !Payload(Transaction(c, g, img, hint, ino, offset, data).j, b) ==>
              StoreOf(g, x, hint).blocks[b] == StoreOf(g, img, hint).blocks[b]
  {
    hide EntriesInside, FileReadable, StoreOf, Lawful, ValidGeometry, Transaction, BytesIn, Payload;
    var j := Transaction(c, g, img, hint, ino, offset, data).j;
    forall q | BLOCK_BITS * g.dataBitmapBlock <= q < BLOCK_BITS * g.dataBitmapBlock + BLOCK_BITS
      ensures x[q] == img[q]
    {
      var b := q / BLOCK_BITS;
      SamePayload(j, x, b);
      assert b == g.dataBitmapBlock;
      if Payload(j, b) { PayloadIsData(c, g, img, hint, ino, offset, data, b); }
    }
    assert DataBits(g, x) == DataBits(g, img);
    forall b: nat | b < g.blockCount && !Payload(j, b) ensures BlockAt(g, x, b) == BlockAt(g, img, b) {
      if IsData(g, b) {
        forall q | BLOCK_BITS * b <= q < BLOCK_BITS * b + BLOCK_BITS ensures x[q] == img[q] {
          assert q / BLOCK_BITS == b;
          SamePayload(j, x, b);
        }
        assert BlockBits(x, b) == BlockBits(img, b);
      }
    }
  }

  /** A crash image with the first bit of block `b` turned. */
  lemma TurnedBit(g: Geometry, img: Image, hint: nat, j: Staging, b: nat) returns (x: Image)
    requires Mounted(g, |img|) && IsData(g, b) && Payload(j, b)
    ensures CrashImage(img, j, x) && StoreOf(g, x, hint).blocks[b] != StoreOf(g, img, hint).blocks[b]
  {
    hide BytesIn, StoreOf;
    var q := BLOCK_BITS * b;
    assert BLOCK_BITS * b + BLOCK_BITS <= |img|;
    x := img[q := !img[q]];
    var old', new' := BlockBits(img, b), BlockBits(x, b);
    assert old'[0] == img[q] && new'[0] == x[q];
    BitsBack(old');
    BitsBack(new');
    assert |x| == |img|;
  }

  /** No crash image differs in a block of the stored file exactly if no run is taken back. */
  lemma CrashReaches(c: Codec, g: Geometry, img: Image, hint: nat, ino: Inode, offset: nat, data: seq<byte>)
    requires Ready(c, g, img, hint, ino)
    ensures (forall x :: CrashImage(img, Transaction(c, g, img, hint, ino, offset, data).j, x) ==>
               Untouched(g, img, x, hint, ino)) <==>
            !TakesBack(c, g, img, hint, ino, offset, data)
  {
    hide EntriesInside, FileReadable, StoreOf, Lawful, ValidGeometry, Transaction, TakesBack, Owns, Payload, CrashImage;
    var j, st := Transaction(c, g, img, hint, ino, offset, data).j, StoreOf(g, img, hint);
    StagedOverStored(c, g, img, hint, ino, offset, data);
    if TakesBack(c, g, img, hint, ino, offset, data) {
      var o, b: nat :| Owns(st.blocks, ino, o, b) && Payload(j, b);
      PayloadIsData(c, g, img, hint, ino, offset, data, b);
      var x := TurnedBit(g, img, hint, j, b);
      assert |x| == |img| by { CrashKeeps(c, g, img, hint, ino, offset, data, x); }
      assert !Untouched(g, img, x, hint, ino);
    } else {
      forall x | CrashImage(img, j, x) ensures |x| == |img| && Untouched(g, img, x, hint, ino) {
        CrashKeeps(c, g, img, hint, ino, offset, data, x);
      }
    }
  }

  /** If no run is taken back, the file reads after a crash as it did before the write. */
  lemma SurvivesCrash(c: Codec, g: Geometry, img: Image, hint: nat, ino: Inode, total: nat, offset: nat,
                      data: seq<byte>,
                      x: Image)
    requires Ready(c, g, img, hint, ino) && FileState(c, StoreOf(g, img, hint), ino, total)
    requires !TakesBack(c, g, img, hint, ino, offset, data)
    requires CrashImage(img, Transaction(c, g, img, hint, ino, offset, data).j, x)
    ensures |x| == |img| && FileState(c, StoreOf(g, x, hint), ino, total)
    ensures Content(c, StoreOf(g, x, hint).blocks, ino) == Content(c, StoreOf(g, img, hint).blocks, ino)
  {
    hide EntriesInside, FileState, StoreOf, Lawful, ValidGeometry, Transaction, TakesBack, Owns, Payload, CrashImage,
         AllReadable;
    StagedOverStored(c, g, img, hint, ino, offset, data);
    CrashKeeps(c, g, img, hint, ino, offset, data, x);
    var j, st, st' := Transaction(c, g, img, hint, ino, offset, data).j, StoreOf(g, img, hint), StoreOf(g, x, hint);
    SameBlocksSameFile(c, st, st', ino, total);
  }

  /** Stores that differ only in blocks the file does not own hold the same file. */
  lemma SameBlocksSameFile(c: Codec, st: Store, st': Store, ino: Inode, total: nat)
    requires FileState(c, st, ino, total) && SameShape(st, st') && st'.used == st.used
    requires forall b: nat, o :: b < |st.blocks| && Owns(st.blocks, ino, o, b) ==> st'.blocks[b] == st.blocks[b]
    ensures FileState(c, st', ino, total) && Content(c, st'.blocks, ino) == Content(c, st.blocks, ino)
  {
    hide Owns, Taken, EntryAt, Readable, Whole, ChunkFile.Total, TableAt, FileOk;
    assert FileOk(st', ino) by { StaysInOrder(st, st', ino); }
    forall k: nat | k < MAX_LOGICAL_BLOCKS
      ensures EntryAt(st'.blocks, ino, k) == EntryAt(st.blocks, ino, k)
      ensures SameChunk(c, st.blocks, st'.blocks, EntryAt(st.blocks, ino, k))
    {
      StaysInOrder(st, st', ino);
      EntryIsNode(st.blocks, ino, k);
      EntryIsNode(st'.blocks, ino, k);
      StillReads(c, st.blocks, ino, st'.blocks, k);
    }
    assert AllReadable(c, st'.blocks, ino);
    forall p: nat ensures ByteAt(c, st'.blocks, ino, p) == ByteAt(c, st.blocks, ino, p) {}
    if ino.seekable { SameSum(st.blocks, st'.blocks, ino, NumChunks(ino.size)); }
  }

  lemma StaysInOrder(st: Store, st': Store, ino: Inode)
    requires FileOk(st, ino) && SameShape(st, st') && st'.used == st.used
    requires forall b: nat, o :: b < |st.blocks| && Owns(st.blocks, ino, o, b) ==> st'.blocks[b] == st.blocks[b]
    ensures FileOk(st', ino) && forall q :: InTree(q) ==> TableAt(st'.blocks, ino, q) == TableAt(st.blocks, ino, q)
  {
    hide Owns, TableAt, Taken;
    forall b: nat ensures Taken(st', b) <==> Taken(st, b) { TakenByBits(st, st', b); }
    Undisturbed(st, st', ino);
  }

  lemma {:induction false} SameSum(blocks: CT.Blocks, blocks': CT.Blocks, ino: Inode, n: nat)
    requires n <= MAX_LOGICAL_BLOCKS
    requires forall k :: 0 <= k < n ==> EntryAt(blocks', ino, k) == EntryAt(blocks, ino, k)
    ensures ChunkFile.Total(blocks', ino, n) == ChunkFile.Total(blocks, ino, n)
  {
    hide EntryAt;
    if n > 0 { SameSum(blocks, blocks', ino, n - 1); }
  }

  // ---------------------------------------------------------------------------
  // An input
  // ---------------------------------------------------------------------------

  /** One block is in use, the first of the data area; it is zero, and the hint is past it. */
  ghost predicate OneBlockUsed(g: Geometry, img: Image)
    requires Mounted(g, |img|)
  {
    && (forall i :: 0 <= i < BLOCK_BITS ==> (DataBits(g, img)[i] <==> i == 0))
    && g.dataBlockStart + 17 <= g.blockCount && StoreOf(g, img, 0).blocks[g.dataBlockStart] == CT.ZeroBlock()
  }

  /** The first commit takes sixteen blocks and gives the first block back. */
  lemma FirstGivesBack(g: Geometry, j: Staging, p: Prepared)
    requires Narrow(g) && |j.s.bits| == BLOCK_BITS && ChunkCodec.Fits(p) && p.count == 16
    requires U64Slots(OneByteFile(g.dataBlockStart))
    requires j.s.hint == g.dataBlockStart + 1 && g.dataBlockStart + 17 <= g.blockCount
    requires forall i :: 0 <= i < BLOCK_BITS ==> (j.s.bits[i] <==> i == 0)
    ensures var t := JournalStep(g, j, OneByteFile(g.dataBlockStart), 0, p);
            && t.ok && !t.j.s.bits[0] && t.j.s.hint == g.dataBlockStart
            && t.j.img == StageRun(j.img, g.dataBlockStart + 1, p)
  {
    hide StageRun, EntryFor, PackEntry, EntryStart, EntryCount, EntryIsEmpty, ChunkCodec.Fits;
    var start, ino := g.dataBlockStart + 1, OneByteFile(g.dataBlockStart);
    assert BitList.FreeRun(j.s.bits, 1, 16);
    FirstFitUnique(j.s.bits, 1, 16, Some(1));
    EntryRoundTrip(g.dataBlockStart, 1, FLAG_RAW, 1);
    LogicalRoundTrip(0);
    var s1, img1 := TakeRun(g, j.s, start, 16), StageRun(j.img, start, p);
    assert SimEntry(img1, s1, ino, 0) == PackEntry(g.dataBlockStart, 1, FLAG_RAW, 1);
    assert SimSet(g, img1, s1, ino, 0, EntryFor(start, p)).0 == s1;
  }

  /** The second commit takes that block. */
  lemma SecondTakesIt(g: Geometry, j: Staging, ino: Inode, p: Prepared)
    requires Narrow(g) && |j.s.bits| == BLOCK_BITS && ChunkCodec.Fits(p) && p.count == 1 && U64Slots(ino)
    requires j.s.hint == g.dataBlockStart < g.blockCount && !j.s.bits[0]
    ensures SimFit(j.s.bits, g.dataBlockStart, g.blockCount, j.s.hint, p.count) == Some(g.dataBlockStart)
    ensures JournalStep(g, j, ino, 1, p).ok
    ensures JournalStep(g, j, ino, 1, p).j.img == StageRun(j.img, g.dataBlockStart, p)
  {
    hide StageRun, EntryFor, SimEntry, SimRelease, ChunkCodec.Fits;
    assert BitList.FreeRun(j.s.bits, 0, 1);
    FirstFitUnique(j.s.bits, 0, 1, Some(0));
    LogicalRoundTrip(1);
  }

  /** What the two commits leave in the first block: the byte of the second chunk. */
  lemma StagedTwice(g: Geometry, img: Image, hint: nat, p: Prepared, p': Prepared, y: byte)
    requires Mounted(g, |img|) && ChunkCodec.Fits(p) && ChunkCodec.Fits(p') && p.count == 16 && p'.count == 1
    requires p'.payload == [y]
    requires g.dataBlockStart + 17 <= g.blockCount
    ensures var x := StageRun(StageRun(img, g.dataBlockStart + 1, p), g.dataBlockStart, p');
            && |x| == |img| && StoreOf(g, x, hint).used == StoreOf(g, img, hint).used
            && StoreOf(g, x, hint).blocks[g.dataBlockStart] == Resize([y], BLOCK_SIZE)
  {
    hide StageRun, StoreOf, ChunkCodec.Fits;
    var a := StageRun(img, g.dataBlockStart + 1, p);
    StageIsLay(g, img, hint, g.dataBlockStart + 1, p);
    StageIsLay(g, a, hint, g.dataBlockStart, p');
    assert PieceOf([y], 0) == Resize([y], BLOCK_SIZE);
  }

  /** The file of one byte is ready to be written. */
  lemma OneByteIsReady(g: Geometry, img: Image, hint: nat)
    requires Mounted(g, |img|) && ValidGeometry(g, |img|) && Narrow(g) && OneBlockUsed(g, img)
    ensures var st, ino := StoreOf(g, img, hint), OneByteFile(g.dataBlockStart);
            && Ready(Plain(), g, img, hint, ino) && FileState(Plain(), st, ino, 1) && StoreOk(st)
            && Content(Plain(), st.blocks, ino) == [0] && Owns(st.blocks, ino, Chunk(0), g.dataBlockStart)
  {
    hide StoreOf, ValidGeometry, FileState, Lawful, EntryAt, EntriesInside, FileReadable, Content, OneByteFile, Plain,
         Owns;
    PlainIsLawful();
    var st, b := StoreOf(g, img, hint), g.dataBlockStart;
    var ino := OneByteFile(b);
    SameHint(g, img, 0, hint);
    OneByteFileIsOk(st, b);
    StateReads(Plain(), st, ino, 1);
    OneOwner(st.blocks, b);
    OneByteEntries(st, b);
    OneByteSlots(b);
  }

  lemma OneByteEntries(st: Store, b: u32)
    requires st.dataStart <= b < |st.blocks| && b < st.dataStart + |st.used|
    ensures EntriesInside(st, OneByteFile(b))
  {
    hide EntryAt, PackEntry, EntryStart, EntryCount, EntryIsEmpty, OneByteFile;
    OneOwner(st.blocks, b);
    EntryRoundTrip(b, 1, FLAG_RAW, 1);
    EmptyNamesNothing();
  }

  lemma OneByteSlots(b: u32)
    ensures U64Slots(OneByteFile(b))
  {
  }

  /** A file of one zero byte is written over with two chunks, the second of one byte. Staged and not yet
      logged, that byte is what the stored file reads. */
  lemma CrashChangesFile(g: Geometry, img: Image, data: seq<byte>)
    requires Mounted(g, |img|) && ValidGeometry(g, |img|) && Narrow(g) && OneBlockUsed(g, img)
    requires |data| == CHUNK_SIZE + 1
    ensures var c, ino, hint := Plain(), OneByteFile(g.dataBlockStart), g.dataBlockStart + 1;
            && Ready(c, g, img, hint, ino) && FileState(c, StoreOf(g, img, hint), ino, 1)
            && Content(c, StoreOf(g, img, hint).blocks, ino) == [0]
            && TakesBack(c, g, img, hint, ino, 0, data)
            && var t := Transaction(c, g, img, hint, ino, 0, data);
            && t.ok && CrashImage(img, t.j, t.j.img) && |t.j.img| == |img|
            && FileState(c, StoreOf(g, t.j.img, hint), ino, 1)
            && Content(c, StoreOf(g, t.j.img, hint).blocks, ino) == [data[CHUNK_SIZE]]
  {
    hide StoreOf, ValidGeometry, FileState, Lawful, NewChunks, JournalStep, Prepare, Plain, OneByteFile, FileOk,
         AllReadable, EntriesInside, EntryAt, ChunkCodec.Fits, Content, SimFit, StageRun, Owns, StagedOnly,
         OneBlockUsed;
    var c, ino, hint := Plain(), OneByteFile(g.dataBlockStart), g.dataBlockStart + 1;
    OneByteIsReady(g, img, hint);
    var st := StoreOf(g, img, hint);
    NewChunksFit(c, st.blocks, ino, 0, data);
    var bufs := NewChunks(c, st.blocks, ino, 0, data);
    TwoChunks(c, st.blocks, ino, data);
    assert bufs[1] == [data[CHUNK_SIZE]] by { LastByte(c, st.blocks, ino, data); }
    PlainIsRaw(bufs[0]);
    PlainIsRaw(bufs[1]);
    PreparedFits(c, bufs[0]);
    PreparedFits(c, bufs[1]);
    var j, p, p' := NewStaging(g, img, hint), Prepare(c, bufs[0]), Prepare(c, bufs[1]);
    assert JournalMany(c, g, j, ino, 0, bufs, 0) == Turn(true, j, ino);
    UsedBits(g, img, hint);
    FirstGivesBack(g, j, p);
    var t1 := JournalMany(c, g, j, ino, 0, bufs, 1);
    assert t1 == JournalStep(g, j, ino, 0, p);
    SecondTakesIt(g, t1.j, t1.ino, p');
    var t := Transaction(c, g, img, hint, ino, 0, data);
    assert t == JournalStep(g, t1.j, t1.ino, 1, p');
    StagedTwice(g, img, hint, p, p', data[CHUNK_SIZE]);
    OneByteFileIsOk(StoreOf(g, t.j.img, hint), g.dataBlockStart);
    TransactionStands(c, g, img, hint, ino, 0, data);
    assert t.j.(img := t.j.img) == t.j;
    assert TakenBy(c, g, j, ino, 0, bufs, 1, g.dataBlockStart);
    ChunkOwns(st.blocks, ino, 0, g.dataBlockStart);
    assert HadBefore(st.blocks, ino, 0, 1, g.dataBlockStart);
  }

  lemma UsedBits(g: Geometry, img: Image, hint: nat)
    requires Mounted(g, |img|) && OneBlockUsed(g, img)
    ensures var bits := NewStaging(g, img, hint).s.bits;
            |bits| == BLOCK_BITS && forall i :: 0 <= i < BLOCK_BITS ==> (bits[i] <==> i == 0)
    ensures g.dataBlockStart + 17 <= g.blockCount
  {
  }

  lemma LastByte(c: Codec, blocks: CT.Blocks, ino: Inode, data: seq<byte>)
    requires AllReadable(c, blocks, ino) && |data| == CHUNK_SIZE + 1 && ino.size == 1
    ensures var bufs := NewChunks(c, blocks, ino, 0, data); |bufs| == 2 && bufs[1] == [data[CHUNK_SIZE]]
  {
    hide NewChunks, AllReadable, ByteAt;
    TwoChunks(c, blocks, ino, data);
    NewChunksAre(c, blocks, ino, 0, data, 1);
  }

  /** Twenty-one blocks, the data area from block 4 on. */
  function LargerDisk(): Geometry {
    Geometry(BLOCK_SIZE, 21, 16, 1, 1, 2, 1, 3, 4)
  }

  /** There is such an image. */
  lemma CrashExample(data: seq<byte>)
    requires |data| == CHUNK_SIZE + 1 && data[CHUNK_SIZE] != 0
    ensures var c, g, ino, hint := Plain(), LargerDisk(), OneByteFile(4), 5;
            var empty := Repeat(false, 21 * BLOCK_BITS);
            && Mounted(g, |empty|) && var img := MarkUsed(g, empty, 4);
            && Ready(c, g, img, hint, ino) && var t := Transaction(c, g, img, hint, ino, 0, data);
            && t.ok && CrashImage(img, t.j, t.j.img)
            && AllReadable(c, StoreOf(g, img, hint).blocks, ino)
            && AllReadable(c, StoreOf(g, t.j.img, hint).blocks, ino)
            && Content(c, StoreOf(g, t.j.img, hint).blocks, ino) != Content(c, StoreOf(g, img, hint).blocks, ino)
  {
    hide StoreOf, Ready, Transaction, Content, CrashImage, AllReadable, TakesBack, Repeat, MarkUsed;
    var g, empty := LargerDisk(), Repeat(false, 21 * BLOCK_BITS);
    var img := MarkUsed(g, empty, 4);
    MarkUsedViews(g, empty, 4);
    assert ValidGeometry(g, |img|);
    assert OneBlockUsed(g, img) by { ZeroBits(g, img, empty, 4); }
    CrashChangesFile(g, img, data);
  }

  lemma ZeroBits(g: Geometry, img: Image, empty: Image, b: nat)
    requires Mounted(g, |img|) && |empty| == |img| && IsData(g, b) && BlockBits(img, b) == BlockBits(empty, b)
    requires forall q :: 0 <= q < |empty| ==> !empty[q]
    ensures StoreOf(g, img, 0).blocks[b] == CT.ZeroBlock()
  {
    hide BytesIn, BitsOf;
    assert BLOCK_BITS * b + BLOCK_BITS <= |img|;
    var bits := BlockBits(img, b);
    forall i | 0 <= i < BLOCK_SIZE ensures BytesIn(bits)[i] == 0 {
      forall q | 8 * i <= q < 8 * i + 8 ensures !bits[q] { assert bits[q] == empty[BLOCK_BITS * b + q]; }
      assert bits[8 * i..8 * i + 8] == Repeat(false, 8);
      assert FromBits(Repeat(false, 8)) == 0 by { ZeroByte(); }
    }
    assert BytesIn(bits) == CT.ZeroBlock();
  }

  lemma ZeroByte()
    ensures FromBits(Repeat(false, 8)) == 0
  {
    assert ToBits(0, 8) == Repeat(false, 8);
    assert Pow2(8) == 256;
    BitsRoundTrip(0, 8);
  }
}
