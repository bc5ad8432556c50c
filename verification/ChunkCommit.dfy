/** Committing one prepared chunk (src/disk.rs, `commit_prepared_chunked_write`, in place). */
module ChunkCommit {
  import opened Sizes
  import opened Bytes
  import opened LastWins
  import opened PointerTree
  import opened TreePositions
  import opened ChunkTree
  import opened ChunkStore
  import opened ChunkEntries
  import opened ChunkCodec

  // ---------------------------------------------------------------------------
  // Laying a payload into its run
  // ---------------------------------------------------------------------------

  function PieceOf(payload: seq<byte>, i: nat): Block
    requires BLOCK_SIZE * i <= |payload|
  {
    Resize(payload[BLOCK_SIZE * i..BLOCK_SIZE * i + Min(|payload| - BLOCK_SIZE * i, BLOCK_SIZE)], BLOCK_SIZE)
  }

  /** The blocks with the pieces of the payload in the run, as far as it lies inside the image. */
  function Lay(blocks: Blocks, start: nat, p: Prepared): (r: Blocks)
    requires Fits(p)
    ensures |r| == |blocks| && forall b: nat :: b < |blocks| && !InRun(start, p.count, b) ==> r[b] == blocks[b]
  {
    seq(|blocks|, b requires 0 <= b < |blocks| =>
      if InRun(start, p.count, b) then PieceOf(p.payload, b - start) else blocks[b])
  }

  /** The copy loop: whole blocks, then the rest followed by zeros. A block past the end of the image is
      skipped. */
  method LayPayload(blocks: Blocks, start: nat, p: Prepared) returns (r: Blocks)
    requires Fits(p)
    ensures r == Lay(blocks, start, p)
    ensures start + p.count <= |blocks| ==> Laid(r, start, p)
  {
    hide Laid;
    r := blocks;
    var written := 0;
    ghost var inside := if start < |blocks| then |blocks| - start else 0;
    for i := 0 to p.count
      invariant |r| == |blocks| && written == Min(BLOCK_SIZE * Min(i, inside), |p.payload|)
      invariant forall b: nat :: b < |blocks| && InRun(start, i, b) ==> r[b] == PieceOf(p.payload, b - start)
      invariant forall b: nat :: b < |blocks| && !InRun(start, i, b) ==> r[b] == blocks[b]
    {
      if start + i < |r| {
        var toWrite := Min(|p.payload| - written, BLOCK_SIZE);
        r := r[start + i := Resize(p.payload[written..written + toWrite], BLOCK_SIZE)];
        written := written + toWrite;
      }
    }
    assert r == Lay(blocks, start, p);
    if start + p.count <= |blocks| { PiecesAreLaid(r, start, p); }
  }

  lemma PiecesAreLaid(blocks: Blocks, start: nat, p: Prepared)
    requires Fits(p) && start + p.count <= |blocks|
    requires forall b: nat :: b < |blocks| && InRun(start, p.count, b) ==> blocks[b] == PieceOf(p.payload, b - start)
    ensures Laid(blocks, start, p)
  {
    hide RunBytes;
    var run, want := RunBytes(blocks, start, p.count), p.payload + Zeros(BLOCK_SIZE * p.count - |p.payload|);
    forall i | 0 <= i < BLOCK_SIZE * p.count ensures run[i] == want[i] {
      RunBytesAt(blocks, start, p.count, i);
      var j := i / BLOCK_SIZE;
      assert blocks[start + j] == PieceOf(p.payload, j);
      assert i == BLOCK_SIZE * j + i % BLOCK_SIZE;
    }
  }

  // ---------------------------------------------------------------------------
  // One commit
  // ---------------------------------------------------------------------------

  /** The entry of chunk `k`, empty beyond the last addressable one. */
  function EntryOf(blocks: Blocks, ino: Inode, k: nat): nat {
    Resolve(Slots(blocks), ino, k)
  }

  lemma EntryOfIs(blocks: Blocks, ino: Inode, k: nat)
    ensures k < MAX_LOGICAL_BLOCKS ==> EntryOf(blocks, ino, k) == EntryAt(blocks, ino, k)
    ensures k >= MAX_LOGICAL_BLOCKS ==> EntryOf(blocks, ino, k) == 0
  {
    hide Node;
    LogicalRoundTrip(k);
    if k < MAX_LOGICAL_BLOCKS { NodeIsResolve(Slots(blocks), ino, k); }
  }

  function StoredLen(e: nat): nat {
    if EntryIsEmpty(e) then 0 else EntryLen(e)
  }

  function Release(st: Store, old': nat): (st': Store)
    ensures SameShape(st, st')
  {
    if EntryIsEmpty(old') then st else FreeRun(st, EntryStart(old'), EntryCount(old'))
  }

  /** What a commit leaves: the image, the inode in memory, and whether it got to its end. */
  datatype Step = Step(ok: bool, st: Store, ino: Inode)

  /** A new run, its payload, the entry, and the old run given back. A commit that fails leaves what it
      has done so far. */
  function CommitStep(st: Store, ino: Inode, k: nat, p: Prepared): (r: Step)
    requires StoreOk(st) && Fits(p)
    ensures SameShape(st, r.st)
  {
    match GrabRun(st, p.count)
    case None => Step(false, st, ino)
    case Some((st1, start)) =>
      var st2 := st1.(blocks := Lay(st1.blocks, start, p));
      var (st3, ino', ok) := SetEntry(st2, ino, k, EntryFor(start, p));
      if ok then Step(true, Release(st3, EntryOf(st2.blocks, ino, k)), ino') else Step(false, st3, ino')
  }

  /** The guard the journaled path has and this one lacks: the next run ends inside the image. */
  predicate RunFits(st: Store, p: Prepared) {
    var run := GrabRun(st, p.count);
    run.Some? ==> run.value.1 + p.count <= |st.blocks|
  }

  // ---------------------------------------------------------------------------
  // What a file's chunks hold
  // ---------------------------------------------------------------------------

  ghost predicate AllReadable(c: Codec, blocks: Blocks, ino: Inode) {
    forall k :: 0 <= k < MAX_LOGICAL_BLOCKS ==> Readable(c, blocks, EntryAt(blocks, ino, k))
  }

  function WholeOf(c: Codec, blocks: Blocks, ino: Inode, k: nat): (r: seq<byte>)
    requires k < MAX_LOGICAL_BLOCKS && Readable(c, blocks, EntryAt(blocks, ino, k))
    ensures |r| == CHUNK_SIZE
  {
    Whole(c, blocks, EntryAt(blocks, ino, k))
  }

  ghost predicate FileReadable(c: Codec, st: Store, ino: Inode) {
    FileOk(st, ino) && AllReadable(c, st.blocks, ino)
  }

  /** What belongs to others stays theirs and as it is, and nothing leaks. */
  ghost predicate Spares(st: Store, ino: Inode, st': Store, ino': Inode) {
    SparesOthers(st, ino, st', ino') && LeaksNothing(st, ino, st', ino')
  }

  lemma SparesRefl(st: Store, ino: Inode)
    ensures Spares(st, ino, st, ino)
  {
    hide Foreign;
  }

  lemma SparesTrans(a: Store, i: Inode, b: Store, j: Inode, c: Store, k: Inode)
    requires SparesOthers(a, i, b, j) && SparesOthers(b, j, c, k)
    ensures SparesOthers(a, i, c, k)
    ensures LeaksNothing(a, i, b, j) && LeaksNothing(b, j, c, k) ==> LeaksNothing(a, i, c, k)
  {
    hide Foreign;
  }

  /** The chunk with entry `e` reads, and what it read before it still reads. */
  ghost predicate SameChunk(c: Codec, blocks: Blocks, blocks': Blocks, e: nat) {
    Readable(c, blocks, e) ==> Readable(c, blocks', e) && Whole(c, blocks', e) == Whole(c, blocks, e)
  }

  /** Entry `k` now points to the run that was next; its old run is free again; all other chunks, and
      whatever belongs to others, are as before. */
  ghost predicate ChunkPlaced(c: Codec, st: Store, ino: Inode, k: nat, p: Prepared, st': Store, ino': Inode)
    requires k < MAX_LOGICAL_BLOCKS && StoreOk(st) && Fits(p)
  {
    && FileOk(st', ino') && Spares(st, ino, st', ino') && GrabRun(st, p.count).Some?
    && EntryAt(st'.blocks, ino', k) == EntryFor(GrabRun(st, p.count).value.1, p)
    && (forall b: nat :: Owns(st.blocks, ino, Chunk(k), b) ==> !Taken(st', b))
    && (forall j :: 0 <= j < MAX_LOGICAL_BLOCKS && j != k ==>
          && EntryAt(st'.blocks, ino', j) == EntryAt(st.blocks, ino, j)
          && SameChunk(c, st.blocks, st'.blocks, EntryAt(st.blocks, ino, j)))
  }

  /** The result of storing `buf` as chunk `k`: the chunk reads as `buf`. */
  ghost predicate ChunkStored(c: Codec, st: Store, ino: Inode, k: nat, buf: seq<byte>, st': Store, ino': Inode)
    requires k < MAX_LOGICAL_BLOCKS && StoreOk(st) && 0 < |buf| <= CHUNK_SIZE && Fits(Prepare(c, buf))
  {
    && ChunkPlaced(c, st, ino, k, Prepare(c, buf), st', ino')
    && Readable(c, st'.blocks, EntryAt(st'.blocks, ino', k))
    && WholeOf(c, st'.blocks, ino', k) == Resize(buf, CHUNK_SIZE)
  }

  // ---------------------------------------------------------------------------
  // The steps of a commit
  // ---------------------------------------------------------------------------

  /** Reserving a run and filling it leaves the file alone. */
  lemma RunReserved(st: Store, ino: Inode, st1: Store, start: nat, count: nat, blocks: Blocks)
    requires FileOk(st, ino) && count > 0 && GrabRun(st, count) == Some((st1, start))
    requires |blocks| == |st1.blocks|
    requires forall b: nat :: b < |blocks| && !InRun(start, count, b) ==> blocks[b] == st1.blocks[b]
    ensures var st2 := st1.(blocks := blocks);
            && Keeps(st, ino, st2, ino)
            && (forall b: nat :: InRun(start, count, b) ==> Foreign(st2, ino, b) && Tracked(st2, b))
            && (forall b: nat :: Foreign(st2, ino, b) ==> Foreign(st, ino, b) || InRun(start, count, b))
            && (forall b: nat :: Foreign(st, ino, b) ==> !InRun(start, count, b))
  {
    hide GrabRun, TableAt, EntryAt, Owns, Exclusive, Taken;
    GrabRunIs(st, count);
    var st2 := st1.(blocks := blocks);
    assert forall c: nat :: Taken(st2, c) <==> Taken(st1, c) by { SameTaken(st1, st2); }
    Undisturbed(st, st2, ino);
    forall k: nat | k < MAX_LOGICAL_BLOCKS ensures EntryAt(blocks, ino, k) == EntryAt(st.blocks, ino, k) {
      EntryIsNode(blocks, ino, k);
      EntryIsNode(st.blocks, ino, k);
    }
  }

  lemma SameTaken(st: Store, st': Store)
    requires st' == st.(blocks := st'.blocks)
    ensures forall c: nat :: Taken(st', c) <==> Taken(st, c)
  {
  }

  lemma ChunkOwns(blocks: Blocks, ino: Inode, k: nat, b: nat)
    requires k < MAX_LOGICAL_BLOCKS
    ensures Owns(blocks, ino, Chunk(k), b) <==> EntryHas(EntryAt(blocks, ino, k), b)
  {
  }

  /** Chunks whose blocks stay read as before. */
  lemma StillReads(c: Codec, blocks: Blocks, ino: Inode, blocks': Blocks, k: nat)
    requires |blocks'| == |blocks| && SameChunks(blocks, ino, blocks') && k < MAX_LOGICAL_BLOCKS
    ensures SameChunk(c, blocks, blocks', EntryAt(blocks, ino, k))
  {
    hide EntryAt, Owns, Readable, Whole, EntryHas;
    var e := EntryAt(blocks, ino, k);
    forall b: nat | EntryHas(e, b) && b < |blocks| ensures blocks'[b] == blocks[b] {
      ChunkOwns(blocks, ino, k, b);
    }
    if Readable(c, blocks, e) { SameWhole(c, blocks, blocks', e); }
  }

  /** The old run of an entry is tracked. */
  lemma RunTracked(st: Store, ino: Inode, k: nat)
    requires FileOk(st, ino) && k < MAX_LOGICAL_BLOCKS && !EntryIsEmpty(EntryAt(st.blocks, ino, k))
    requires EntryCount(EntryAt(st.blocks, ino, k)) > 0
    ensures var e := EntryAt(st.blocks, ino, k);
            st.dataStart <= EntryStart(e) && EntryStart(e) + EntryCount(e) <= st.dataStart + |st.used|
  {
    hide EntryAt, EntryStart, EntryCount, EntryIsEmpty, Exclusive;
    var e := EntryAt(st.blocks, ino, k);
    var last := EntryStart(e) + EntryCount(e) - 1;
    assert Owns(st.blocks, ino, Chunk(k), last);
    assert Owns(st.blocks, ino, Chunk(k), EntryStart(e));
  }

  /** Freeing a run nobody owns any more. */
  lemma RunFreed(st: Store, ino: Inode, start: nat, count: nat)
    requires FileOk(st, ino) && st.dataStart <= start && start + count <= st.dataStart + |st.used|
    requires forall b: nat :: InRun(start, count, b) ==> forall o :: !Owns(st.blocks, ino, o, b)
    ensures FileOk(FreeRun(st, start, count), ino)
    ensures forall b: nat :: Foreign(st, ino, b) && !InRun(start, count, b) <==>
              Foreign(FreeRun(st, start, count), ino, b)
    ensures forall b: nat :: InRun(start, count, b) ==> !Taken(FreeRun(st, start, count), b)
  {
    hide Owns, Taken, FreeRun, TableAt, EntryAt;
    FreeRunIs(st, start, count);
    Undisturbed(st, FreeRun(st, start, count), ino);
  }

  /** Releasing the old run of entry `k`, once the entry points elsewhere. */
  lemma OldReleased(st: Store, ino: Inode, k: nat, raw: nat, st': Store, ino': Inode)
    requires FileOk(st, ino) && k < MAX_LOGICAL_BLOCKS && EntrySet(st, ino, k, raw, st', ino')
    ensures var st4 := Release(st', EntryAt(st.blocks, ino, k));
            && FileOk(st4, ino') && st4.blocks == st'.blocks
            && (forall b: nat :: Foreign(st', ino', b) && !Owns(st.blocks, ino, Chunk(k), b) <==> Foreign(st4, ino', b))
            && (forall b: nat :: Owns(st.blocks, ino, Chunk(k), b) ==> !Taken(st4, b))
  {
    hide EntryAt, Exclusive, Housed, Taken, FreeRun, EntryStart, EntryCount, EntryIsEmpty, SameChunks;
    var e := EntryAt(st.blocks, ino, k);
    if !EntryIsEmpty(e) && EntryCount(e) > 0 {
      RunTracked(st, ino, k);
      forall b: nat | InRun(EntryStart(e), EntryCount(e), b) ensures forall o :: !Owns(st'.blocks, ino', o, b) {
        assert Owns(st.blocks, ino, Chunk(k), b);
      }
      RunFreed(st', ino', EntryStart(e), EntryCount(e));
      FreeRunIs(st', EntryStart(e), EntryCount(e));
    } else {
      assert Release(st', e) == st' by { NothingFreed(st', e); }
    }
  }

  lemma NothingFreed(st: Store, e: nat)
    requires EntryIsEmpty(e) || EntryCount(e) == 0
    ensures Release(st, e) == st
  {
  }

  /** The reserved run is what the new entry names. */
  lemma EntryReserved(st: Store, ino: Inode, start: nat, p: Prepared)
    requires start < MAX_BLOCKS && Fits(p)
    requires forall b: nat :: InRun(start, p.count, b) ==> Foreign(st, ino, b) && Tracked(st, b)
    ensures Reserved(st, ino, EntryFor(start, p))
    ensures forall b: nat :: EntryHas(EntryFor(start, p), b) <==> InRun(start, p.count, b)
  {
    hide EntryFor, EntryStart, EntryCount, EntryIsEmpty, Foreign;
    EntryForIs(start, p);
  }

  lemma OkStore(st: Store, ino: Inode)
    requires FileOk(st, ino)
    ensures StoreOk(st)
  {
  }

  lemma NotOwned(st: Store, ino: Inode, b: nat, o: Owner)
    requires Foreign(st, ino, b)
    ensures !Owns(st.blocks, ino, o, b)
  {
  }

  /** The entry of `k` when its old run is looked up: still the one from before. */
  lemma OldEntry(st: Store, ino: Inode, st2: Store, k: nat)
    requires Keeps(st, ino, st2, ino) && k < MAX_LOGICAL_BLOCKS
    ensures EntryOf(st2.blocks, ino, k) == EntryAt(st2.blocks, ino, k) == EntryAt(st.blocks, ino, k)
    ensures forall b: nat :: Owns(st.blocks, ino, Chunk(k), b) <==> Owns(st2.blocks, ino, Chunk(k), b)
  {
    hide EntryAt, EntryOf, FileOk, SparesOthers, SameChunks, EntryHas;
    EntryOfIs(st2.blocks, ino, k);
  }

  /** Reserved, filled, pointed to, and the old run released: all other blocks are spared and none leaks. */
  lemma PlacedSpares(st: Store, ino: Inode, st2: Store, start: nat, count: nat, k: nat, raw: nat, st3: Store,
                     ino': Inode,
                     st4: Store)
    requires k < MAX_LOGICAL_BLOCKS && Keeps(st, ino, st2, ino) && EntrySet(st2, ino, k, raw, st3, ino')
    requires forall b: nat :: EntryHas(raw, b) <==> InRun(start, count, b)
    requires forall b: nat :: Foreign(st2, ino, b) ==> Foreign(st, ino, b) || InRun(start, count, b)
    requires forall b: nat :: Foreign(st, ino, b) ==> !InRun(start, count, b)
    requires st4.blocks == st3.blocks && SameShape(st3, st4)
    requires forall b: nat :: Foreign(st3, ino', b) && !Owns(st2.blocks, ino, Chunk(k), b) <==> Foreign(st4, ino', b)
    ensures Spares(st, ino, st4, ino')
  {
    hide EntryAt, Owns, FileOk, Taken, Foreign, EntryHas, SameEntries, SameChunks;
    forall b: nat | Foreign(st, ino, b)
      ensures Foreign(st4, ino', b) && (b < |st.blocks| ==> st4.blocks[b] == st.blocks[b])
    {
      assert !Owns(st2.blocks, ino, Chunk(k), b) by { NotOwned(st2, ino, b, Chunk(k)); }
    }
    forall b: nat | Foreign(st4, ino', b) ensures Foreign(st, ino, b) {
      assert Foreign(st3, ino', b) && !Owns(st2.blocks, ino, Chunk(k), b);
    }
  }

  /** The other chunks read as before. */
  lemma OthersStay(c: Codec, st: Store, ino: Inode, st2: Store, k: nat, raw: nat, st3: Store, ino': Inode, j: nat)
    requires k < MAX_LOGICAL_BLOCKS && j < MAX_LOGICAL_BLOCKS && j != k
    requires Keeps(st, ino, st2, ino) && EntrySet(st2, ino, k, raw, st3, ino')
    ensures EntryAt(st3.blocks, ino', j) == EntryAt(st.blocks, ino, j)
    ensures SameChunk(c, st.blocks, st3.blocks, EntryAt(st.blocks, ino, j))
  {
    hide EntryAt, Owns, FileOk, Taken, Foreign, EntryHas, SameChunks, Readable, Whole;
    StillReads(c, st.blocks, ino, st2.blocks, j);
    StillReads(c, st2.blocks, ino, st3.blocks, j);
  }

  /** One commit: either the entry is placed, or the file and its chunks are as before. */
  lemma StepPlaces(c: Codec, st: Store, ino: Inode, k: nat, p: Prepared)
    requires FileOk(st, ino) && Fits(p)
    ensures var r := CommitStep(st, ino, k, p);
            && (r.ok ==> k < MAX_LOGICAL_BLOCKS && ChunkPlaced(c, st, ino, k, p, r.st, r.ino))
            && (!r.ok ==> Keeps(st, ino, r.st, r.ino))
            && RootsGrow(ino, r.ino)
  {
    hide GrabRun, SetEntry, EntryFor, EntryAt, EntryOf, Owns, FileOk, Taken, Foreign, Fits, Lay, Release, EntryHas,
         Keeps, EntrySet, AddsTables, Reserved, SameChunk, Spares;
    OkStore(st, ino);
    if GrabRun(st, p.count).None? {
      KeepsNothing(st, ino);
      return;
    }
    var (st1, start) := GrabRun(st, p.count).value;
    var st2 := st1.(blocks := Lay(st1.blocks, start, p));
    FitsCount(p);
    RunReserved(st, ino, st1, start, p.count, st2.blocks);
    assert FileOk(st2, ino) by { KeepsIsOk(st, ino, st2, ino); }
    EntryReserved(st2, ino, start, p);
    var raw := EntryFor(start, p);
    SetEntryIs(st2, ino, k, raw);
    var (st3, ino', ok) := SetEntry(st2, ino, k, raw);
    if ok {
      OldEntry(st, ino, st2, k);
      OldReleased(st2, ino, k, raw, st3, ino');
      var st4 := Release(st3, EntryAt(st2.blocks, ino, k));
      PlacedSpares(st, ino, st2, start, p.count, k, raw, st3, ino', st4);
      assert EntryAt(st3.blocks, ino', k) == raw by { EntryIsSet(st2, ino, k, raw, st3, ino'); }
      forall j: nat | j < MAX_LOGICAL_BLOCKS && j != k
        ensures EntryAt(st4.blocks, ino', j) == EntryAt(st.blocks, ino, j)
        ensures SameChunk(c, st.blocks, st4.blocks, EntryAt(st.blocks, ino, j))
      {
        OthersStay(c, st, ino, st2, k, raw, st3, ino', j);
      }
    } else {
      KeepsThenAdds(st, ino, st2, ino, st3, ino');
    }
  }

  lemma FitsCount(p: Prepared)
    requires Fits(p)
    ensures p.count > 0
  {
  }

  lemma EntryIsSet(st: Store, ino: Inode, k: nat, raw: nat, st': Store, ino': Inode)
    requires k < MAX_LOGICAL_BLOCKS && EntrySet(st, ino, k, raw, st', ino')
    ensures EntryAt(st'.blocks, ino', k) == raw
  {
    hide EntryAt, FileOk, Foreign, SameChunks;
  }

  lemma KeepsNothing(st: Store, ino: Inode)
    requires FileOk(st, ino)
    ensures Keeps(st, ino, st, ino)
  {
    AddsNothing(st, ino);
  }

  lemma KeepsThenAdds(a: Store, i: Inode, b: Store, j: Inode, c: Store, k: Inode)
    requires Keeps(a, i, b, j) && AddsTables(b, j, c, k)
    ensures Keeps(a, i, c, k)
  {
    hide EntryAt, FileOk, Foreign;
    forall n: nat, x: nat | n < MAX_LOGICAL_BLOCKS && Owns(a.blocks, i, Chunk(n), x) && x < |a.blocks|
      ensures c.blocks[x] == a.blocks[x]
    {
      assert Owns(b.blocks, j, Chunk(n), x);
    }
  }

  /** When a commit fails: no run is free, the index is past the last entry, or a pointer block is missing
      and no block is left for it. */
  lemma StepFails(st: Store, ino: Inode, k: nat, p: Prepared)
    requires StoreOk(st) && Fits(p)
    ensures !CommitStep(st, ino, k, p).ok <==>
              || GrabRun(st, p.count).None?
              || k >= MAX_LOGICAL_BLOCKS
              || (k >= 10 && var (st1, start) := GrabRun(st, p.count).value;
                  EnsureTable(st1.(blocks := Lay(st1.blocks, start, p)), ino, Up(Leaf(k)).value.0).2.None?)
  {
    hide GrabRun, Lay, EnsureTable, EntryFor, Release, EntryOf, Fits;
  }

  /** A chunk whose run ends inside the image reads back; one whose run leaves it does not. */
  lemma StepStores(c: Codec, st: Store, ino: Inode, k: nat, buf: seq<byte>)
    requires Lawful(c) && FileOk(st, ino) && 0 < |buf| <= CHUNK_SIZE && Fits(Prepare(c, buf))
    requires CommitStep(st, ino, k, Prepare(c, buf)).ok
    ensures var r := CommitStep(st, ino, k, Prepare(c, buf));
            && k < MAX_LOGICAL_BLOCKS
            && (ChunkStored(c, st, ino, k, buf, r.st, r.ino) <==> RunFits(st, Prepare(c, buf)))
  {
    hide GrabRun, SetEntry, EntryFor, EntryAt, EntryOf, Owns, FileOk, Taken, Foreign, Fits, Lay, Release, EntryHas,
         Keeps, EntrySet, AddsTables, Reserved, SameChunk, Spares, Prepare, Lawful, Laid, Whole, Resize;
    var p := Prepare(c, buf);
    OkStore(st, ino);
    FitsCount(p);
    StepPlaces(c, st, ino, k, p);
    var (st1, start) := GrabRun(st, p.count).value;
    var r := CommitStep(st, ino, k, p);
    if start + p.count <= |st.blocks| {
      PlacedReads(c, st, ino, k, buf, st1, start);
    } else {
      OutsideUnreadable(c, buf, r.st.blocks, start);
    }
  }

  /** The blocks of the run are not touched again after the payload was laid. */
  lemma PlacedReads(c: Codec, st: Store, ino: Inode, k: nat, buf: seq<byte>, st1: Store, start: nat)
    requires Lawful(c) && FileOk(st, ino) && 0 < |buf| <= CHUNK_SIZE && Fits(Prepare(c, buf))
    requires GrabRun(st, Prepare(c, buf).count) == Some((st1, start)) && start + Prepare(c, buf).count <= |st.blocks|
    requires CommitStep(st, ino, k, Prepare(c, buf)).ok
    ensures var r := CommitStep(st, ino, k, Prepare(c, buf));
            && start < MAX_BLOCKS && Readable(c, r.st.blocks, EntryFor(start, Prepare(c, buf)))
            && Whole(c, r.st.blocks, EntryFor(start, Prepare(c, buf))) == Resize(buf, CHUNK_SIZE)
  {
    hide GrabRun, SetEntry, EntryFor, EntryAt, EntryOf, Owns, FileOk, Taken, Foreign, Fits, Lay, Release, EntryHas,
         Keeps, AddsTables, Reserved, Prepare, Lawful, Laid, Readable, Whole, Resize;
    var p := Prepare(c, buf);
    OkStore(st, ino);
    var st2 := st1.(blocks := Lay(st1.blocks, start, p));
    FitsCount(p);
    RunReserved(st, ino, st1, start, p.count, st2.blocks);
    assert FileOk(st2, ino) by { KeepsIsOk(st, ino, st2, ino); }
    EntryReserved(st2, ino, start, p);
    var raw := EntryFor(start, p);
    SetEntryIs(st2, ino, k, raw);
    var (st3, ino', ok) := SetEntry(st2, ino, k, raw);
    assert Laid(st2.blocks, start, p) by { LaidDown(st1.blocks, start, p); }
    PreparedReadsBack(c, buf, st2.blocks, start);
    SameWhole(c, st2.blocks, st3.blocks, raw);
    ReleaseBlocks(st3, EntryOf(st2.blocks, ino, k));
  }

  lemma LaidDown(blocks: Blocks, start: nat, p: Prepared)
    requires Fits(p) && start + p.count <= |blocks|
    ensures Laid(Lay(blocks, start, p), start, p)
  {
    hide Laid;
    PiecesAreLaid(Lay(blocks, start, p), start, p);
  }

  lemma ReleaseBlocks(st: Store, e: nat)
    ensures Release(st, e).blocks == st.blocks
  {
  }

  /** One turn of the commit loop. It stores the chunk exactly if the run it takes ends inside the image;
      if it fails, the file reads as before. */
  method CommitChunk(c: Codec, st: Store, ino: Inode, k: nat, p: Prepared, ghost buf: seq<byte>)
    returns (r: Step, oldLen: nat)
    requires Lawful(c) && FileOk(st, ino) && 0 < |buf| <= CHUNK_SIZE && p == Prepare(c, buf) && Fits(p)
    ensures r == CommitStep(st, ino, k, p)
    ensures r.ok ==> k < MAX_LOGICAL_BLOCKS && ChunkPlaced(c, st, ino, k, p, r.st, r.ino)
    ensures r.ok ==> (ChunkStored(c, st, ino, k, buf, r.st, r.ino) <==> RunFits(st, p))
    ensures r.ok ==> oldLen == StoredLen(EntryAt(st.blocks, ino, k))
    ensures !r.ok ==> Keeps(st, ino, r.st, r.ino)
  {
    hide GrabRun, SetEntry, EntryFor, EntryAt, EntryOf, Owns, Taken, Foreign, Lay, Release, EntryHas,
         Keeps, Prepare, Lawful, StoredLen, ChunkPlaced, ChunkStored, Exclusive, Housed;
    StepPlaces(c, st, ino, k, p);
    if CommitStep(st, ino, k, p).ok { StepStores(c, st, ino, k, buf); }
    var run := GrabRun(st, p.count);
    if run.None? {
      return Step(false, st, ino), 0;
    }
    var (st1, start) := run.value;
    var blocks := LayPayload(st1.blocks, start, p);
    var st2 := st1.(blocks := blocks);
    var old' := EntryOf(blocks, ino, k);
    var (st3, ino', ok) := SetEntry(st2, ino, k, EntryFor(start, p));
    if !ok {
      return Step(false, st3, ino'), 0;
    }
    RunReserved(st, ino, st1, start, p.count, blocks);
    OldEntry(st, ino, st2, k);
    return Step(true, Release(st3, old'), ino'), StoredLen(old');
  }
}
