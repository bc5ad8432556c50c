/** The commit loop over all chunks of a write: when it gets to its end, what it leaves when it stops
    early, and which runs it takes. */
module ChunkRuns {
  import opened Bytes
  import opened LastWins
  import opened PointerTree
  import opened TreePositions
  import opened Allocator
  import opened ChunkTree
  import opened ChunkStore
  import opened ChunkEntries
  import opened ChunkCodec
  import opened ChunkCommit
  import Bits = BitList

  predicate AllChunks(bufs: seq<seq<byte>>) {
    forall i :: 0 <= i < |bufs| ==> 0 < |bufs[i]| <= CHUNK_SIZE
  }

  /** What the first commits leave; `done` of them got to their end. */
  datatype Outcome = Outcome(ok: bool, st: Store, ino: Inode, done: nat)

  /** The first `n` commits, from chunk `first` on, up to the one that fails. */
  ghost function CommitMany(c: Codec, st: Store, ino: Inode, first: nat, bufs: seq<seq<byte>>, n: nat): (r: Outcome)
    requires Lawful(c) && StoreOk(st) && AllChunks(bufs) && n <= |bufs|
    ensures SameShape(st, r.st) && if r.ok then r.done == n else r.done < n
  {
    if n == 0 then Outcome(true, st, ino, 0)
    else
      var prev := CommitMany(c, st, ino, first, bufs, n - 1);
      if !prev.ok then prev
      else
        PreparedFits(c, bufs[n - 1]);
        var s := CommitStep(prev.st, prev.ino, first + n - 1, Prepare(c, bufs[n - 1]));
        Outcome(s.ok, s.st, s.ino, if s.ok then n else n - 1)
  }

  /** Once stopped, nothing more happens. */
  lemma {:induction false} StaysStopped(c: Codec, st: Store, ino: Inode, first: nat, bufs: seq<seq<byte>>, m: nat,
                                        n: nat)
    requires Lawful(c) && StoreOk(st) && AllChunks(bufs) && m <= n <= |bufs|
    requires !CommitMany(c, st, ino, first, bufs, m).ok
    ensures CommitMany(c, st, ino, first, bufs, n) == CommitMany(c, st, ino, first, bufs, m)
    decreases n
  {
    hide CommitStep, Lawful;
    if m < n { StaysStopped(c, st, ino, first, bufs, m, n - 1); }
  }

  /** The loop fails exactly if one of its commits does, and it stops at the first one. */
  lemma StopsAtFirst(c: Codec, st: Store, ino: Inode, first: nat, bufs: seq<seq<byte>>)
    requires Lawful(c) && StoreOk(st) && AllChunks(bufs)
    ensures var r := CommitMany(c, st, ino, first, bufs, |bufs|);
            && (!r.ok <==> exists i :: 0 <= i < |bufs| && FailsAt(c, st, ino, first, bufs, i))
            && (!r.ok ==> FailsAt(c, st, ino, first, bufs, r.done))
            && (forall i :: 0 <= i < r.done ==> !FailsAt(c, st, ino, first, bufs, i))
  {
    hide CommitStep, Lawful;
    var r := CommitMany(c, st, ino, first, bufs, |bufs|);
    forall i | 0 <= i < |bufs| ensures FailsAt(c, st, ino, first, bufs, i) <==> !r.ok && i == r.done {
      if !CommitMany(c, st, ino, first, bufs, i).ok {
        StaysStopped(c, st, ino, first, bufs, i, |bufs|);
      } else if !CommitMany(c, st, ino, first, bufs, i + 1).ok {
        StaysStopped(c, st, ino, first, bufs, i + 1, |bufs|);
      } else if !r.ok {
        GoesOn(c, st, ino, first, bufs, i + 1, |bufs|);
      }
    }
    assert !r.ok ==> FailsAt(c, st, ino, first, bufs, r.done);
  }

  /** The commits before all went through, and this one fails. */
  ghost predicate FailsAt(c: Codec, st: Store, ino: Inode, first: nat, bufs: seq<seq<byte>>, i: nat)
    requires Lawful(c) && StoreOk(st) && AllChunks(bufs) && i < |bufs|
  {
    var s := CommitMany(c, st, ino, first, bufs, i);
    PreparedFits(c, bufs[i]);
    s.ok && !CommitStep(s.st, s.ino, first + i, Prepare(c, bufs[i])).ok
  }

  lemma {:induction false} GoesOn(c: Codec, st: Store, ino: Inode, first: nat, bufs: seq<seq<byte>>, m: nat, n: nat)
    requires Lawful(c) && StoreOk(st) && AllChunks(bufs) && m <= n <= |bufs|
    requires CommitMany(c, st, ino, first, bufs, m).ok
    ensures m <= CommitMany(c, st, ino, first, bufs, n).done
    decreases n
  {
    hide CommitStep, Lawful;
    if m < n { GoesOn(c, st, ino, first, bufs, m, n - 1); }
  }

  // ---------------------------------------------------------------------------
  // What the loop leaves
  // ---------------------------------------------------------------------------

  /** The run of commit `i` ends inside the image. */
  ghost predicate RunInside(c: Codec, st: Store, ino: Inode, first: nat, bufs: seq<seq<byte>>, i: nat)
    requires Lawful(c) && StoreOk(st) && AllChunks(bufs) && i < |bufs|
  {
    RunFits(CommitMany(c, st, ino, first, bufs, i).st, Prepare(c, bufs[i]))
  }

  /** The entry commit `i` sets. */
  ghost function RunEntry(c: Codec, st: Store, ino: Inode, first: nat, bufs: seq<seq<byte>>, i: nat): nat
    requires Lawful(c) && StoreOk(st) && AllChunks(bufs) && i < |bufs|
  {
    var p := Prepare(c, bufs[i]);
    PreparedFits(c, bufs[i]);
    match GrabRun(CommitMany(c, st, ino, first, bufs, i).st, p.count)
    case None => 0
    case Some((_, start)) => EntryFor(start, p)
  }

  /** Chunk `k` after the first `n` commits. */
  ghost predicate ChunkAfter(c: Codec, st0: Store, ino0: Inode, first: nat, bufs: seq<seq<byte>>, n: nat, st: Store,
                             ino: Inode, k: nat)
    requires Lawful(c) && StoreOk(st0) && AllChunks(bufs) && n <= |bufs| && k < MAX_LOGICAL_BLOCKS
  {
    var e := EntryAt(st.blocks, ino, k);
    if first <= k < first + n then
      && e == RunEntry(c, st0, ino0, first, bufs, k - first)
      && (forall b: nat :: EntryHas(EntryAt(st0.blocks, ino0, k), b) ==> !EntryHas(e, b))
      && (RunInside(c, st0, ino0, first, bufs, k - first) ==>
            Readable(c, st.blocks, e) && Whole(c, st.blocks, e) == Resize(bufs[k - first], CHUNK_SIZE))
    else
      && e == EntryAt(st0.blocks, ino0, k)
      && SameChunk(c, st0.blocks, st.blocks, e)
  }

  /** After the first `n` commits: those chunks are placed, the other chunks and all other owners' blocks
      are as before. */
  ghost predicate Stored(c: Codec, st0: Store, ino0: Inode, first: nat, bufs: seq<seq<byte>>, n: nat, st: Store,
                         ino: Inode)
    requires Lawful(c) && StoreOk(st0) && AllChunks(bufs) && n <= |bufs|
  {
    && FileOk(st, ino) && SparesOthers(st0, ino0, st, ino) && RootsGrow(ino0, ino)
    && forall k :: 0 <= k < MAX_LOGICAL_BLOCKS ==> ChunkAfter(c, st0, ino0, first, bufs, n, st, ino, k)
  }

  lemma StoredNone(c: Codec, st: Store, ino: Inode, first: nat, bufs: seq<seq<byte>>)
    requires Lawful(c) && FileOk(st, ino) && AllChunks(bufs)
    ensures Stored(c, st, ino, first, bufs, 0, st, ino)
  {
    hide EntryAt, Readable, Whole, Foreign, Lawful, EntryHas, Exclusive, Housed;
  }

  /** The commit of chunk `first + n` adds one more. */
  lemma StoredNext(c: Codec, st0: Store, ino0: Inode, first: nat, bufs: seq<seq<byte>>, n: nat, st: Store, ino: Inode,
                   st': Store, ino': Inode)
    requires Lawful(c) && StoreOk(st0) && AllChunks(bufs) && n < |bufs| && Stored(c, st0, ino0, first, bufs, n, st, ino)
    requires CommitMany(c, st0, ino0, first, bufs, n).st == st && first + n < MAX_LOGICAL_BLOCKS && RootsGrow(ino, ino')
    requires Fits(Prepare(c, bufs[n])) && StoreOk(st)
    requires ChunkPlaced(c, st, ino, first + n, Prepare(c, bufs[n]), st', ino')
    requires ChunkStored(c, st, ino, first + n, bufs[n], st', ino') <==> RunFits(st, Prepare(c, bufs[n]))
    ensures Stored(c, st0, ino0, first, bufs, n + 1, st', ino')
  {
    hide EntryAt, Readable, Whole, Foreign, Lawful, EntryHas, Exclusive, Housed, Fits, Prepare, GrabRun, EntryFor,
         SparesOthers, LeaksNothing, Resize, SameChunk, Owns, Taken, CommitMany, ChunkAfter;
    SparesTrans(st0, ino0, st, ino, st', ino');
    var m := n + 1;
    forall k: nat | k < MAX_LOGICAL_BLOCKS ensures ChunkAfter(c, st0, ino0, first, bufs, m, st', ino', k) {
      assert ChunkAfter(c, st0, ino0, first, bufs, n, st, ino, k);
      if k == first + n {
        NewPlace(c, st0, ino0, first, bufs, n, st, ino, st', ino');
      } else {
        OldPlace(c, st0, ino0, first, bufs, n, m, st, ino, st', ino', k);
      }
    }
  }

  lemma NewPlace(c: Codec, st0: Store, ino0: Inode, first: nat, bufs: seq<seq<byte>>, n: nat, st: Store, ino: Inode,
                 st': Store, ino': Inode)
    requires Lawful(c) && StoreOk(st0) && AllChunks(bufs) && n < |bufs| && first + n < MAX_LOGICAL_BLOCKS
    requires CommitMany(c, st0, ino0, first, bufs, n).st == st && StoreOk(st) && Fits(Prepare(c, bufs[n]))
    requires ChunkAfter(c, st0, ino0, first, bufs, n, st, ino, first + n)
    requires ChunkPlaced(c, st, ino, first + n, Prepare(c, bufs[n]), st', ino')
    requires ChunkStored(c, st, ino, first + n, bufs[n], st', ino') <==> RunFits(st, Prepare(c, bufs[n]))
    ensures ChunkAfter(c, st0, ino0, first, bufs, n + 1, st', ino', first + n)
  {
    hide EntryAt, Readable, Whole, Foreign, Lawful, Exclusive, Fits, Prepare, GrabRun, EntryFor, EntryHas,
         SparesOthers, LeaksNothing, Resize, SameChunk, Taken, CommitMany, RunFits;
    var k := first + n;
    var e := EntryAt(st'.blocks, ino', k);
    assert e == RunEntry(c, st0, ino0, first, bufs, n);
    forall b: nat | EntryHas(EntryAt(st0.blocks, ino0, k), b) ensures !EntryHas(e, b) {
      assert Owns(st.blocks, ino, Chunk(k), b);
      ChunkOwns(st'.blocks, ino', k, b);
    }
  }

  /** A chunk whose entry stays, and whose blocks read as before. */
  lemma OldPlace(c: Codec, st0: Store, ino0: Inode, first: nat, bufs: seq<seq<byte>>, n: nat, m: nat, st: Store,
                 ino: Inode,
                 st': Store, ino': Inode, k: nat)
    requires Lawful(c) && StoreOk(st0) && AllChunks(bufs) && n <= m <= |bufs| && k < MAX_LOGICAL_BLOCKS
    requires ChunkAfter(c, st0, ino0, first, bufs, n, st, ino, k) && (first <= k < first + m ==> k < first + n)
    requires EntryAt(st'.blocks, ino', k) == EntryAt(st.blocks, ino, k)
    requires SameChunk(c, st.blocks, st'.blocks, EntryAt(st.blocks, ino, k))
    ensures ChunkAfter(c, st0, ino0, first, bufs, m, st', ino', k)
  {
    hide EntryAt, Readable, Whole, Lawful, EntryHas, Prepare, EntryFor, Resize, RunEntry, RunInside;
  }

  /** A commit that fails half way keeps all of it. */
  lemma StoredKept(c: Codec, st0: Store, ino0: Inode, first: nat, bufs: seq<seq<byte>>, n: nat, st: Store, ino: Inode,
                   st': Store, ino': Inode)
    requires Lawful(c) && StoreOk(st0) && AllChunks(bufs) && n <= |bufs|
    requires Stored(c, st0, ino0, first, bufs, n, st, ino)
    requires Keeps(st, ino, st', ino') && RootsGrow(ino, ino')
    ensures Stored(c, st0, ino0, first, bufs, n, st', ino')
  {
    hide EntryAt, Readable, Whole, Foreign, Lawful, FileOk, SparesOthers, LeaksNothing, SameChunk, ChunkAfter,
         SameChunks;
    assert SameShape(st, st') by { SparedShape(st, ino, st', ino'); }
    SparesTrans(st0, ino0, st, ino, st', ino');
    forall k: nat | k < MAX_LOGICAL_BLOCKS ensures ChunkAfter(c, st0, ino0, first, bufs, n, st', ino', k) {
      StillReads(c, st.blocks, ino, st'.blocks, k);
      OldPlace(c, st0, ino0, first, bufs, n, n, st, ino, st', ino', k);
    }
  }

  lemma SparedShape(st: Store, ino: Inode, st': Store, ino': Inode)
    requires SparesOthers(st, ino, st', ino')
    ensures SameShape(st, st')
  {
  }

  /** Every outcome of the loop, whether it got to its end or not. */
  lemma {:induction false} ManyStores(c: Codec, st: Store, ino: Inode, first: nat, bufs: seq<seq<byte>>, n: nat)
    requires Lawful(c) && FileOk(st, ino) && AllChunks(bufs) && n <= |bufs|
    ensures var r := CommitMany(c, st, ino, first, bufs, n);
            && Stored(c, st, ino, first, bufs, r.done, r.st, r.ino)
            && (r.ok ==> LeaksNothing(st, ino, r.st, r.ino))
            && (r.done > 0 ==> first + r.done <= MAX_LOGICAL_BLOCKS)
    decreases n
  {
    hide FileOk, Lawful, Stored, CommitStep, Prepare, LeaksNothing, Fits, ChunkPlaced, ChunkStored, RunFits, Keeps,
         RootsGrow;
    OkStore(st, ino);
    if n == 0 {
      StoredNone(c, st, ino, first, bufs);
      assert LeaksNothing(st, ino, st, ino) by { SparesRefl(st, ino); }
    } else {
      ManyStores(c, st, ino, first, bufs, n - 1);
      var prev := CommitMany(c, st, ino, first, bufs, n - 1);
      if prev.ok {
        var p := Prepare(c, bufs[n - 1]);
        PreparedFits(c, bufs[n - 1]);
        assert FileOk(prev.st, prev.ino) && SparesOthers(st, ino, prev.st, prev.ino) by {
          StoredOk(c, st, ino, first, bufs, n - 1, prev.st, prev.ino);
        }
        OkStore(prev.st, prev.ino);
        StepPlaces(c, prev.st, prev.ino, first + n - 1, p);
        var s := CommitStep(prev.st, prev.ino, first + n - 1, p);
        if s.ok {
          StepStores(c, prev.st, prev.ino, first + n - 1, bufs[n - 1]);
          StoredNext(c, st, ino, first, bufs, n - 1, prev.st, prev.ino, s.st, s.ino);
          PlacedLeaksNothing(c, prev.st, prev.ino, first + n - 1, p, s.st, s.ino);
          SparesTrans(st, ino, prev.st, prev.ino, s.st, s.ino);
        } else {
          StoredKept(c, st, ino, first, bufs, n - 1, prev.st, prev.ino, s.st, s.ino);
        }
      }
    }
  }

  lemma StoredOk(c: Codec, st0: Store, ino0: Inode, first: nat, bufs: seq<seq<byte>>, n: nat, st: Store, ino: Inode)
    requires Lawful(c) && StoreOk(st0) && AllChunks(bufs) && n <= |bufs|
    requires Stored(c, st0, ino0, first, bufs, n, st, ino)
    ensures FileOk(st, ino) && SparesOthers(st0, ino0, st, ino) && RootsGrow(ino0, ino)
  {
  }

  lemma PlacedLeaksNothing(c: Codec, st: Store, ino: Inode, k: nat, p: Prepared, st': Store, ino': Inode)
    requires k < MAX_LOGICAL_BLOCKS && StoreOk(st) && Fits(p) && ChunkPlaced(c, st, ino, k, p, st', ino')
    ensures SparesOthers(st, ino, st', ino') && LeaksNothing(st, ino, st', ino')
  {
    hide SparesOthers, LeaksNothing;
  }

  /** The file reads exactly if every run the loop took ends inside the image. */
  lemma ReadsIffInside(c: Codec, st: Store, ino: Inode, first: nat, bufs: seq<seq<byte>>, n: nat, st': Store,
                       ino': Inode)
    requires Lawful(c) && FileReadable(c, st, ino) && AllChunks(bufs) && n <= |bufs| && first + n <= MAX_LOGICAL_BLOCKS
    requires Stored(c, st, ino, first, bufs, n, st', ino')
    ensures AllReadable(c, st'.blocks, ino') <==> forall i :: 0 <= i < n ==> RunInside(c, st, ino, first, bufs, i)
  {
    hide EntryAt, Readable, Whole, Foreign, Lawful, FileOk, RunInside, RunEntry, CommitMany, FailsAt, EntryHas, Resize,
         SparesOthers, RootsGrow;
    OkStore(st, ino);
    assert |st'.blocks| == |st.blocks| by { SparedShape(st, ino, st', ino'); }
    forall i | 0 <= i < n && !RunInside(c, st, ino, first, bufs, i)
      ensures !Readable(c, st'.blocks, EntryAt(st'.blocks, ino', first + i))
    {
      assert ChunkAfter(c, st, ino, first, bufs, n, st', ino', first + i);
      OutsideEntry(c, st, ino, first, bufs, i, st'.blocks);
    }
    if forall i :: 0 <= i < n ==> RunInside(c, st, ino, first, bufs, i) {
      forall k: nat | k < MAX_LOGICAL_BLOCKS ensures Readable(c, st'.blocks, EntryAt(st'.blocks, ino', k)) {
        assert ChunkAfter(c, st, ino, first, bufs, n, st', ino', k);
      }
    }
  }

  lemma OutsideEntry(c: Codec, st: Store, ino: Inode, first: nat, bufs: seq<seq<byte>>, i: nat, blocks: Blocks)
    requires Lawful(c) && StoreOk(st) && AllChunks(bufs) && i < |bufs| && |blocks| == |st.blocks|
    requires !RunInside(c, st, ino, first, bufs, i)
    ensures forall valid :: valid >= |bufs[i]| ==>
              ReadEntry(c, blocks, RunEntry(c, st, ino, first, bufs, i), valid).None?
    ensures !Readable(c, blocks, RunEntry(c, st, ino, first, bufs, i))
  {
    hide GrabRun, EntryFor, CommitMany, Lawful, Prepare, ReadEntry;
    PreparedFits(c, bufs[i]);
    var p := Prepare(c, bufs[i]);
    var start := GrabRun(CommitMany(c, st, ino, first, bufs, i).st, p.count).value.1;
    OutsideUnreadable(c, bufs[i], blocks, start);
  }

  // ---------------------------------------------------------------------------
  // Room
  // ---------------------------------------------------------------------------

  /** A stretch of `n` free blocks lies at or after the hint and inside the image. */
  ghost predicate RoomAhead(st: Store, n: nat) {
    exists at: nat :: RoomAt(st, n, at)
  }

  predicate RoomAt(st: Store, n: nat, at: nat) {
    && HintBit(Some(st.hint), st.dataStart) <= at && at + n <= |st.used| && st.dataStart + at + n <= |st.blocks|
    && forall i :: at <= i < at + n ==> !st.used[i]
  }

  lemma GrabBlockRoom(st: Store, n: nat)
    requires RoomAhead(st, n + 1)
    ensures GrabBlock(st).Some? && RoomAhead(GrabBlock(st).value.0, n)
  {
    var at: nat :| RoomAt(st, n + 1, at);
    var bit := Bits.FirstFree(st.used, HintBit(Some(st.hint), st.dataStart));
    assert !st.used[at];
    var st' := GrabBlock(st).value.0;
    assert RoomAt(st', n, if bit.value < at then at else at + 1);
  }

  lemma GrabRunRoom(st: Store, count: nat, n: nat)
    requires count > 0 && RoomAhead(st, n + count)
    ensures var r := GrabRun(st, count);
            r.Some? && r.value.1 + count <= |st.blocks| && RoomAhead(r.value.0, n)
  {
    var at: nat :| RoomAt(st, n + count, at);
    var hint := HintBit(Some(st.hint), st.dataStart);
    var bit := Bits.FirstFit(st.used, hint, count);
    assert Bits.FreeRun(st.used, at, count);
    assert bit.Some? && hint <= bit.value <= at;
    var st' := GrabRun(st, count).value.0;
    assert RoomAt(st', n, if bit.value + count < at then at else bit.value + count);
  }

  lemma FreeRunRoom(st: Store, start: nat, count: nat, n: nat)
    requires RoomAhead(st, n)
    ensures RoomAhead(FreeRun(st, start, count), n)
  {
    var at: nat :| RoomAt(st, n, at);
    assert RoomAt(FreeRun(st, start, count), n, at);
  }

  lemma SameRoom(st: Store, blocks: Blocks, n: nat)
    requires RoomAhead(st, n) && |blocks| == |st.blocks|
    ensures RoomAhead(st.(blocks := blocks), n)
  {
    var at: nat :| RoomAt(st, n, at);
    assert RoomAt(st.(blocks := blocks), n, at);
  }

  lemma {:induction false} LessRoom(st: Store, m: nat, n: nat)
    requires RoomAhead(st, n) && m <= n
    ensures RoomAhead(st, m)
  {
    var at: nat :| RoomAt(st, n, at);
    assert RoomAt(st, m, at);
  }

  lemma {:induction false} EnsureTableRoom(st: Store, ino: Inode, p: Pos, n: nat)
    requires InTree(p) && !p.Leaf? && StoreOk(st) && RoomAhead(st, n + Rank(p) + 1)
    ensures EnsureTable(st, ino, p).2.Some? && RoomAhead(EnsureTable(st, ino, p).0, n)
    decreases Rank(p)
  {
    hide GrabBlock, RoomAhead, Slot, WriteSlot;
    match Up(p)
    case None =>
      GrabBlockRoom(st, n + Rank(p));
      LessRoom(st, n, n + Rank(p) + 1);
      LessRoom(GrabBlock(st).value.0, n, n + Rank(p));
    case Some((t, s)) =>
      LessRoom(st, n + 1 + Rank(t) + 1, n + Rank(p) + 1);
      EnsureTableRoom(st, ino, t, n + 1);
      var (st1, _, parent) := EnsureTable(st, ino, t);
      LessRoom(st1, n, n + 1);
      GrabBlockRoom(st1, n);
      var (st2, b) := GrabBlock(st1).value;
      SameRoom(st2, WriteSlot(st2.blocks, parent.value, s, b), n);
  }

  lemma SetEntryRoom(st: Store, ino: Inode, k: nat, raw: u64, n: nat)
    requires k < MAX_LOGICAL_BLOCKS && StoreOk(st) && RoomAhead(st, n + 3)
    ensures SetEntry(st, ino, k, raw).2 && RoomAhead(SetEntry(st, ino, k, raw).0, n)
  {
    hide EnsureTable, RoomAhead, WriteSlot;
    LessRoom(st, n, n + 3);
    match Up(Leaf(k))
    case None =>
    case Some((t, s)) =>
      LessRoom(st, n + Rank(t) + 1, n + 3);
      EnsureTableRoom(st, ino, t, n);
      var (st', _, table) := EnsureTable(st, ino, t);
      SameRoom(st', WriteSlot(st'.blocks, table.value, s, raw), n);
  }

  /** Sixteen blocks for the chunk and three for pointer blocks are enough for a commit. */
  const PER_CHUNK := 19

  lemma StepRoom(st: Store, ino: Inode, k: nat, p: Prepared, n: nat)
    requires k < MAX_LOGICAL_BLOCKS && StoreOk(st) && Fits(p) && RoomAhead(st, n + PER_CHUNK)
    ensures CommitStep(st, ino, k, p).ok && RunFits(st, p) && RoomAhead(CommitStep(st, ino, k, p).st, n)
  {
    hide GrabRun, SetEntry, RoomAhead, EntryFor, EntryOf, FreeRun, Lay, EntryStart, EntryCount, EntryIsEmpty;
    LessRoom(st, n + 3 + p.count, n + PER_CHUNK);
    GrabRunRoom(st, p.count, n + 3);
    var (st1, start) := GrabRun(st, p.count).value;
    SameRoom(st1, Lay(st1.blocks, start, p), n + 3);
    var st2 := st1.(blocks := Lay(st1.blocks, start, p));
    SetEntryRoom(st2, ino, k, EntryFor(start, p), n);
    var e := EntryOf(st2.blocks, ino, k);
    FreeRunRoom(SetEntry(st2, ino, k, EntryFor(start, p)).0, EntryStart(e), EntryCount(e), n);
  }

  /** With that much room ahead of the hint, every commit gets to its end and every run ends inside the
      image. */
  lemma {:induction false} EnoughRoom(c: Codec, st: Store, ino: Inode, first: nat, bufs: seq<seq<byte>>, n: nat,
                                      spare: nat)
    requires Lawful(c) && StoreOk(st) && AllChunks(bufs) && n <= |bufs| && first + n <= MAX_LOGICAL_BLOCKS
    requires RoomAhead(st, PER_CHUNK * n + spare)
    ensures var r := CommitMany(c, st, ino, first, bufs, n);
            r.ok && RoomAhead(r.st, spare) && forall i :: 0 <= i < n ==> RunInside(c, st, ino, first, bufs, i)
    decreases n
  {
    hide Lawful, CommitStep, Prepare, RoomAhead, RunFits, Fits;
    if n > 0 {
      assert PER_CHUNK * n + spare == PER_CHUNK * (n - 1) + (spare + PER_CHUNK);
      EnoughRoom(c, st, ino, first, bufs, n - 1, spare + PER_CHUNK);
      var prev := CommitMany(c, st, ino, first, bufs, n - 1);
      PreparedFits(c, bufs[n - 1]);
      StepRoom(prev.st, prev.ino, first + n - 1, Prepare(c, bufs[n - 1]), spare);
    }
  }

  // ---------------------------------------------------------------------------
  // A loop that stopped early
  // ---------------------------------------------------------------------------

  ghost predicate NamesBlocks(e: nat) {
    !EntryIsEmpty(e) && EntryCount(e) > 0
  }

  /** The tree below a pointer of the stored inode is the one of the inode in memory; where the stored
      inode has no pointer, it shows nothing, before and after. */
  lemma {:induction false} StoredView(rd: Reader, rd': Reader, ino: Inode, ino': Inode, q: Pos)
    requires InTree(q) && RootsGrow(ino, ino') && (q.Leaf? ==> q.k >= 10)
    ensures Node(rd', ino, q) == Node(rd', ino', q) || (Node(rd', ino, q) == 0 && Node(rd, ino, q) == 0)
    decreases Rank(q)
  {
    if Up(q).Some? {
      StoredView(rd, rd', ino, ino', Up(q).value.0);
    }
  }

  /** After any outcome of the loop, and as long as the inode on disk is still the old one: the entry of a
      committed chunk still names the run that was released exactly if it is one of the ten direct ones. */
  lemma StaleIffDirect(c: Codec, st: Store, ino: Inode, first: nat, bufs: seq<seq<byte>>, k: nat)
    requires Lawful(c) && FileOk(st, ino) && AllChunks(bufs) && k < MAX_LOGICAL_BLOCKS
    requires NamesBlocks(EntryAt(st.blocks, ino, k))
    requires first <= k < first + CommitMany(c, st, ino, first, bufs, |bufs|).done
    ensures var r := CommitMany(c, st, ino, first, bufs, |bufs|);
            && (EntryAt(r.st.blocks, ino, k) == EntryAt(st.blocks, ino, k) <==> k < 10)
            && (forall b: nat :: EntryHas(EntryAt(st.blocks, ino, k), b) ==> !Owns(r.st.blocks, r.ino, Chunk(k), b))
  {
    hide Lawful, CommitMany, FileOk, Exclusive, Housed, Foreign, Readable, Whole, SparesOthers, RunEntry, RunInside,
         SameChunk, EntryStart, EntryCount, EntryIsEmpty, Node, EntryAt;
    OkStore(st, ino);
    ManyStores(c, st, ino, first, bufs, |bufs|);
    var r := CommitMany(c, st, ino, first, bufs, |bufs|);
    assert ChunkAfter(c, st, ino, first, bufs, r.done, r.st, r.ino, k);
    var e := EntryAt(st.blocks, ino, k);
    assert EntryHas(e, EntryStart(e));
    assert EntryAt(r.st.blocks, r.ino, k) != e;
    if k < 10 {
      DirectEntry(st.blocks, ino, k);
      DirectEntry(r.st.blocks, ino, k);
    } else {
      StoredEntry(st.blocks, r.st.blocks, ino, r.ino, k);
      EmptyNamesNothing();
    }
  }

  lemma DirectEntry(blocks: Blocks, ino: Inode, k: nat)
    requires k < 10
    ensures EntryAt(blocks, ino, k) == ino.blocks[k]
  {
  }

  lemma StoredEntry(blocks: Blocks, blocks': Blocks, ino: Inode, ino': Inode, k: nat)
    requires 10 <= k < MAX_LOGICAL_BLOCKS && RootsGrow(ino, ino')
    ensures || EntryAt(blocks', ino, k) == EntryAt(blocks', ino', k)
            || (EntryAt(blocks', ino, k) == 0 && EntryAt(blocks, ino, k) == 0)
  {
    hide Node;
    StoredView(Slots(blocks), Slots(blocks'), ino, ino', Leaf(k));
  }

  lemma EmptyNamesNothing()
    ensures EntryIsEmpty(0)
  {
  }
}
