/** After an in-place pass the volume is compact: its planned blocks are, in plan order, exactly
    the first blocks of the data area, it is well formed again, and a second pass moves nothing. */
module Compaction {
  import opened Sizes
  import opened PointerTree
  import opened Layout
  import opened Relocate
  import opened DefragTheory

  ghost function MapBlocks(f: Moves, s: seq<nat>): (r: seq<nat>)
    ensures |r| == |s|
  {
    seq(|s|, i requires 0 <= i < |s| => if s[i] in f then f[s[i]] else s[i])
  }

  ghost function MapSlots(f: Moves, e: Moves, s: seq<nat>): (r: seq<nat>)
    ensures |r| == |s|
  {
    seq(|s|, i requires 0 <= i < |s| => LookupNew(f, e, s[i]))
  }

  lemma MapBlocksConcat(f: Moves, a: seq<nat>, b: seq<nat>)
    ensures MapBlocks(f, a + b) == MapBlocks(f, a) + MapBlocks(f, b)
  {
  }

  lemma MapSlotsConcat(f: Moves, e: Moves, a: seq<nat>, b: seq<nat>)
    ensures MapSlots(f, e, a + b) == MapSlots(f, e, a) + MapSlots(f, e, b)
  {
  }

  // ---------------------------------------------------------------------------
  // Relabelled trees
  // ---------------------------------------------------------------------------

  lemma {:induction false} LeavesRelocated(rd: Reader, rd': Reader, f: Moves, e: Moves, root: nat, depth: nat)
    requires TablesMoved(rd, rd', f, e, Tables(rd, root, depth))
    ensures RawLeaves(rd', LookupNew(f, e, root), depth) == MapSlots(f, e, RawLeaves(rd, root, depth))
    decreases depth, SLOTS + 1
  {
    hide TableMoved, LookupNew;
    if depth > 0 && root != 0 {
      RootMoved(rd, rd', f, e, root, depth);
      SlotLeavesRelocated(rd, rd', f, e, root, depth, SLOTS);
    } else {
      LookupZero(f, e);
    }
  }

  lemma LookupZero(f: Moves, e: Moves)
    ensures LookupNew(f, e, 0) == 0
  {
  }

  lemma RootMoved(rd: Reader, rd': Reader, f: Moves, e: Moves, root: nat, depth: nat)
    requires depth > 0 && root != 0
    requires TablesMoved(rd, rd', f, e, Tables(rd, root, depth))
    ensures TableMoved(rd, rd', f, e, root)
    ensures root in f && LookupNew(f, e, root) == f[root] != 0
  {
    hide SlotTables;
    assert Tables(rd, root, depth)[0] == root;
  }

  lemma ChildMoved(rd: Reader, rd': Reader, f: Moves, e: Moves, root: nat, depth: nat, slot: nat)
    requires depth > 0 && root != 0 && slot < SLOTS
    requires TablesMoved(rd, rd', f, e, Tables(rd, root, depth))
    ensures root in f && rd'(f[root], slot) == LookupNew(f, e, rd(root, slot))
    ensures TablesMoved(rd, rd', f, e, Tables(rd, rd(root, slot), depth - 1))
  {
    hide SlotTables, LookupNew;
    RootMoved(rd, rd', f, e, root, depth);
    forall t | t in Tables(rd, rd(root, slot), depth - 1) ensures TableMoved(rd, rd', f, e, t) {
      SlotTablesContain(rd, root, depth, SLOTS, slot, t);
      assert t in Tables(rd, root, depth);
    }
  }

  lemma {:induction false} SlotLeavesRelocated(rd: Reader, rd': Reader, f: Moves, e: Moves, root: nat, depth: nat,
                                               n: nat)
    requires depth > 0 && root != 0 && n <= SLOTS
    requires TablesMoved(rd, rd', f, e, Tables(rd, root, depth))
    ensures root in f && SlotLeaves(rd', f[root], depth, n) == MapSlots(f, e, SlotLeaves(rd, root, depth, n))
    decreases depth, n
  {
    hide TableMoved, LookupNew, Tables, TablesMoved, RawLeaves, MapSlots;
    RootMoved(rd, rd', f, e, root, depth);
    if n == 0 {
      MapSlotsEmpty(f, e);
    } else {
      SlotLeavesRelocated(rd, rd', f, e, root, depth, n - 1);
      ChildMoved(rd, rd', f, e, root, depth, n - 1);
      LeavesRelocated(rd, rd', f, e, rd(root, n - 1), depth - 1);
      MapSlotsConcat(f, e, SlotLeaves(rd, root, depth, n - 1), RawLeaves(rd, rd(root, n - 1), depth - 1));
    }
  }

  lemma MapSlotsEmpty(f: Moves, e: Moves)
    ensures MapSlots(f, e, []) == [] && MapBlocks(f, []) == []
  {
  }

  lemma {:induction false} TablesRelocated(rd: Reader, rd': Reader, f: Moves, e: Moves, root: nat, depth: nat)
    requires TablesMoved(rd, rd', f, e, Tables(rd, root, depth))
    ensures Tables(rd', LookupNew(f, e, root), depth) == MapBlocks(f, Tables(rd, root, depth))
    decreases depth, SLOTS + 1
  {
    hide TableMoved, LookupNew;
    if depth > 0 && root != 0 {
      RootMoved(rd, rd', f, e, root, depth);
      SlotTablesRelocated(rd, rd', f, e, root, depth, SLOTS);
      MapBlocksConcat(f, [root], SlotTables(rd, root, depth, SLOTS));
    } else {
      LookupZero(f, e);
    }
  }

  lemma {:induction false} SlotTablesRelocated(rd: Reader, rd': Reader, f: Moves, e: Moves, root: nat, depth: nat,
                                               n: nat)
    requires depth > 0 && root != 0 && n <= SLOTS
    requires TablesMoved(rd, rd', f, e, Tables(rd, root, depth))
    ensures root in f && SlotTables(rd', f[root], depth, n) == MapBlocks(f, SlotTables(rd, root, depth, n))
    decreases depth, n
  {
    hide TableMoved, LookupNew, Tables, TablesMoved, MapBlocks;
    RootMoved(rd, rd', f, e, root, depth);
    if n == 0 {
      MapSlotsEmpty(f, e);
    } else {
      SlotTablesRelocated(rd, rd', f, e, root, depth, n - 1);
      ChildMoved(rd, rd', f, e, root, depth, n - 1);
      TablesRelocated(rd, rd', f, e, rd(root, n - 1), depth - 1);
      MapBlocksConcat(f, SlotTables(rd, root, depth, n - 1), Tables(rd, rd(root, n - 1), depth - 1));
    }
  }

  // ---------------------------------------------------------------------------
  // Relabelled inodes
  // ---------------------------------------------------------------------------

  lemma SubtreeMoved(rd: Reader, rd': Reader, f: Moves, e: Moves, ino: Inode, p: BlockPath)
    requires SlotsInBounds(p)
    requires TablesMoved(rd, rd', f, e, InodeTables(rd, ino))
    ensures var root, root', d := RootOf(ino, p), RootOf(RewriteInode(f, e, ino), p), |PathOf(p)|;
            && RawLeaves(rd', root', d) == MapSlots(f, e, RawLeaves(rd, root, d))
            && Tables(rd', root', d) == MapBlocks(f, Tables(rd, root, d))
  {
    hide RootOf, PathOf, RewriteInode, LookupNew, TablesMoved, Tables, RawLeaves, InodeTables, MapSlots, MapBlocks;
    RootRelocated(rd, rd', f, e, ino, p);
    LeavesRelocated(rd, rd', f, e, RootOf(ino, p), |PathOf(p)|);
    TablesRelocated(rd, rd', f, e, RootOf(ino, p), |PathOf(p)|);
  }

  lemma DirectMoved(f: Moves, e: Moves, ino: Inode)
    ensures RewriteInode(f, e, ino).blocks[..10] == MapSlots(f, e, ino.blocks[..10])
  {
  }

  lemma InodeTreeMoved(rd: Reader, rd': Reader, f: Moves, e: Moves, ino: Inode)
    requires TablesMoved(rd, rd', f, e, InodeTables(rd, ino))
    ensures InodeLeaves(rd', RewriteInode(f, e, ino)) == MapSlots(f, e, InodeLeaves(rd, ino))
    ensures InodeTables(rd', RewriteInode(f, e, ino)) == MapBlocks(f, InodeTables(rd, ino))
  {
    hide RewriteInode, LookupNew, TablesMoved, Tables, RawLeaves, MapSlots, MapBlocks;
    var ino' := RewriteInode(f, e, ino);
    DirectMoved(f, e, ino);
    SubtreeMoved(rd, rd', f, e, ino, Single(0));
    SubtreeMoved(rd, rd', f, e, ino, Double(0, 0));
    SubtreeMoved(rd, rd', f, e, ino, Triple(0, 0, 0));
    var d, l1, l2, l3 := ino.blocks[..10], RawLeaves(rd, ino.blocks[10], 1), RawLeaves(rd, ino.blocks[11], 2),
      RawLeaves(rd, ino.tripleIndirect, 3);
    MapSlotsConcat(f, e, d + l1 + l2, l3);
    MapSlotsConcat(f, e, d + l1, l2);
    MapSlotsConcat(f, e, d, l1);
    var t1, t2, t3 := Tables(rd, ino.blocks[10], 1), Tables(rd, ino.blocks[11], 2), Tables(rd, ino.tripleIndirect, 3);
    MapBlocksConcat(f, t1 + t2, t3);
    MapBlocksConcat(f, t1, t2);
  }

  ghost predicate LeafMoves(f: Moves, e: Moves, sk: bool, raw: nat) {
    LeafBlocks(sk, LookupNew(f, e, raw)) == MapBlocks(f, LeafBlocks(sk, raw))
  }

  lemma {:induction false} ExpandRelocated(f: Moves, e: Moves, sk: bool, raws: seq<nat>)
    requires forall raw :: raw in raws ==> LeafMoves(f, e, sk, raw)
    ensures Expand(sk, MapSlots(f, e, raws)) == MapBlocks(f, Expand(sk, raws))
  {
    hide LeafBlocks, LookupNew, MapBlocks;
    if raws == [] {
      MapSlotsEmpty(f, e);
    } else {
      var n := |raws| - 1;
      var image := MapSlots(f, e, raws);
      assert image[..n] == MapSlots(f, e, raws[..n]) && image[n] == LookupNew(f, e, raws[n]);
      ExpandRelocated(f, e, sk, raws[..n]);
      assert raws[n] in raws;
      MapBlocksConcat(f, Expand(sk, raws[..n]), LeafBlocks(sk, raws[n]));
    }
  }

  /** The leaf slots of a live inode still name their own runs after relocation. */
  lemma LeafRelocated(v: Volume, v': Volume, live: seq<nat>, dataStart: nat, f: Moves, e: Moves, id: nat, raw: nat)
    requires Relocation(v, v', live, dataStart, f, e)
    requires id in live && id < |v.inodes|
    requires raw in InodeLeaves(Rd(v.blocks), v.inodes[id])
    ensures LeafMoves(f, e, v.inodes[id].seekable, raw)
  {
    hide Relocation, InodeLeaves;
    if raw == 0 {
    } else if !v.inodes[id].seekable {
      LeafRunMoves(v, v', live, dataStart, f, e, id, raw);
      assert LeafBlocks(false, raw)[0] == raw;
      DestinationInImage(v, v', live, dataStart, f, e, raw);
    } else if EntryIsEmpty(raw) {
      EmptyEntryStaysEmpty(v, v', live, dataStart, f, e, id, raw);
    } else {
      EntryLeafRelocated(v, v', live, dataStart, f, e, id, raw);
    }
  }

  lemma EntryLeafRelocated(v: Volume, v': Volume, live: seq<nat>, dataStart: nat, f: Moves, e: Moves, id: nat, raw: nat)
    requires Relocation(v, v', live, dataStart, f, e)
    requires id in live && id < |v.inodes| && v.inodes[id].seekable
    requires raw in InodeLeaves(Rd(v.blocks), v.inodes[id]) && !EntryIsEmpty(raw)
    ensures LeafMoves(f, e, true, raw)
  {
    hide Relocation, InodeLeaves, EntryStart, EntryCount, EntryFlags, EntryLen, MovedBlock;
    SeekableImageIsSmall(v, v', live, dataStart, f, e, id);
    EntryIsNoBlock(v, v', live, dataStart, f, e, raw);
    var start, count := EntryStart(raw), EntryCount(raw);
    var run := LeafBlocks(true, raw);
    if count > 0 {
      LeafRunMoves(v, v', live, dataStart, f, e, id, raw);
      ChunkIsMapped(v, v', live, dataStart, f, e, id, raw);
      RunIsMapped(v, v', live, dataStart, f, e, id, raw);
    }
    if raw in e {
      MappedEntry(v, v', live, dataStart, f, e, raw);
    }
  }

  lemma EntryIsNoBlock(v: Volume, v': Volume, live: seq<nat>, dataStart: nat, f: Moves, e: Moves, raw: nat)
    requires Relocation(v, v', live, dataStart, f, e)
    requires !EntryIsEmpty(raw) && |v.blocks| <= 0x1_0000_0000
    ensures raw !in f && raw != 0
  {
    hide Relocation;
    NonEmptyEntryIsLarge(raw);
    if raw in f {
      DestinationInImage(v, v', live, dataStart, f, e, raw);
    }
  }

  /** Consecutive planned blocks get consecutive targets. */
  lemma RunIsMapped(v: Volume, v': Volume, live: seq<nat>, dataStart: nat, f: Moves, e: Moves, id: nat, raw: nat)
    requires Relocation(v, v', live, dataStart, f, e)
    requires id in live && id < |v.inodes| && v.inodes[id].seekable
    requires raw in InodeLeaves(Rd(v.blocks), v.inodes[id])
    requires !EntryIsEmpty(raw) && EntryCount(raw) > 0 && EntryStart(raw) in f
    ensures MapBlocks(f, LeafBlocks(true, raw)) == Run(f[EntryStart(raw)], EntryCount(raw))
  {
    hide NoDup, WellFormedInode, PlannedTables, InodeLeaves, EntriesComplete, IsEntryMap, Defragmented,
      EntryStart, EntryCount, EntryFlags, EntryLen, Planned;
    var run, layout := LeafBlocks(true, raw), Planned(v, live);
    var at := LeafRunIsPlanned(v, live, dataStart, id, raw);
    forall i | 0 <= i < |run| ensures MapBlocks(f, run)[i] == dataStart + at + i {
      assert run[i] == layout[at..at + |run|][i] == layout[at + i];
    }
    assert run[0] == EntryStart(raw);
    assert MapBlocks(f, run)[0] == f[run[0]];
  }

  lemma LayoutRelocated(v: Volume, v': Volume, live: seq<nat>, dataStart: nat, f: Moves, e: Moves, id: nat)
    requires Relocation(v, v', live, dataStart, f, e)
    requires id in live && id < |v.inodes| == |v'.inodes|
    ensures InodeLayout(Rd(v'.blocks), v'.inodes[id]) == MapBlocks(f, InodeLayout(Rd(v.blocks), v.inodes[id]))
  {
    hide Relocation, Expand, InodeLeaves, InodeTables, MapBlocks, MapSlots, TablesMoved, LeafMoves;
    var rd, rd', ino := Rd(v.blocks), Rd(v'.blocks), v.inodes[id];
    InodeRewritten(v, v', live, dataStart, f, e, id);
    InodeTablesMove(v, v', live, dataStart, f, e, id);
    InodeTreeMoved(rd, rd', f, e, ino);
    forall raw | raw in InodeLeaves(rd, ino) ensures LeafMoves(f, e, ino.seekable, raw) {
      LeafRelocated(v, v', live, dataStart, f, e, id, raw);
    }
    ExpandRelocated(f, e, ino.seekable, InodeLeaves(rd, ino));
    MapBlocksConcat(f, Expand(ino.seekable, InodeLeaves(rd, ino)), InodeTables(rd, ino));
  }

  // ---------------------------------------------------------------------------
  // The compact volume
  // ---------------------------------------------------------------------------

  ghost predicate SameShape(a: seq<Inode>, b: seq<Inode>) {
    |a| == |b| && forall id :: 0 <= id < |a| ==> a[id].mode == b[id].mode && a[id].size == b[id].size
  }

  lemma {:induction false} SameOrder(a: seq<Inode>, b: seq<Inode>, live: seq<nat>)
    requires SameShape(a, b) && ValidIds(live, a)
    ensures ValidIds(live, b) && Directories(a, live) == Directories(b, live) && Files(a, live) == Files(b, live)
  {
    if live != [] {
      SameOrder(a, b, live[..|live| - 1]);
    }
  }

  lemma ShapeKept(v: Volume, v': Volume, live: seq<nat>, dataStart: nat, f: Moves, e: Moves)
    requires Relocation(v, v', live, dataStart, f, e)
    ensures ValidIds(live, v.inodes) && SameShape(v.inodes, v'.inodes)
    ensures ValidIds(live, v'.inodes) && Order(v', live) == Order(v, live)
  {
    hide NoDup, WellFormedInode, Planned, IsPlan, IsEntryMap, EntriesComplete;
    SameOrder(v.inodes, v'.inodes, live);
  }

  lemma {:induction false} LayoutUpToRelocated(v: Volume, v': Volume, live: seq<nat>, dataStart: nat, f: Moves,
                                               e: Moves,
                                               order: seq<nat>, n: nat)
    requires Relocation(v, v', live, dataStart, f, e)
    requires |v.inodes| == |v'.inodes| && ValidIds(order, v.inodes) && n <= |order|
    requires forall id :: id in order ==> id in live
    ensures LayoutUpTo(Rd(v'.blocks), v'.inodes, order, n) == MapBlocks(f, LayoutUpTo(Rd(v.blocks), v.inodes, order, n))
  {
    hide Relocation, InodeLayout, MapBlocks;
    if n == 0 {
      MapSlotsEmpty(f, e);
    } else {
      LayoutUpToRelocated(v, v', live, dataStart, f, e, order, n - 1);
      assert order[n - 1] in order;
      LayoutRelocated(v, v', live, dataStart, f, e, order[n - 1]);
      MapBlocksConcat(f, LayoutUpTo(Rd(v.blocks), v.inodes, order, n - 1),
                      InodeLayout(Rd(v.blocks), v.inodes[order[n - 1]]));
    }
  }

  lemma OrderIsLive(v: Volume, live: seq<nat>)
    requires ValidIds(live, v.inodes)
    ensures forall id :: id in Order(v, live) ==> id in live
  {
    DirectoriesExact(v.inodes, live);
    FilesExact(v.inodes, live);
  }

  /** The planned blocks of the new volume are the first blocks of the data area, in plan order. */
  lemma PlannedIsCompact(v: Volume, v': Volume, live: seq<nat>, dataStart: nat, f: Moves, e: Moves)
    requires Relocation(v, v', live, dataStart, f, e)
    requires ValidIds(live, v.inodes) && ValidIds(live, v'.inodes)
    ensures Planned(v', live) == Run(dataStart, |Planned(v, live)|)
  {
    hide NoDup, WellFormedInode, IsEntryMap, EntriesComplete, Defragmented, LayoutUpTo, Order;
    ShapeKept(v, v', live, dataStart, f, e);
    OrderIsLive(v, live);
    LayoutUpToRelocated(v, v', live, dataStart, f, e, Order(v, live), |Order(v, live)|);
  }

  lemma CompactIsWellFormed(v: Volume, v': Volume, live: seq<nat>, dataStart: nat, f: Moves, e: Moves)
    requires Relocation(v, v', live, dataStart, f, e)
    ensures WellFormed(v', live, dataStart)
  {
    hide NoDup, IsEntryMap, EntriesComplete, IsPlan, LayoutUpTo, Order, InodeLayout, RewriteBlock;
    ShapeKept(v, v', live, dataStart, f, e);
    PlannedIsCompact(v, v', live, dataStart, f, e);
    PlanFits(Planned(v, live), dataStart, |v.blocks|);
    RunNoDup(dataStart, |Planned(v, live)|);
    forall id | id in live && id < |v'.inodes| ensures WellFormedInode(v', v'.inodes[id]) {
      assert WellFormedInode(v, v.inodes[id]);
      LayoutRelocated(v, v', live, dataStart, f, e, id);
      MapSlotsEmpty(f, e);
    }
  }

  lemma RunNoDup(start: nat, count: nat)
    ensures NoDup(Run(start, count))
  {
  }

  /** Defragmentation is idempotent: any plan for the compact volume is the identity. */
  lemma SecondPassMovesNothing(v: Volume, v': Volume, live: seq<nat>, dataStart: nat, f: Moves, e: Moves, f': Moves)
    requires Relocation(v, v', live, dataStart, f, e)
    requires ValidIds(live, v'.inodes) && IsPlan(f', Planned(v', live), dataStart)
    ensures forall b :: b in f' ==> f'[b] == b
  {
    hide Relocation, Planned;
    ShapeKept(v, v', live, dataStart, f, e);
    PlannedIsCompact(v, v', live, dataStart, f, e);
    var run := Run(dataStart, |Planned(v, live)|);
    forall b | b in f' ensures f'[b] == b {
      var i :| 0 <= i < |run| && run[i] == b;
    }
  }
}
