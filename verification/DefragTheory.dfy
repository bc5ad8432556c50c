/** What in-place defragmentation does to a volume and why every file keeps its contents
    (src/disk.rs, `defragment_inplace_on`): the planned relocation, the permuted image, the
    rewritten pointers, and the theorem that ties them together. */
module DefragTheory {
  import opened Sizes
  import opened PointerTree
  import opened Layout
  import opened Relocate

  ghost predicate NoDup(s: seq<nat>) {
    forall i, j :: 0 <= i < j < |s| ==> s[i] != s[j]
  }

  function Elements(s: seq<nat>): set<nat> {
    set x | x in s
  }

  ghost predicate ValidIds(ids: seq<nat>, inodes: seq<Inode>) {
    forall k :: 0 <= k < |ids| ==> ids[k] < |inodes|
  }

  // ---------------------------------------------------------------------------
  // The plan: directories first, then non-empty files
  // ---------------------------------------------------------------------------

  ghost function Directories(inodes: seq<Inode>, live: seq<nat>): seq<nat>
    requires ValidIds(live, inodes)
  {
    if live == [] then []
    else
      var n := |live| - 1;
      Directories(inodes, live[..n]) + (if inodes[live[n]].mode.Directory? then [live[n]] else [])
  }

  ghost function Files(inodes: seq<Inode>, live: seq<nat>): seq<nat>
    requires ValidIds(live, inodes)
  {
    if live == [] then []
    else
      var n := |live| - 1;
      Files(inodes, live[..n]) + (if inodes[live[n]].mode.File? && inodes[live[n]].size > 0 then [live[n]] else [])
  }

  lemma {:induction false} DirectoriesExact(inodes: seq<Inode>, live: seq<nat>)
    requires ValidIds(live, inodes)
    ensures ValidIds(Directories(inodes, live), inodes)
    ensures forall id :: id in Directories(inodes, live) <==> id in live && id < |inodes| && inodes[id].mode.Directory?
  {
    if live != [] {
      var n := |live| - 1;
      DirectoriesExact(inodes, live[..n]);
      assert live == live[..n] + [live[n]];
    }
  }

  lemma {:induction false} FilesExact(inodes: seq<Inode>, live: seq<nat>)
    requires ValidIds(live, inodes)
    ensures ValidIds(Files(inodes, live), inodes)
    ensures forall id :: id in Files(inodes, live) <==>
                         id in live && id < |inodes| && inodes[id].mode.File? && inodes[id].size > 0
  {
    if live != [] {
      var n := |live| - 1;
      FilesExact(inodes, live[..n]);
      assert live == live[..n] + [live[n]];
    }
  }

  /** The blocks of the first `n` inodes of `order`, as they are assigned consecutive targets. */
  ghost function LayoutUpTo(rd: Reader, inodes: seq<Inode>, order: seq<nat>, n: nat): seq<nat>
    requires ValidIds(order, inodes) && n <= |order|
  {
    if n == 0 then []
    else LayoutUpTo(rd, inodes, order, n - 1) + InodeLayout(rd, inodes[order[n - 1]])
  }

  ghost function TablesUpTo(rd: Reader, inodes: seq<Inode>, order: seq<nat>, n: nat): set<nat>
    requires ValidIds(order, inodes) && n <= |order|
  {
    if n == 0 then {}
    else TablesUpTo(rd, inodes, order, n - 1) + Elements(InodeTables(rd, inodes[order[n - 1]]))
  }

  ghost function PayloadOf(rd: Reader, ino: Inode): seq<nat> {
    Expand(ino.seekable, InodeLeaves(rd, ino))
  }

  lemma {:induction false} LayoutContains(rd: Reader, inodes: seq<Inode>, order: seq<nat>, n: nat, k: nat)
    returns (at: nat)
    requires ValidIds(order, inodes) && k < n <= |order|
    ensures SubseqAt(LayoutUpTo(rd, inodes, order, n), InodeLayout(rd, inodes[order[k]]), at)
  {
    hide InodeLayout;
    if k == n - 1 {
      at := |LayoutUpTo(rd, inodes, order, n - 1)|;
    } else {
      at := LayoutContains(rd, inodes, order, n - 1, k);
    }
  }

  lemma {:induction false} TablesUpToExact(rd: Reader, inodes: seq<Inode>, order: seq<nat>, n: nat, t: nat)
    requires ValidIds(order, inodes) && n <= |order|
    ensures t in TablesUpTo(rd, inodes, order, n) <==>
            exists k :: 0 <= k < n && t in InodeTables(rd, inodes[order[k]])
  {
    hide InodeTables;
    if n != 0 {
      TablesUpToExact(rd, inodes, order, n - 1, t);
    }
  }

  /** Without duplicates, no payload block is also a pointer table, whatever inodes they belong to. */
  lemma {:induction false} PayloadIsNoTable(rd: Reader, inodes: seq<Inode>, order: seq<nat>, n: nat, k: nat, b: nat)
    requires ValidIds(order, inodes) && k < n <= |order|
    requires NoDup(LayoutUpTo(rd, inodes, order, n))
    requires b in PayloadOf(rd, inodes[order[k]])
    ensures b !in TablesUpTo(rd, inodes, order, n)
    ensures b in LayoutUpTo(rd, inodes, order, n)
  {
    hide Expand, InodeLeaves, InodeTables;
    var prev, ino := LayoutUpTo(rd, inodes, order, n - 1), inodes[order[n - 1]];
    var mine := InodeLayout(rd, ino);
    NoDupSplit(prev, mine);
    NoDupSplit(PayloadOf(rd, ino), InodeTables(rd, ino));
    if k < n - 1 {
      PayloadIsNoTable(rd, inodes, order, n - 1, k, b);
      assert b !in mine;
    } else {
      assert b in mine;
      if b in TablesUpTo(rd, inodes, order, n - 1) {
        TableIsPlanned(rd, inodes, order, n - 1, b);
      }
    }
  }

  lemma NoDupSplit(a: seq<nat>, b: seq<nat>)
    requires NoDup(a + b)
    ensures NoDup(a) && NoDup(b) && forall x :: x in a ==> x !in b
  {
    forall i, j | 0 <= i < j < |a| ensures a[i] != a[j] { assert (a + b)[i] == a[i] && (a + b)[j] == a[j]; }
    forall i, j | 0 <= i < j < |b| ensures b[i] != b[j] { assert (a + b)[|a| + i] == b[i] && (a + b)[|a| + j] == b[j]; }
    forall i, j | 0 <= i < |a| && 0 <= j < |b| ensures a[i] != b[j] {
      assert (a + b)[i] == a[i] && (a + b)[|a| + j] == b[j];
    }
  }

  lemma {:induction false} TableIsPlanned(rd: Reader, inodes: seq<Inode>, order: seq<nat>, n: nat, t: nat)
    requires ValidIds(order, inodes) && n <= |order|
    requires t in TablesUpTo(rd, inodes, order, n)
    ensures t in LayoutUpTo(rd, inodes, order, n)
  {
    hide Expand, InodeLeaves, InodeTables;
    if t in TablesUpTo(rd, inodes, order, n - 1) {
      TableIsPlanned(rd, inodes, order, n - 1, t);
    } else {
      assert t in InodeLayout(rd, inodes[order[n - 1]]);
    }
  }

  // ---------------------------------------------------------------------------
  // Relocation maps
  // ---------------------------------------------------------------------------

  /** `f` sends the i-th planned block to the i-th block of the data area. */
  ghost predicate IsPlan(f: Moves, layout: seq<nat>, dataStart: nat) {
    && (forall b :: b in f <==> b in layout)
    && (forall i :: 0 <= i < |layout| ==> layout[i] in f && f[layout[i]] == dataStart + i)
  }

  /** The entry of a relocated chunk: same count, flags and length, new start block (cast to 32 bits). */
  ghost function MovedEntry(f: Moves, raw: nat): nat
    requires EntryStart(raw) in f
  {
    PackEntry(f[EntryStart(raw)] % 0x1_0000_0000, EntryCount(raw), EntryFlags(raw), EntryLen(raw))
  }

  ghost predicate IsEntryMap(e: Moves, f: Moves) {
    forall raw :: raw in e ==> !EntryIsEmpty(raw) && EntryStart(raw) in f && e[raw] == MovedEntry(f, raw)
  }

  /** The new value of a pointer slot: block ids through `f`, packed entries through `e`. */
  function LookupNew(f: Moves, e: Moves, v: nat): nat {
    if v == 0 then 0 else if v in f then f[v] else if v in e then e[v] else v
  }

  function LookupRoot(f: Moves, v: nat): nat {
    if v != 0 && v in f then f[v] else v
  }

  function RewriteBlock(f: Moves, e: Moves, b: Block): Block {
    seq(SLOTS, i requires 0 <= i < SLOTS => LookupNew(f, e, b[i]))
  }

  function RewriteInode(f: Moves, e: Moves, ino: Inode): Inode {
    ino.(blocks := seq(12, i requires 0 <= i < 12 =>
                     if i < 10 then LookupNew(f, e, ino.blocks[i]) else LookupRoot(f, ino.blocks[i])),
         tripleIndirect := LookupRoot(f, ino.tripleIndirect))
  }

  /** Table `t` has moved to `f[t]` with every slot relabelled. */
  ghost predicate TableMoved(rd: Reader, rd': Reader, f: Moves, e: Moves, t: nat) {
    t in f && f[t] != 0 && forall slot :: 0 <= slot < SLOTS ==> rd'(f[t], slot) == LookupNew(f, e, rd(t, slot))
  }

  ghost predicate TablesMoved(rd: Reader, rd': Reader, f: Moves, e: Moves, tables: seq<nat>) {
    forall t :: t in tables ==> TableMoved(rd, rd', f, e, t)
  }

  /** Relabelling a tree relabels every walk through it. */
  lemma {:induction false} WalkRelocated(rd: Reader, rd': Reader, f: Moves, e: Moves, root: nat, path: seq<nat>)
    requires forall k :: 0 <= k < |path| ==> path[k] < SLOTS
    requires TablesMoved(rd, rd', f, e, Tables(rd, root, |path|))
    ensures Walk(rd', LookupNew(f, e, root), path) == LookupNew(f, e, Walk(rd, root, path))
    decreases |path|
  {
    if path == [] {
    } else if root == 0 {
      WalkFromHole(rd, path[1..]);
      WalkFromHole(rd', path[1..]);
    } else {
      var tables := Tables(rd, root, |path|);
      assert tables[0] == root;
      var child := rd(root, path[0]);
      forall t | t in Tables(rd, child, |path| - 1) ensures t in tables {
        SlotTablesContain(rd, root, |path|, SLOTS, path[0], t);
      }
      assert TableMoved(rd, rd', f, e, root);
      WalkRelocated(rd, rd', f, e, child, path[1..]);
    }
  }

  // ---------------------------------------------------------------------------
  // Volumes
  // ---------------------------------------------------------------------------

  /** The image as blocks, and the inode table. */
  datatype Volume = Volume(blocks: seq<Block>, inodes: seq<Inode>)

  ghost function Order(v: Volume, live: seq<nat>): (r: seq<nat>)
    requires ValidIds(live, v.inodes)
    ensures ValidIds(r, v.inodes)
  {
    DirectoriesExact(v.inodes, live);
    FilesExact(v.inodes, live);
    Directories(v.inodes, live) + Files(v.inodes, live)
  }

  ghost function Planned(v: Volume, live: seq<nat>): seq<nat>
    requires ValidIds(live, v.inodes)
  {
    LayoutUpTo(Rd(v.blocks), v.inodes, Order(v, live), |Order(v, live)|)
  }

  ghost function PlannedTables(v: Volume, live: seq<nat>): set<nat>
    requires ValidIds(live, v.inodes)
  {
    TablesUpTo(Rd(v.blocks), v.inodes, Order(v, live), |Order(v, live)|)
  }

  /** Every reachable block is a data block named by exactly one slot; files that own blocks have a
      size; directories hold plain pointers; chunk entries can name every block. */
  ghost predicate WellFormed(v: Volume, live: seq<nat>, dataStart: nat) {
    && ValidIds(live, v.inodes)
    && 0 < dataStart <= |v.blocks|
    && NoDup(Planned(v, live))
    && (forall b :: b in Planned(v, live) ==> dataStart <= b < |v.blocks|)
    && (forall id :: id in live && id < |v.inodes| ==> WellFormedInode(v, v.inodes[id]))
  }

  ghost predicate WellFormedInode(v: Volume, ino: Inode) {
    && (ino.mode.File? && ino.size == 0 ==> InodeLayout(Rd(v.blocks), ino) == [])
    && (ino.mode.Directory? ==> !ino.seekable)
    && (ino.seekable ==> |v.blocks| <= 0x1_0000_0000)
  }

  /** `e` covers every planned chunk entry. */
  ghost predicate EntriesComplete(v: Volume, live: seq<nat>, f: Moves, e: Moves) {
    forall id, raw ::
      && id in live && id < |v.inodes| && v.inodes[id].seekable && v.inodes[id].size > 0
      && raw in InodeLeaves(Rd(v.blocks), v.inodes[id]) && !EntryIsEmpty(raw) && EntryStart(raw) in f
      ==> raw in e
  }

  /** The outcome of relocating and rewriting: planned block `b` now sits at `f[b]`, relabelled if it
      is a pointer table, and live inodes are relabelled. */
  ghost predicate Defragmented(v: Volume, v': Volume, live: seq<nat>, f: Moves, e: Moves) {
    && ValidIds(live, v.inodes)
    && |v'.blocks| == |v.blocks| && |v'.inodes| == |v.inodes|
    && (forall id :: 0 <= id < |v.inodes| ==>
          v'.inodes[id] == if id in live then RewriteInode(f, e, v.inodes[id]) else v.inodes[id])
    && (forall b :: b in f && b < |v.blocks| && f[b] < |v.blocks| ==>
          v'.blocks[f[b]] == if b in PlannedTables(v, live) then RewriteBlock(f, e, v.blocks[b]) else v.blocks[b])
  }

  /** Logical block (or chunk) `idx` means the same in both volumes. */
  ghost predicate SameContents(v: Volume, v': Volume, id: nat, idx: nat)
    requires id < |v.inodes| == |v'.inodes|
  {
    var r, r' := Resolve(Rd(v.blocks), v.inodes[id], idx), Resolve(Rd(v'.blocks), v'.inodes[id], idx);
    if v.inodes[id].seekable then SameChunk(v, v', r, r') else SameBlock(v, v', r, r')
  }

  ghost predicate SameBlock(v: Volume, v': Volume, r: nat, r': nat) {
    if r == 0 then r' == 0
    else r' != 0 && r < |v.blocks| && r' < |v'.blocks| && v'.blocks[r'] == v.blocks[r]
  }

  ghost predicate SameChunk(v: Volume, v': Volume, r: nat, r': nat) {
    && (EntryIsEmpty(r) <==> EntryIsEmpty(r'))
    && (!EntryIsEmpty(r) ==>
          && EntryCount(r') == EntryCount(r) && EntryFlags(r') == EntryFlags(r) && EntryLen(r') == EntryLen(r)
          && SameRun(v, v', EntryStart(r), EntryStart(r'), EntryCount(r)))
  }

  ghost predicate SameRun(v: Volume, v': Volume, start: nat, start': nat, count: nat) {
    count == 0 ||
    (start + count <= |v.blocks| && start' + count <= |v'.blocks| &&
     v'.blocks[start'..start' + count] == v.blocks[start..start + count])
  }

  // ---------------------------------------------------------------------------
  // Contents are preserved
  // ---------------------------------------------------------------------------

  /** A live inode that owns anything is in the plan, and its layout is one contiguous piece of it. */
  lemma OwnerIsPlanned(v: Volume, live: seq<nat>, dataStart: nat, id: nat) returns (k: nat, at: nat)
    requires WellFormed(v, live, dataStart)
    requires id in live && id < |v.inodes| && InodeLayout(Rd(v.blocks), v.inodes[id]) != []
    ensures k < |Order(v, live)| && Order(v, live)[k] == id
    ensures SubseqAt(Planned(v, live), InodeLayout(Rd(v.blocks), v.inodes[id]), at)
    ensures v.inodes[id].mode.File? ==> v.inodes[id].size > 0
  {
    hide InodeLayout, NoDup, LayoutUpTo, TablesUpTo;
    DirectoriesExact(v.inodes, live);
    FilesExact(v.inodes, live);
    assert WellFormedInode(v, v.inodes[id]);
    var order := Order(v, live);
    assert id in order by {
      if v.inodes[id].mode.Directory? {
        assert id in Directories(v.inodes, live);
      } else {
        assert id in Files(v.inodes, live);
      }
    }
    k :| 0 <= k < |order| && order[k] == id;
    at := LayoutContains(Rd(v.blocks), v.inodes, order, |order|, k);
  }

  lemma PlanOfMember(f: Moves, layout: seq<nat>, dataStart: nat, b: nat, limit: nat)
    requires IsPlan(f, layout, dataStart) && NoDup(layout)
    requires b in layout
    requires forall x :: x in layout ==> dataStart <= x < limit
    ensures b in f && dataStart <= f[b] < limit
  {
    var i :| 0 <= i < |layout| && layout[i] == b;
    PlanFits(layout, dataStart, limit);
  }

  /** Distinct data blocks cannot outnumber the data area. */
  lemma PlanFits(layout: seq<nat>, dataStart: nat, limit: nat)
    requires NoDup(layout)
    requires forall x :: x in layout ==> dataStart <= x < limit
    ensures layout != [] ==> dataStart + |layout| <= limit
  {
    if layout != [] {
      assert layout[0] in layout;
      var all := Run(dataStart, limit - dataStart);
      NoDupSize(all);
      NoDupSize(layout);
      forall x | x in layout ensures x in all { assert all[x - dataStart] == x; }
      SubsetSize(Elements(layout), Elements(all));
    }
  }

  lemma {:induction false} NoDupSize(s: seq<nat>)
    requires NoDup(s)
    ensures |Elements(s)| == |s|
  {
    if s == [] {
      assert Elements(s) == {};
    } else {
      var n := |s| - 1;
      NoDupSize(s[..n]);
      assert Elements(s) == Elements(s[..n]) + {s[n]};
      assert s[n] !in s[..n];
    }
  }

  lemma SubsetSize<T>(a: set<T>, b: set<T>)
    requires a <= b
    ensures |a| <= |b|
  {
    assert b == a + (b - a);
    assert |b| == |a| + |b - a|;
  }

  /** All that the proof of preservation knows about the two volumes. */
  ghost predicate Relocation(v: Volume, v': Volume, live: seq<nat>, dataStart: nat, f: Moves, e: Moves) {
    && WellFormed(v, live, dataStart)
    && IsPlan(f, Planned(v, live), dataStart)
    && IsEntryMap(e, f)
    && EntriesComplete(v, live, f, e)
    && Defragmented(v, v', live, f, e)
  }

  lemma PlannedBlockMoves(v: Volume, v': Volume, live: seq<nat>, dataStart: nat, f: Moves, e: Moves, b: nat)
    requires Relocation(v, v', live, dataStart, f, e)
    requires b in Planned(v, live)
    ensures b in f && 0 < f[b] < |v.blocks| == |v'.blocks| && 0 < b < |v.blocks|
    ensures v'.blocks[f[b]] == if b in PlannedTables(v, live) then RewriteBlock(f, e, v.blocks[b]) else v.blocks[b]
  {
    hide Planned, PlannedTables, RewriteBlock, RewriteInode, EntriesComplete, IsEntryMap, NoDup;
    PlanOfMember(f, Planned(v, live), dataStart, b, |v.blocks|);
  }

  lemma InodeTablesMove(v: Volume, v': Volume, live: seq<nat>, dataStart: nat, f: Moves, e: Moves, id: nat)
    requires Relocation(v, v', live, dataStart, f, e)
    requires id in live && id < |v.inodes|
    ensures TablesMoved(Rd(v.blocks), Rd(v'.blocks), f, e, InodeTables(Rd(v.blocks), v.inodes[id]))
  {
    hide Relocation, Planned, PlannedTables, WellFormed, Tables, Expand;
    var rd, rd' := Rd(v.blocks), Rd(v'.blocks);
    var tables := InodeTables(rd, v.inodes[id]);
    forall t | t in tables ensures TableMoved(rd, rd', f, e, t) {
      TableMoves(v, v', live, dataStart, f, e, id, t);
    }
  }

  lemma TableMoves(v: Volume, v': Volume, live: seq<nat>, dataStart: nat, f: Moves, e: Moves, id: nat, t: nat)
    requires Relocation(v, v', live, dataStart, f, e)
    requires id in live && id < |v.inodes| && t in InodeTables(Rd(v.blocks), v.inodes[id])
    ensures TableMoved(Rd(v.blocks), Rd(v'.blocks), f, e, t)
  {
    hide Planned, PlannedTables, WellFormed, InodeTables, Expand, LookupNew;
    var k := TableIsInPlan(v, live, dataStart, id, t);
    PlannedBlockMoves(v, v', live, dataStart, f, e, t);
    assert v'.blocks[f[t]] == RewriteBlock(f, e, v.blocks[t]);
  }

  lemma TableIsInPlan(v: Volume, live: seq<nat>, dataStart: nat, id: nat, t: nat) returns (k: nat)
    requires WellFormed(v, live, dataStart)
    requires id in live && id < |v.inodes| && t in InodeTables(Rd(v.blocks), v.inodes[id])
    ensures t in Planned(v, live) && t in PlannedTables(v, live)
  {
    hide NoDup, WellFormedInode, Expand, InodeLeaves, InodeTables;
    var rd, order := Rd(v.blocks), Order(v, live);
    assert t in InodeLayout(rd, v.inodes[id]);
    var at;
    k, at := OwnerIsPlanned(v, live, dataStart, id);
    TablesUpToExact(rd, v.inodes, order, |order|, t);
    TableIsPlanned(rd, v.inodes, order, |order|, t);
  }

  /** Resolution commutes with relabelling, at every index of every live inode. */
  lemma ResolveRelocated(v: Volume, v': Volume, live: seq<nat>, dataStart: nat, f: Moves, e: Moves, id: nat, idx: nat)
    requires Relocation(v, v', live, dataStart, f, e)
    requires id in live && id < |v.inodes| == |v'.inodes|
    ensures Resolve(Rd(v'.blocks), v'.inodes[id], idx) == LookupNew(f, e, Resolve(Rd(v.blocks), v.inodes[id], idx))
  {
    hide Relocation, Walk, Tables, TablesMoved, Resolve, FromLogical, RootOf, RewriteInode, PathOf, InodeTables;
    var rd, rd' := Rd(v.blocks), Rd(v'.blocks);
    var ino, ino' := v.inodes[id], v'.inodes[id];
    if idx >= MAX_LOGICAL_BLOCKS {
      ResolveBeyondEnd(rd, ino, idx);
      ResolveBeyondEnd(rd', ino', idx);
    } else {
      InodeRewritten(v, v', live, dataStart, f, e, id);
      InodeTablesMove(v, v', live, dataStart, f, e, id);
      ResolveIsWalk(rd, ino, idx);
      ResolveIsWalk(rd', ino', idx);
      var p := FromLogical(idx).value;
      var root, path := RootOf(ino, p), PathOf(p);
      RootRelocated(rd, rd', f, e, ino, p);
      PathInBounds(p);
      WalkRelocated(rd, rd', f, e, root, path);
    }
  }

  lemma PathInBounds(p: BlockPath)
    requires SlotsInBounds(p)
    ensures forall k :: 0 <= k < |PathOf(p)| ==> PathOf(p)[k] < SLOTS
  {
  }

  lemma ResolveBeyondEnd(rd: Reader, ino: Inode, idx: nat)
    requires idx >= MAX_LOGICAL_BLOCKS
    ensures Resolve(rd, ino, idx) == 0
  {
  }

  lemma InodeRewritten(v: Volume, v': Volume, live: seq<nat>, dataStart: nat, f: Moves, e: Moves, id: nat)
    requires Relocation(v, v', live, dataStart, f, e)
    requires id in live && id < |v.inodes| == |v'.inodes|
    ensures v'.inodes[id] == RewriteInode(f, e, v.inodes[id])
  {
    hide WellFormed, Planned, EntriesComplete, IsPlan, IsEntryMap, RewriteInode;
  }

  lemma RootRelocated(rd: Reader, rd': Reader, f: Moves, e: Moves, ino: Inode, p: BlockPath)
    requires SlotsInBounds(p)
    requires TablesMoved(rd, rd', f, e, InodeTables(rd, ino))
    ensures RootOf(RewriteInode(f, e, ino), p) == LookupNew(f, e, RootOf(ino, p))
    ensures TablesMoved(rd, rd', f, e, Tables(rd, RootOf(ino, p), |PathOf(p)|))
  {
    hide Tables, InodeTables, TableMoved;
    RootTablesOwned(rd, ino, p);
    if !p.Direct? && RootOf(ino, p) != 0 {
      RootIsTable(rd, RootOf(ino, p), |PathOf(p)|);
      TableMovedIsPlanned(rd, rd', f, e, RootOf(ino, p));
    }
  }

  lemma TableMovedIsPlanned(rd: Reader, rd': Reader, f: Moves, e: Moves, t: nat)
    requires TableMoved(rd, rd', f, e, t)
    ensures t in f
  {
  }

  lemma RootIsTable(rd: Reader, root: nat, depth: nat)
    requires depth > 0 && root != 0
    ensures root in Tables(rd, root, depth)
  {
  }

  lemma RootTablesOwned(rd: Reader, ino: Inode, p: BlockPath)
    requires SlotsInBounds(p)
    ensures forall t :: t in Tables(rd, RootOf(ino, p), |PathOf(p)|) ==> t in InodeTables(rd, ino)
  {
    if p.Direct? {
      assert Tables(rd, RootOf(ino, p), 0) == [];
    }
  }

  /** A payload run of a live inode is planned as consecutive positions, none of them a table. */
  lemma LeafRunIsPlanned(v: Volume, live: seq<nat>, dataStart: nat, id: nat, raw: nat) returns (at: nat)
    requires WellFormed(v, live, dataStart)
    requires id in live && id < |v.inodes|
    requires raw in InodeLeaves(Rd(v.blocks), v.inodes[id])
    requires LeafBlocks(v.inodes[id].seekable, raw) != []
    ensures v.inodes[id].mode.File? ==> v.inodes[id].size > 0
    ensures SubseqAt(Planned(v, live), LeafBlocks(v.inodes[id].seekable, raw), at)
    ensures forall b :: b in LeafBlocks(v.inodes[id].seekable, raw) ==> b !in PlannedTables(v, live)
  {
    hide NoDup, Planned, PlannedTables, LeafBlocks, Expand, InodeLeaves, InodeTables, Order, WellFormedInode;
    var rd, ino := Rd(v.blocks), v.inodes[id];
    var run, payload := LeafBlocks(ino.seekable, raw), PayloadOf(rd, ino);
    var at0 := ExpandContains(ino.seekable, InodeLeaves(rd, ino), raw);
    SubseqKept(payload, InodeTables(rd, ino), run, at0);
    var k, at1 := OwnerIsPlanned(v, live, dataStart, id);
    SubseqTrans(Planned(v, live), InodeLayout(rd, ino), run, at1, at0);
    at := at1 + at0;
    forall b | b in run ensures b !in PlannedTables(v, live) {
      SubseqMember(payload, run, at0, b);
      PayloadUntabled(v, live, dataStart, k, b);
    }
  }

  lemma SubseqMember(s: seq<nat>, u: seq<nat>, at: nat, b: nat)
    requires SubseqAt(s, u, at) && b in u
    ensures b in s
  {
    var i :| 0 <= i < |u| && u[i] == b;
    assert s[at..at + |u|][i] == s[at + i];
  }

  /** ... so the whole run lands, in order, at the new place of its first block. */
  lemma LeafRunMoves(v: Volume, v': Volume, live: seq<nat>, dataStart: nat, f: Moves, e: Moves, id: nat, raw: nat)
    requires Relocation(v, v', live, dataStart, f, e)
    requires id in live && id < |v.inodes|
    requires raw in InodeLeaves(Rd(v.blocks), v.inodes[id])
    requires LeafBlocks(v.inodes[id].seekable, raw) != []
    ensures v.inodes[id].mode.File? ==> v.inodes[id].size > 0
    ensures var run := LeafBlocks(v.inodes[id].seekable, raw);
            run[0] in f && forall i :: 0 <= i < |run| ==> MovedBlock(v, v', run[i], f[run[0]] + i)
  {
    hide NoDup, WellFormedInode, Planned, PlannedTables, LeafBlocks, InodeLeaves, EntriesComplete, IsEntryMap,
         Defragmented;
    var run, layout := LeafBlocks(v.inodes[id].seekable, raw), Planned(v, live);
    var at := LeafRunIsPlanned(v, live, dataStart, id, raw);
    assert run[0] == layout[at..at + |run|][0] == layout[at];
    forall i | 0 <= i < |run| ensures MovedBlock(v, v', run[i], f[run[0]] + i) {
      assert run[i] == layout[at..at + |run|][i] == layout[at + i];
      PlannedBlockMoves(v, v', live, dataStart, f, e, run[i]);
    }
  }

  ghost predicate MovedBlock(v: Volume, v': Volume, b: nat, b': nat) {
    0 < b < |v.blocks| == |v'.blocks| && 0 < b' < |v.blocks| && v'.blocks[b'] == v.blocks[b]
  }

  lemma SubseqTrans(s: seq<nat>, t: seq<nat>, u: seq<nat>, at: nat, at0: nat)
    requires SubseqAt(s, t, at) && at0 + |u| <= |t| && t[at0..at0 + |u|] == u
    ensures SubseqAt(s, u, at + at0)
    ensures forall i :: 0 <= i < |u| ==> s[at + at0 + i] == u[i]
  {
    forall i | 0 <= i < |u| ensures s[at + at0 + i] == u[i] {
      assert s[at + at0 + i] == s[at..at + |t|][at0 + i] == t[at0 + i] == t[at0..at0 + |u|][i];
    }
    assert s[at + at0..at + at0 + |u|] == u;
  }

  lemma PayloadUntabled(v: Volume, live: seq<nat>, dataStart: nat, k: nat, b: nat)
    requires WellFormed(v, live, dataStart)
    requires k < |Order(v, live)| && b in PayloadOf(Rd(v.blocks), v.inodes[Order(v, live)[k]])
    ensures b in Planned(v, live) && b !in PlannedTables(v, live)
  {
    hide NoDup, PayloadOf;
    PayloadIsNoTable(Rd(v.blocks), v.inodes, Order(v, live), |Order(v, live)|, k, b);
  }

  /** Defragmentation preserves every logical block and every chunk of every live inode. */
  lemma ContentsPreserved(v: Volume, v': Volume, live: seq<nat>, dataStart: nat, f: Moves, e: Moves, id: nat, idx: nat)
    requires Relocation(v, v', live, dataStart, f, e)
    requires id in live && id < |v.inodes| == |v'.inodes|
    ensures SameContents(v, v', id, idx)
  {
    var ino := v.inodes[id];
    var r := Resolve(Rd(v.blocks), ino, idx);
    ResolveRelocated(v, v', live, dataStart, f, e, id, idx);
    if r != 0 {
      ResolvedLeafIsOwned(Rd(v.blocks), ino, idx);
      if !ino.seekable {
        PlainLeafPreserved(v, v', live, dataStart, f, e, id, r);
      } else if EntryIsEmpty(r) {
        EmptyEntryStaysEmpty(v, v', live, dataStart, f, e, id, r);
      } else {
        ChunkPreserved(v, v', live, dataStart, f, e, id, r);
      }
    }
  }

  lemma PlainLeafPreserved(v: Volume, v': Volume, live: seq<nat>, dataStart: nat, f: Moves, e: Moves, id: nat, r: nat)
    requires Relocation(v, v', live, dataStart, f, e)
    requires id in live && id < |v.inodes| && !v.inodes[id].seekable
    requires r != 0 && r in InodeLeaves(Rd(v.blocks), v.inodes[id])
    ensures SameBlock(v, v', r, LookupNew(f, e, r))
  {
    hide Relocation, InodeLeaves;
    LeafRunMoves(v, v', live, dataStart, f, e, id, r);
    assert LeafBlocks(false, r)[0] == r;
  }

  lemma DestinationInImage(v: Volume, v': Volume, live: seq<nat>, dataStart: nat, f: Moves, e: Moves, b: nat)
    requires Relocation(v, v', live, dataStart, f, e)
    requires b in f
    ensures 0 < f[b] < |v.blocks| && b < |v.blocks|
  {
    hide WellFormed, Planned, EntriesComplete, Defragmented, IsEntryMap;
    PlannedBlockMoves(v, v', live, dataStart, f, e, b);
  }

  lemma SeekableImageIsSmall(v: Volume, v': Volume, live: seq<nat>, dataStart: nat, f: Moves, e: Moves, id: nat)
    requires Relocation(v, v', live, dataStart, f, e)
    requires id in live && id < |v.inodes| && v.inodes[id].seekable
    ensures |v.blocks| <= 0x1_0000_0000 && v.inodes[id].mode.File?
  {
    hide Planned, NoDup, EntriesComplete, Defragmented, IsEntryMap, IsPlan;
    assert WellFormedInode(v, v.inodes[id]);
  }

  lemma EmptyEntryStaysEmpty(v: Volume, v': Volume, live: seq<nat>, dataStart: nat, f: Moves, e: Moves, id: nat, r: nat)
    requires Relocation(v, v', live, dataStart, f, e)
    requires id in live && id < |v.inodes| && v.inodes[id].seekable
    requires EntryIsEmpty(r)
    ensures EntryIsEmpty(LookupNew(f, e, r))
  {
    hide WellFormed, Planned, EntriesComplete, Defragmented, IsPlan;
    SeekableImageIsSmall(v, v', live, dataStart, f, e, id);
    if r in f {
      DestinationInImage(v, v', live, dataStart, f, e, r);
    }
  }

  /** A chunk entry with blocks has been entered in the map of relocated entries. */
  lemma ChunkIsMapped(v: Volume, v': Volume, live: seq<nat>, dataStart: nat, f: Moves, e: Moves, id: nat, r: nat)
    requires Relocation(v, v', live, dataStart, f, e)
    requires id in live && id < |v.inodes| && v.inodes[id].seekable && v.inodes[id].size > 0
    requires !EntryIsEmpty(r) && EntryStart(r) in f && r in InodeLeaves(Rd(v.blocks), v.inodes[id])
    ensures r in e
  {
    hide WellFormed, Planned, Defragmented, IsPlan, IsEntryMap, InodeLeaves, EntryIsEmpty;
  }

  lemma MappedEntry(v: Volume, v': Volume, live: seq<nat>, dataStart: nat, f: Moves, e: Moves, r: nat)
    requires Relocation(v, v', live, dataStart, f, e)
    requires r in e && |v.blocks| <= 0x1_0000_0000
    ensures !EntryIsEmpty(e[r]) && EntryStart(r) in f && EntryStart(e[r]) == f[EntryStart(r)]
    ensures EntryCount(e[r]) == EntryCount(r) && EntryFlags(e[r]) == EntryFlags(r) && EntryLen(e[r]) == EntryLen(r)
  {
    hide WellFormed, Planned, Defragmented, IsPlan, EntriesComplete, MovedEntry, EntryIsEmpty, EntryStart, EntryCount,
      EntryFlags, EntryLen;
    DestinationInImage(v, v', live, dataStart, f, e, EntryStart(r));
    MovedEntryFields(f, r);
  }

  lemma MovedEntryFields(f: Moves, raw: nat)
    requires !EntryIsEmpty(raw) && EntryStart(raw) in f && f[EntryStart(raw)] < 0x1_0000_0000
    ensures var m := MovedEntry(f, raw);
            && !EntryIsEmpty(m) && EntryStart(m) == f[EntryStart(raw)]
            && EntryCount(m) == EntryCount(raw) && EntryFlags(m) == EntryFlags(raw) && EntryLen(m) == EntryLen(raw)
  {
    hide EntryStart, EntryCount, EntryFlags, EntryLen, PackEntry;
    EntryRoundTrip(f[EntryStart(raw)], EntryCount(raw), EntryFlags(raw), EntryLen(raw));
  }

  lemma ChunkPreserved(v: Volume, v': Volume, live: seq<nat>, dataStart: nat, f: Moves, e: Moves, id: nat, r: nat)
    requires Relocation(v, v', live, dataStart, f, e)
    requires id in live && id < |v.inodes| && v.inodes[id].seekable
    requires !EntryIsEmpty(r) && r in InodeLeaves(Rd(v.blocks), v.inodes[id])
    ensures SameChunk(v, v', r, LookupNew(f, e, r))
  {
    hide Relocation, InodeLeaves, MovedBlock, EntryIsEmpty, EntryStart, EntryCount, EntryFlags, EntryLen;
    SeekableImageIsSmall(v, v', live, dataStart, f, e, id);
    NonEmptyEntryIsLarge(r);
    if r in f {
      DestinationInImage(v, v', live, dataStart, f, e, r);
    }
    var start, count := EntryStart(r), EntryCount(r);
    if count > 0 {
      assert LeafBlocks(true, r) == Run(start, count);
      LeafRunMoves(v, v', live, dataStart, f, e, id, r);
      ChunkIsMapped(v, v', live, dataStart, f, e, id, r);
      RunFromPoints(v, v', Run(start, count), start, f[start], count);
    }
    if r in e {
      MappedEntry(v, v', live, dataStart, f, e, r);
    }
  }

  lemma RunFromPoints(v: Volume, v': Volume, run: seq<nat>, start: nat, start': nat, count: nat)
    requires count > 0 && run == Run(start, count)
    requires forall i :: 0 <= i < count ==> MovedBlock(v, v', run[i], start' + i)
    ensures SameRun(v, v', start, start', count)
  {
    assert MovedBlock(v, v', run[count - 1], start' + (count - 1));
    var a, b := v.blocks[start..start + count], v'.blocks[start'..start' + count];
    forall i | 0 <= i < count ensures a[i] == b[i] {
      assert MovedBlock(v, v', run[i], start' + i);
    }
  }
}
