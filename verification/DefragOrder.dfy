/** Where everything lies after a pass, in terms of the inodes' own indices and pointer positions. */
module DefragOrder {
  import opened PointerTree
  import opened Layout
  import opened LogicalOrder
  import opened TableOrder
  import opened DefragTheory

  // ---------------------------------------------------------------------------
  // A volume that is laid out
  // ---------------------------------------------------------------------------

  ghost predicate Owns(v: Volume, id: nat, b: nat)
    requires id < |v.inodes|
  {
    IsPayload(Rd(v.blocks), v.inodes[id], b) || IsPointerBlock(Rd(v.blocks), v.inodes[id], b)
  }

  /** Payload in logical order and without gaps, pointer blocks behind it in the order of their positions. */
  ghost predicate InodeLaidOut(rd: Reader, ino: Inode) {
    && InLogicalOrder(rd, ino) && TablesInOrder(rd, ino)
    && forall b: nat, t: nat :: IsPayload(rd, ino, b) && IsPointerBlock(rd, ino, t) ==> b < t
  }

  /** Directories come before files, and each in the order of their ids. */
  predicate PlacedBefore(inodes: seq<Inode>, i: nat, j: nat)
    requires i < |inodes| && j < |inodes|
  {
    if inodes[i].mode == inodes[j].mode then i < j else inodes[i].mode.Directory?
  }

  ghost predicate InUse(v: Volume, live: seq<nat>, b: nat) {
    exists id :: id in live && id < |v.inodes| && Owns(v, id, b)
  }

  /** Every live inode is laid out, one after the other, and together they fill the blocks from `start` to `end`. */
  ghost predicate LaidOut(v: Volume, live: seq<nat>, start: nat, end: nat) {
    && ValidIds(live, v.inodes)
    && (forall id :: id in live && id < |v.inodes| ==> InodeLaidOut(Rd(v.blocks), v.inodes[id]))
    && (forall i, j :: i in live && j in live && i < |v.inodes| && j < |v.inodes| && PlacedBefore(v.inodes, i, j) ==>
          forall b: nat, c: nat :: Owns(v, i, b) && Owns(v, j, c) ==> b < c)
    && (forall b: nat :: InUse(v, live, b) <==> start <= b < end)
  }

  lemma OwnsIs(v: Volume, id: nat, b: nat)
    requires id < |v.inodes|
    ensures Owns(v, id, b) <==> b in InodeLayout(Rd(v.blocks), v.inodes[id])
  {
    hide Expand, InodeLeaves, InodeTables;
    PayloadIs(Rd(v.blocks), v.inodes[id], b);
    TablesAre(Rd(v.blocks), v.inodes[id], b);
  }

  // ---------------------------------------------------------------------------
  // The order of the inodes
  // ---------------------------------------------------------------------------

  ghost predicate Increasing(s: seq<nat>) {
    forall i, j :: 0 <= i < j < |s| ==> s[i] < s[j]
  }

  lemma {:induction false} DirectoriesInOrder(inodes: seq<Inode>, live: seq<nat>)
    requires ValidIds(live, inodes) && Increasing(live)
    ensures Increasing(Directories(inodes, live)) && Increasing(Files(inodes, live))
    ensures forall id :: id in Directories(inodes, live) ==> id in live
    ensures forall id :: id in Files(inodes, live) ==> id in live
  {
    if live != [] {
      var n := |live| - 1;
      var d, f := Directories(inodes, live[..n]), Files(inodes, live[..n]);
      DirectoriesInOrder(inodes, live[..n]);
      forall i | 0 <= i < |d| ensures d[i] < live[n] { assert d[i] in live[..n]; }
      forall i | 0 <= i < |f| ensures f[i] < live[n] { assert f[i] in live[..n]; }
    }
  }

  lemma OrderIsSorted(v: Volume, live: seq<nat>, i: nat, j: nat)
    requires ValidIds(live, v.inodes) && Increasing(live) && i < j < |Order(v, live)|
    ensures Order(v, live)[i] < |v.inodes| && Order(v, live)[j] < |v.inodes|
    ensures PlacedBefore(v.inodes, Order(v, live)[i], Order(v, live)[j])
  {
    DirectoriesInOrder(v.inodes, live);
    DirectoriesExact(v.inodes, live);
    FilesExact(v.inodes, live);
    var d, f, o := Directories(v.inodes, live), Files(v.inodes, live), Order(v, live);
    if i < |d| { assert o[i] in d; } else { assert o[i] in f; }
    if j < |d| { assert o[j] in d; } else { assert o[j] in f; }
  }

  // ---------------------------------------------------------------------------
  // From the plan
  // ---------------------------------------------------------------------------

  lemma {:induction false} LayoutAt(rd: Reader, inodes: seq<Inode>, order: seq<nat>, n: nat, k: nat, i: nat)
    requires ValidIds(order, inodes) && k < n <= |order| && i < |InodeLayout(rd, inodes[order[k]])|
    ensures |LayoutUpTo(rd, inodes, order, k)| + i < |LayoutUpTo(rd, inodes, order, k + 1)|
            <= |LayoutUpTo(rd, inodes, order, n)|
    ensures LayoutUpTo(rd, inodes, order, n)[|LayoutUpTo(rd, inodes, order, k)| + i] ==
            InodeLayout(rd, inodes[order[k]])[i]
    decreases n
  {
    hide InodeLayout;
    if k < n - 1 { LayoutAt(rd, inodes, order, n - 1, k, i); }
  }

  lemma {:induction false} LayoutGrows(rd: Reader, inodes: seq<Inode>, order: seq<nat>, m: nat, n: nat)
    requires ValidIds(order, inodes) && m <= n <= |order|
    ensures |LayoutUpTo(rd, inodes, order, m)| <= |LayoutUpTo(rd, inodes, order, n)|
    decreases n
  {
    hide InodeLayout;
    if m < n { LayoutGrows(rd, inodes, order, m, n - 1); }
  }

  lemma {:induction false} PlannedHasOwner(rd: Reader, inodes: seq<Inode>, order: seq<nat>, n: nat, b: nat)
    returns (k: nat)
    requires ValidIds(order, inodes) && n <= |order| && b in LayoutUpTo(rd, inodes, order, n)
    ensures k < n && b in InodeLayout(rd, inodes[order[k]])
  {
    hide InodeLayout;
    if b in LayoutUpTo(rd, inodes, order, n - 1) {
      k := PlannedHasOwner(rd, inodes, order, n - 1, b);
    } else {
      k := n - 1;
    }
  }

  /** The volume as the plan lists it is the data area's first blocks. */
  ghost predicate Packed(v: Volume, live: seq<nat>, dataStart: nat, count: nat) {
    WellFormed(v, live, dataStart) && Increasing(live) && Planned(v, live) == Run(dataStart, count)
  }

  /** The blocks of the `k`-th inode of the order, in one piece. */
  lemma PieceAt(v: Volume, live: seq<nat>, dataStart: nat, count: nat, k: nat)
    requires Packed(v, live, dataStart, count) && k < |Order(v, live)|
    ensures var id, rd := Order(v, live)[k], Rd(v.blocks);
            && id < |v.inodes| && var at := |LayoutUpTo(rd, v.inodes, Order(v, live), k)|;
            && InodeLayout(rd, v.inodes[id]) == Run(dataStart + at, |InodeLayout(rd, v.inodes[id])|)
            && at + |InodeLayout(rd, v.inodes[id])| == |LayoutUpTo(rd, v.inodes, Order(v, live), k + 1)| <= count
  {
    hide InodeLayout, WellFormedInode, NoDup, Order;
    var rd, order := Rd(v.blocks), Order(v, live);
    var mine := InodeLayout(rd, v.inodes[order[k]]);
    LayoutGrows(rd, v.inodes, order, k + 1, |order|);
    forall i | 0 <= i < |mine| ensures mine[i] == dataStart + |LayoutUpTo(rd, v.inodes, order, k)| + i {
      LayoutAt(rd, v.inodes, order, |order|, k, i);
    }
  }

  lemma SplitRun(a: seq<nat>, b: seq<nat>, start: nat)
    requires a + b == Run(start, |a + b|)
    ensures a == Run(start, |a|) && b == Run(start + |a|, |b|)
  {
    forall i | 0 <= i < |a| ensures a[i] == start + i { assert (a + b)[i] == a[i]; }
    forall i | 0 <= i < |b| ensures b[i] == start + |a| + i { assert (a + b)[|a| + i] == b[i]; }
  }

  lemma PieceIsLaidOut(rd: Reader, ino: Inode, start: nat)
    requires InodeLayout(rd, ino) == Run(start, |InodeLayout(rd, ino)|)
    ensures InodeLaidOut(rd, ino)
  {
    hide Expand, InodeLeaves, InodeTables, InLogicalOrder, TablesInOrder, IsPayload, IsPointerBlock;
    var payload, tables := Expand(ino.seekable, InodeLeaves(rd, ino)), InodeTables(rd, ino);
    SplitRun(payload, tables, start);
    OnePieceIsOrdered(rd, ino, start, |payload|);
    OnePieceOfTables(rd, ino, start + |payload|, |tables|);
  }

  /** A live inode with blocks has a place in the order, and its blocks lie in its piece. */
  lemma OwnedPlace(v: Volume, live: seq<nat>, dataStart: nat, count: nat, id: nat, b: nat) returns (k: nat)
    requires Packed(v, live, dataStart, count) && id in live && id < |v.inodes| && Owns(v, id, b)
    ensures k < |Order(v, live)| && Order(v, live)[k] == id
    ensures dataStart + |LayoutUpTo(Rd(v.blocks), v.inodes, Order(v, live), k)| <= b
            < dataStart + |LayoutUpTo(Rd(v.blocks), v.inodes, Order(v, live), k + 1)| <= dataStart + count
  {
    hide InodeLayout, WellFormedInode, NoDup, Order, Owns, LayoutUpTo;
    OwnsIs(v, id, b);
    var at;
    k, at := OwnerIsPlanned(v, live, dataStart, id);
    PieceAt(v, live, dataStart, count, k);
  }

  lemma EveryInodeLaidOut(v: Volume, live: seq<nat>, dataStart: nat, count: nat, id: nat)
    requires Packed(v, live, dataStart, count) && id in live && id < |v.inodes|
    ensures InodeLaidOut(Rd(v.blocks), v.inodes[id])
  {
    hide InodeLayout, WellFormedInode, NoDup, Order, InodeLaidOut, LayoutUpTo;
    var layout := InodeLayout(Rd(v.blocks), v.inodes[id]);
    if layout == [] {
      assert layout == Run(0, 0);
      PieceIsLaidOut(Rd(v.blocks), v.inodes[id], 0);
    } else {
      var k, at := OwnerIsPlanned(v, live, dataStart, id);
      PieceAt(v, live, dataStart, count, k);
      PieceIsLaidOut(Rd(v.blocks), v.inodes[id], dataStart + |LayoutUpTo(Rd(v.blocks), v.inodes, Order(v, live), k)|);
    }
  }

  lemma InodesInOrder(v: Volume, live: seq<nat>, dataStart: nat, count: nat, i: nat, j: nat, b: nat, c: nat)
    requires Packed(v, live, dataStart, count) && i in live && j in live && i < |v.inodes| && j < |v.inodes|
    requires PlacedBefore(v.inodes, i, j) && Owns(v, i, b) && Owns(v, j, c)
    ensures b < c
  {
    hide WellFormedInode, NoDup, Order, Owns, LayoutUpTo, WellFormed;
    assert ValidIds(live, v.inodes) by { PackedIds(v, live, dataStart, count); }
    var k := OwnedPlace(v, live, dataStart, count, i, b);
    var l := OwnedPlace(v, live, dataStart, count, j, c);
    if l < k { OrderIsSorted(v, live, l, k); }
    LayoutGrows(Rd(v.blocks), v.inodes, Order(v, live), k + 1, l);
  }

  lemma PackedIds(v: Volume, live: seq<nat>, dataStart: nat, count: nat)
    requires Packed(v, live, dataStart, count)
    ensures ValidIds(live, v.inodes)
  {
  }

  lemma FilledExactly(v: Volume, live: seq<nat>, dataStart: nat, count: nat, b: nat)
    requires Packed(v, live, dataStart, count)
    ensures InUse(v, live, b) <==> dataStart <= b < dataStart + count
  {
    hide InodeLayout, WellFormedInode, NoDup, Owns, LayoutUpTo;
    if dataStart <= b < dataStart + count {
      assert Planned(v, live)[b - dataStart] == b;
      var order := Order(v, live);
      var k := PlannedHasOwner(Rd(v.blocks), v.inodes, order, |order|, b);
      OwnsIs(v, order[k], b);
      DirectoriesExact(v.inodes, live);
      FilesExact(v.inodes, live);
      assert order[k] in order && order[k] in live;
    }
    if id :| id in live && id < |v.inodes| && Owns(v, id, b) {
      var _ := OwnedPlace(v, live, dataStart, count, id, b);
    }
  }

  /** A packed volume is laid out. */
  lemma PackedIsLaidOut(v: Volume, live: seq<nat>, dataStart: nat, count: nat)
    requires Packed(v, live, dataStart, count)
    ensures LaidOut(v, live, dataStart, dataStart + count)
  {
    hide Packed, InodeLaidOut, Owns, PlacedBefore, InUse;
    PackedIds(v, live, dataStart, count);
    forall id | id in live && id < |v.inodes| ensures InodeLaidOut(Rd(v.blocks), v.inodes[id]) {
      EveryInodeLaidOut(v, live, dataStart, count, id);
    }
    forall i, j | i in live && j in live && i < |v.inodes| && j < |v.inodes| && PlacedBefore(v.inodes, i, j)
      ensures forall b: nat, c: nat :: Owns(v, i, b) && Owns(v, j, c) ==> b < c
    {
      forall b: nat, c: nat | Owns(v, i, b) && Owns(v, j, c) ensures b < c {
        InodesInOrder(v, live, dataStart, count, i, j, b, c);
      }
    }
    forall b: nat ensures InUse(v, live, b) <==> dataStart <= b < dataStart + count {
      FilledExactly(v, live, dataStart, count, b);
    }
  }
}
