/** The pointer blocks of an inode in the order of their positions (src/disk.rs,
    `collect_inode_block_layout`). */
module TableOrder {
  import opened Sizes
  import opened PointerTree
  import opened TreePositions
  import opened Layout

  // ---------------------------------------------------------------------------
  // Paths in one tree
  // ---------------------------------------------------------------------------

  /** A block comes before what lies below it, and what lies below a slot before what lies below a later one. */
  predicate Earlier(a: seq<nat>, b: seq<nat>) {
    b != [] && (a == [] || a[0] < b[0] || (a[0] == b[0] && Earlier(a[1..], b[1..])))
  }

  /** The place of the pointer block at the end of `path` in the list. */
  ghost function PlaceOf(rd: Reader, root: nat, depth: nat, path: seq<nat>): nat
    requires |path| < depth && InSlots(path)
    decreases depth
  {
    if path == [] then 0
    else 1 + |SlotTables(rd, root, depth, path[0])| + PlaceOf(rd, rd(root, path[0]), depth - 1, path[1..])
  }

  lemma {:induction false} SlotTablesAt(rd: Reader, table: nat, depth: nat, n: nat, slot: nat, i: nat)
    requires depth > 0 && slot < n <= SLOTS && i < |Tables(rd, rd(table, slot), depth - 1)|
    ensures |SlotTables(rd, table, depth, slot)| + i < |SlotTables(rd, table, depth, n)|
    ensures SlotTables(rd, table, depth, n)[|SlotTables(rd, table, depth, slot)| + i] ==
            Tables(rd, rd(table, slot), depth - 1)[i]
    decreases n
  {
    hide Tables;
    if slot < n - 1 { SlotTablesAt(rd, table, depth, n - 1, slot, i); }
  }

  lemma {:induction false} PlaceIs(rd: Reader, root: nat, depth: nat, path: seq<nat>)
    requires |path| < depth && InSlots(path) && Walk(rd, root, path) != 0
    ensures PlaceOf(rd, root, depth, path) < |Tables(rd, root, depth)|
    ensures Tables(rd, root, depth)[PlaceOf(rd, root, depth, path)] == Walk(rd, root, path)
    decreases depth
  {
    hide SlotTables;
    if root == 0 {
      WalkFromHole(rd, path);
      assert false;
    }
    if path != [] {
      var child := rd(root, path[0]);
      PlaceIs(rd, child, depth - 1, path[1..]);
      SlotTablesAt(rd, root, depth, SLOTS, path[0], PlaceOf(rd, child, depth - 1, path[1..]));
    }
  }

  lemma {:induction false} MoreSlots(rd: Reader, table: nat, depth: nat, m: nat, n: nat)
    requires depth > 0 && m <= n <= SLOTS
    ensures |SlotTables(rd, table, depth, m)| <= |SlotTables(rd, table, depth, n)|
    decreases n
  {
    hide Tables;
    if m < n { MoreSlots(rd, table, depth, m, n - 1); }
  }

  lemma {:induction false} EarlierIsBefore(rd: Reader, root: nat, depth: nat, a: seq<nat>, b: seq<nat>)
    requires |a| < depth && |b| < depth && InSlots(a) && InSlots(b) && Earlier(a, b)
    requires Walk(rd, root, a) != 0 && Walk(rd, root, b) != 0
    ensures PlaceOf(rd, root, depth, a) < PlaceOf(rd, root, depth, b)
    decreases depth
  {
    hide SlotTables;
    if root == 0 {
      WalkFromHole(rd, a);
      assert false;
    }
    if a != [] {
      if a[0] == b[0] {
        EarlierIsBefore(rd, rd(root, a[0]), depth - 1, a[1..], b[1..]);
      } else {
        PlaceIs(rd, rd(root, a[0]), depth - 1, a[1..]);
        SlotTablesAt(rd, root, depth, a[0] + 1, a[0], PlaceOf(rd, rd(root, a[0]), depth - 1, a[1..]));
        MoreSlots(rd, root, depth, a[0] + 1, b[0]);
      }
    }
  }

  lemma {:induction false} TableHasPath(rd: Reader, root: nat, depth: nat, t: nat) returns (path: seq<nat>)
    requires t in Tables(rd, root, depth)
    ensures |path| < depth && InSlots(path) && Walk(rd, root, path) == t != 0
    decreases depth, SLOTS + 1
  {
    if t == root {
      path := [];
    } else {
      var slot, rest := SlotHasPath(rd, root, depth, SLOTS, t);
      path := [slot] + rest;
      assert path[1..] == rest;
    }
  }

  lemma {:induction false} SlotHasPath(rd: Reader, table: nat, depth: nat, n: nat, t: nat)
    returns (slot: nat, rest: seq<nat>)
    requires depth > 0 && n <= SLOTS && t in SlotTables(rd, table, depth, n)
    ensures slot < n && |rest| < depth - 1 && InSlots(rest) && Walk(rd, rd(table, slot), rest) == t != 0
    decreases depth, n
  {
    hide Tables;
    if t in SlotTables(rd, table, depth, n - 1) {
      slot, rest := SlotHasPath(rd, table, depth, n - 1, t);
    } else {
      slot := n - 1;
      rest := TableHasPath(rd, rd(table, n - 1), depth - 1, t);
    }
  }

  // ---------------------------------------------------------------------------
  // Positions
  // ---------------------------------------------------------------------------

  /** A position of a pointer block. */
  predicate IsTable(p: Pos) {
    InTree(p) && !p.Leaf?
  }

  /** Its tree, by depth. */
  function DepthOf(p: Pos): nat
    requires IsTable(p)
  {
    match p
    case Root1 => 1
    case Root2 => 2
    case Sib2(_) => 2
    case _ => 3
  }

  function SlotsTo(p: Pos): (r: seq<nat>)
    requires IsTable(p)
    ensures InSlots(r) && |r| < DepthOf(p)
  {
    match p
    case Sib2(a) => [a]
    case Dib3(a) => [a]
    case Sib3(a, b) => [a, b]
    case _ => []
  }

  function RootAt(ino: Inode, depth: nat): nat {
    if depth == 1 then ino.blocks[10] else if depth == 2 then ino.blocks[11] else ino.tripleIndirect
  }

  /** The single indirect block, the double tree, the triple tree, each from the root down. */
  predicate Ahead(p: Pos, q: Pos)
    requires IsTable(p) && IsTable(q)
  {
    DepthOf(p) < DepthOf(q) || (DepthOf(p) == DepthOf(q) && Earlier(SlotsTo(p), SlotsTo(q)))
  }

  lemma NodeIsWalk(rd: Reader, ino: Inode, p: Pos)
    requires IsTable(p)
    ensures Node(rd, ino, p) == Walk(rd, RootAt(ino, DepthOf(p)), SlotsTo(p))
  {
    match p
    case Sib2(a) =>
      assert Node(rd, ino, Root2) == ino.blocks[11];
      WalkOne(rd, ino.blocks[11], a);
    case Dib3(a) =>
      assert Node(rd, ino, Root3) == ino.tripleIndirect;
      WalkOne(rd, ino.tripleIndirect, a);
    case Sib3(a, b) =>
      assert Node(rd, ino, Root3) == ino.tripleIndirect;
      var dib := Follow(rd, ino.tripleIndirect, a);
      assert Node(rd, ino, Dib3(a)) == dib;
      assert [a, b][1..] == [b];
      WalkOne(rd, dib, b);
    case _ =>
  }

  function PosOf(depth: nat, path: seq<nat>): (p: Pos)
    requires 1 <= depth <= 3 && InSlots(path) && |path| < depth
    ensures IsTable(p) && DepthOf(p) == depth && SlotsTo(p) == path
  {
    if depth == 1 then Root1
    else if depth == 2 then if path == [] then Root2 else Sib2(path[0])
    else if path == [] then Root3 else if |path| == 1 then Dib3(path[0]) else Sib3(path[0], path[1])
  }

  ghost predicate IsPointerBlock(rd: Reader, ino: Inode, t: nat) {
    t != 0 && exists p :: IsTable(p) && Node(rd, ino, p) == t
  }

  /** What the collector lists as pointer blocks is what lies at their positions. */
  lemma TablesAre(rd: Reader, ino: Inode, t: nat)
    ensures t in InodeTables(rd, ino) <==> IsPointerBlock(rd, ino, t)
  {
    hide Tables, Node, Walk;
    if t in InodeTables(rd, ino) {
      var depth :=
        if t in Tables(rd, ino.blocks[10], 1) then 1 else if t in Tables(rd, ino.blocks[11], 2) then 2 else 3;
      var path := TableHasPath(rd, RootAt(ino, depth), depth, t);
      NodeIsWalk(rd, ino, PosOf(depth, path));
    }
    if IsPointerBlock(rd, ino, t) {
      var p :| IsTable(p) && Node(rd, ino, p) == t;
      NodeIsWalk(rd, ino, p);
      PlaceIs(rd, RootAt(ino, DepthOf(p)), DepthOf(p), SlotsTo(p));
    }
  }

  /** The place of a position in the list of the inode. */
  ghost function PlaceAt(rd: Reader, ino: Inode, p: Pos): nat
    requires IsTable(p)
  {
    (if DepthOf(p) > 1 then |Tables(rd, ino.blocks[10], 1)| else 0)
    + (if DepthOf(p) > 2 then |Tables(rd, ino.blocks[11], 2)| else 0)
    + PlaceOf(rd, RootAt(ino, DepthOf(p)), DepthOf(p), SlotsTo(p))
  }

  lemma PlaceAtIs(rd: Reader, ino: Inode, p: Pos)
    requires IsTable(p) && Node(rd, ino, p) != 0
    ensures PlaceAt(rd, ino, p) < |InodeTables(rd, ino)|
    ensures InodeTables(rd, ino)[PlaceAt(rd, ino, p)] == Node(rd, ino, p)
  {
    hide Tables, Node, Walk, PlaceOf;
    NodeIsWalk(rd, ino, p);
    PlaceIs(rd, RootAt(ino, DepthOf(p)), DepthOf(p), SlotsTo(p));
  }

  lemma AheadIsBefore(rd: Reader, ino: Inode, p: Pos, q: Pos)
    requires IsTable(p) && IsTable(q) && Ahead(p, q) && Node(rd, ino, p) != 0 && Node(rd, ino, q) != 0
    ensures PlaceAt(rd, ino, p) < PlaceAt(rd, ino, q)
  {
    hide Tables, Node, Walk, PlaceOf, Earlier;
    NodeIsWalk(rd, ino, p);
    NodeIsWalk(rd, ino, q);
    PlaceIs(rd, RootAt(ino, DepthOf(p)), DepthOf(p), SlotsTo(p));
    if DepthOf(p) == DepthOf(q) {
      EarlierIsBefore(rd, RootAt(ino, DepthOf(p)), DepthOf(p), SlotsTo(p), SlotsTo(q));
    }
  }

  /** Pointer blocks lie in the order of their positions. */
  ghost predicate TablesInOrder(rd: Reader, ino: Inode) {
    forall p, q :: IsTable(p) && IsTable(q) && Ahead(p, q) && Node(rd, ino, p) != 0 && Node(rd, ino, q) != 0 ==>
      Node(rd, ino, p) < Node(rd, ino, q)
  }

  lemma OnePieceOfTables(rd: Reader, ino: Inode, start: nat, count: nat)
    requires InodeTables(rd, ino) == Run(start, count)
    ensures TablesInOrder(rd, ino)
    ensures forall t: nat :: IsPointerBlock(rd, ino, t) <==> start <= t < start + count
  {
    hide Node, InodeTables, PlaceAt, Ahead;
    forall p, q | IsTable(p) && IsTable(q) && Ahead(p, q) && Node(rd, ino, p) != 0 && Node(rd, ino, q) != 0
      ensures Node(rd, ino, p) < Node(rd, ino, q)
    {
      PlaceAtIs(rd, ino, p);
      PlaceAtIs(rd, ino, q);
      AheadIsBefore(rd, ino, p, q);
    }
    forall t: nat ensures IsPointerBlock(rd, ino, t) <==> start <= t < start + count {
      TablesAre(rd, ino, t);
      if start <= t < start + count { assert Run(start, count)[t - start] == t; }
    }
  }
}
