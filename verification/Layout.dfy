/** Which blocks an inode owns, and in which order defragmentation lays them out
    (`collect_inode_block_layout` and `collect_chunk_entries` in src/disk.rs). */
module Layout {
  import opened Sizes
  import opened PointerTree

  /** A 4 KiB block seen as its 512 little-endian words. */
  type Block = b: seq<nat> | |b| == SLOTS witness seq(SLOTS, _ => 0)

  function ReadPtr(blocks: seq<Block>, b: nat, slot: nat): nat {
    if b < |blocks| && slot < SLOTS then blocks[b][slot] else 0
  }

  function Rd(blocks: seq<Block>): Reader {
    (b: nat, slot: nat) => ReadPtr(blocks, b, slot)
  }

  // ---------------------------------------------------------------------------
  // Trees: pointer tables and leaf slots below a root
  // ---------------------------------------------------------------------------

  /** The raw leaf slot values below `root`, in logical order; at depth 0 the root is the leaf. */
  ghost function RawLeaves(rd: Reader, root: nat, depth: nat): seq<nat>
    decreases depth, SLOTS + 1
  {
    if depth == 0 then [root]
    else if root == 0 then []
    else SlotLeaves(rd, root, depth, SLOTS)
  }

  ghost function SlotLeaves(rd: Reader, table: nat, depth: nat, n: nat): seq<nat>
    requires depth > 0 && n <= SLOTS
    decreases depth, n
  {
    if n == 0 then [] else SlotLeaves(rd, table, depth, n - 1) + RawLeaves(rd, rd(table, n - 1), depth - 1)
  }

  /** The pointer tables below and including `root`. */
  ghost function Tables(rd: Reader, root: nat, depth: nat): seq<nat>
    decreases depth, SLOTS + 1
  {
    if depth == 0 || root == 0 then [] else [root] + SlotTables(rd, root, depth, SLOTS)
  }

  ghost function SlotTables(rd: Reader, table: nat, depth: nat, n: nat): seq<nat>
    requires depth > 0 && n <= SLOTS
    decreases depth, n
  {
    if n == 0 then [] else SlotTables(rd, table, depth, n - 1) + Tables(rd, rd(table, n - 1), depth - 1)
  }

  lemma {:induction false} SlotLeavesContain(rd: Reader, table: nat, depth: nat, n: nat, slot: nat, x: nat)
    requires depth > 0 && slot < n <= SLOTS
    requires x in RawLeaves(rd, rd(table, slot), depth - 1)
    ensures x in SlotLeaves(rd, table, depth, n)
  {
    if slot < n - 1 { SlotLeavesContain(rd, table, depth, n - 1, slot, x); }
  }

  lemma {:induction false} SlotTablesContain(rd: Reader, table: nat, depth: nat, n: nat, slot: nat, x: nat)
    requires depth > 0 && slot < n <= SLOTS
    requires x in Tables(rd, rd(table, slot), depth - 1)
    ensures x in SlotTables(rd, table, depth, n)
  {
    if slot < n - 1 { SlotTablesContain(rd, table, depth, n - 1, slot, x); }
  }

  /** A path that does not end in a hole ends in a leaf slot of the tree. */
  lemma {:induction false} WalkEndsInLeaf(rd: Reader, root: nat, path: seq<nat>)
    requires forall k :: 0 <= k < |path| ==> path[k] < SLOTS
    requires Walk(rd, root, path) != 0
    ensures Walk(rd, root, path) in RawLeaves(rd, root, |path|)
    decreases |path|
  {
    if path == [] {
    } else if root == 0 {
      WalkFromHole(rd, path[1..]);
    } else {
      WalkEndsInLeaf(rd, rd(root, path[0]), path[1..]);
      SlotLeavesContain(rd, root, |path|, SLOTS, path[0], Walk(rd, root, path));
    }
  }

  // ---------------------------------------------------------------------------
  // What an inode owns
  // ---------------------------------------------------------------------------

  function Run(start: nat, count: nat): (r: seq<nat>)
    ensures |r| == count && forall i :: 0 <= i < count ==> r[i] == start + i
  {
    seq(count, i requires 0 <= i => start + i)
  }

  /** The payload blocks one leaf slot addresses. */
  function LeafBlocks(seekable: bool, raw: nat): seq<nat> {
    if raw == 0 then []
    else if !seekable then [raw]
    else if EntryIsEmpty(raw) then []
    else Run(EntryStart(raw), EntryCount(raw))
  }

  ghost function Expand(seekable: bool, raws: seq<nat>): seq<nat> {
    if raws == [] then [] else Expand(seekable, raws[..|raws| - 1]) + LeafBlocks(seekable, raws[|raws| - 1])
  }

  ghost function InodeLeaves(rd: Reader, ino: Inode): seq<nat> {
    ino.blocks[..10] + RawLeaves(rd, ino.blocks[10], 1) + RawLeaves(rd, ino.blocks[11], 2)
    + RawLeaves(rd, ino.tripleIndirect, 3)
  }

  ghost function InodeTables(rd: Reader, ino: Inode): seq<nat> {
    Tables(rd, ino.blocks[10], 1) + Tables(rd, ino.blocks[11], 2) + Tables(rd, ino.tripleIndirect, 3)
  }

  /** Payload blocks in logical order, then pointer tables. */
  ghost function InodeLayout(rd: Reader, ino: Inode): seq<nat> {
    Expand(ino.seekable, InodeLeaves(rd, ino)) + InodeTables(rd, ino)
  }

  ghost predicate SubseqAt(s: seq<nat>, t: seq<nat>, k: nat) {
    k + |t| <= |s| && s[k..k + |t|] == t
  }

  lemma {:induction false} ExpandContains(seekable: bool, raws: seq<nat>, raw: nat) returns (k: nat)
    requires raw in raws
    ensures SubseqAt(Expand(seekable, raws), LeafBlocks(seekable, raw), k)
  {
    hide LeafBlocks, SubseqAt;
    var n := |raws| - 1;
    var pre, last := Expand(seekable, raws[..n]), LeafBlocks(seekable, raws[n]);
    SubseqOfConcat(pre, last);
    if raws[n] == raw {
      k := |pre|;
    } else {
      k := ExpandContains(seekable, raws[..n], raw);
      SubseqKept(pre, last, LeafBlocks(seekable, raw), k);
    }
  }

  lemma SubseqOfConcat(a: seq<nat>, b: seq<nat>)
    ensures SubseqAt(a + b, b, |a|)
  {
    assert (a + b)[|a|..|a| + |b|] == b;
  }

  lemma SubseqKept(a: seq<nat>, b: seq<nat>, t: seq<nat>, k: nat)
    requires SubseqAt(a, t, k)
    ensures SubseqAt(a + b, t, k)
  {
    assert (a + b)[k..k + |t|] == a[k..k + |t|];
  }

  lemma {:induction false} ExpandConcat(seekable: bool, a: seq<nat>, b: seq<nat>)
    ensures Expand(seekable, a + b) == Expand(seekable, a) + Expand(seekable, b)
  {
    hide LeafBlocks;
    if b == [] {
      assert a + b == a;
    } else {
      var ab, n := a + b, |b| - 1;
      var last := LeafBlocks(seekable, b[n]);
      assert ab[..|ab| - 1] == a + b[..n] && ab[|ab| - 1] == b[n];
      ExpandConcat(seekable, a, b[..n]);
      assert Expand(seekable, ab) == Expand(seekable, a + b[..n]) + last;
      assert Expand(seekable, a) + Expand(seekable, b[..n]) + last
          == Expand(seekable, a) + (Expand(seekable, b[..n]) + last);
    }
  }

  lemma ResolvedLeafIsOwned(rd: Reader, ino: Inode, idx: nat)
    requires Resolve(rd, ino, idx) != 0
    ensures idx < MAX_LOGICAL_BLOCKS && Resolve(rd, ino, idx) in InodeLeaves(rd, ino)
  {
    hide RawLeaves;
    LogicalRoundTrip(idx);
    ResolveIsWalk(rd, ino, idx);
    var p := FromLogical(idx).value;
    var root, path := RootOf(ino, p), PathOf(p);
    WalkEndsInLeaf(rd, root, path);
    if p.Direct? {
      assert root in ino.blocks[..10];
    }
  }
}
