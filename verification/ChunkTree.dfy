/** The slots of a seekable file's pointer tree (src/disk.rs, `set_logical_chunk_entry`): leaves hold
    packed chunk entries, the other positions block ids. */
module ChunkTree {
  import opened Sizes
  import opened Bytes
  import opened PointerTree
  import opened TreePositions

  type Block = b: seq<byte> | |b| == BLOCK_SIZE witness Zeros(BLOCK_SIZE)

  type Blocks = seq<Block>

  function ZeroBlock(): Block {
    Zeros(BLOCK_SIZE)
  }

  /** `read_block_ptr` and `write_block_ptr`. */
  function Slot(blocks: Blocks, b: nat, s: nat): u64 {
    if b < |blocks| && s < SLOTS then From64(blocks[b][8 * s..8 * s + 8]) else 0
  }

  function PutSlot(block: Block, s: nat, v: u64): Block
    requires s < SLOTS
  {
    block[..8 * s] + LE64(v) + block[8 * s + 8..]
  }

  function WriteSlot(blocks: Blocks, b: nat, s: nat, v: u64): (r: Blocks)
    requires s < SLOTS
    ensures |r| == |blocks|
  {
    if b < |blocks| then blocks[b := PutSlot(blocks[b], s, v)] else blocks
  }

  function Slots(blocks: Blocks): Reader {
    (b, s) => Slot(blocks, b, s)
  }

  lemma SlotAfterWrite(blocks: Blocks, b: nat, s: nat, v: u64, c: nat, r: nat)
    requires b < |blocks| && s < SLOTS
    ensures Slot(WriteSlot(blocks, b, s, v), c, r) == if c == b && r == s then v else Slot(blocks, c, r)
  {
    hide From64, LE;
    if c == b && r < SLOTS {
      var block' := PutSlot(blocks[b], s, v);
      if r == s {
        assert block'[8 * r..8 * r + 8] == LE64(v);
        RoundTrip64(v);
      } else if r < s {
        assert block'[8 * r..8 * r + 8] == blocks[b][8 * r..8 * r + 8];
      } else {
        assert block'[8 * r..8 * r + 8] == blocks[b][8 * r..8 * r + 8];
      }
    }
  }

  lemma ZeroSlot(s: nat, blocks: Blocks, b: nat)
    requires b < |blocks| && blocks[b] == ZeroBlock()
    ensures Slot(blocks, b, s) == 0
  {
    if s < SLOTS {
      assert blocks[b][8 * s..8 * s + 8] == LE64(0) by { ZeroLE(8); }
      RoundTrip64(0);
    }
  }

  // ---------------------------------------------------------------------------
  // Positions under a slot write
  // ---------------------------------------------------------------------------

  /** No two pointer blocks of the tree are the same block. */
  ghost predicate TablesOnce(rd: Reader, ino: Inode) {
    forall p, q :: InTree(p) && InTree(q) && !p.Leaf? && !q.Leaf? && p != q && Node(rd, ino, p) != 0 ==>
      Node(rd, ino, p) != Node(rd, ino, q)
  }

  /** `v` is all zero as a pointer block. */
  ghost predicate ZeroTable(rd: Reader, v: nat) {
    forall s :: 0 <= s < SLOTS ==> rd(v, s) == 0
  }

  /** What reads the pointer blocks as before sees the same tree. */
  lemma {:induction false} SameTables(rd: Reader, rd': Reader, ino: Inode, q: Pos)
    requires InTree(q)
    requires forall p, s :: InTree(p) && !p.Leaf? && Node(rd, ino, p) != 0 && 0 <= s < SLOTS ==>
               rd'(Node(rd, ino, p), s) == rd(Node(rd, ino, p), s)
    ensures Node(rd', ino, q) == Node(rd, ino, q)
    decreases Rank(q)
  {
    if Up(q).Some? {
      var (t, s) := Up(q).value;
      SameTables(rd, rd', ino, t);
      assert !t.Leaf?;
    }
  }

  /** Setting the slot of `p`, where `p` is a leaf or an empty position that gets a zero block, changes
      the value at `p` and nothing else. */
  lemma {:induction false} NodeAfterSet(rd: Reader, rd': Reader, ino: Inode, p: Pos, v: nat, q: Pos)
    requires TablesOnce(rd, ino) && InTree(p) && InTree(q) && Up(p).Some? && Node(rd, ino, Up(p).value.0) != 0
    requires forall b, s {:trigger rd'(b, s)} :: rd'(b, s) ==
               if b == Node(rd, ino, Up(p).value.0) && s == Up(p).value.1 then v else rd(b, s)
    requires p.Leaf? || (Node(rd, ino, p) == 0 && v != Node(rd, ino, Up(p).value.0) && ZeroTable(rd, v))
    ensures Node(rd', ino, q) == if q == p then v else Node(rd, ino, q)
    decreases Rank(q)
  {
    if Up(q).Some? {
      var (u, r) := Up(q).value;
      NodeAfterSet(rd, rd', ino, p, v, u);
      if q != p && u != p && Node(rd, ino, u) == Node(rd, ino, Up(p).value.0) != 0 && r == Up(p).value.1 {
        assert u == Up(p).value.0;
        UpInjective(p, q);
      }
    }
  }

  function WithSlot(ino: Inode, p: Pos, v: nat): Inode
    requires InTree(p) && Up(p).None?
  {
    match p
    case Leaf(k) => ino.(blocks := ino.blocks[k := v])
    case Root1 => ino.(blocks := ino.blocks[10 := v])
    case Root2 => ino.(blocks := ino.blocks[11 := v])
    case Root3 => ino.(tripleIndirect := v)
  }

  /** The same for a slot of the inode. */
  lemma {:induction false} NodeAfterRoot(rd: Reader, ino: Inode, p: Pos, v: nat, q: Pos)
    requires InTree(p) && InTree(q) && Up(p).None?
    requires p.Leaf? || (Node(rd, ino, p) == 0 && ZeroTable(rd, v))
    ensures Node(rd, WithSlot(ino, p, v), q) == if q == p then v else Node(rd, ino, q)
    decreases Rank(q)
  {
    if Up(q).Some? { NodeAfterRoot(rd, ino, p, v, Up(q).value.0); }
  }
}
