/** Shrinking a raw file (src/disk.rs, `truncate_internal`): written to the mapping at once, or staged
    as journal operations. */
module Shrink {
  import opened Sizes
  import opened Bytes
  import opened MetadataOps
  import opened ImageModel
  import opened PointerTree
  import opened BlockImage
  import opened TreePositions
  import opened ShrinkTheory

  // ---------------------------------------------------------------------------
  // The tree while it is being cut
  // ---------------------------------------------------------------------------

  /** The tree of `img0` without the positions in `gone`. */
  ghost predicate Without(img: Image, ino: Inode, img0: Image, ino0: Inode, gone: iset<Pos>) {
    forall q :: InTree(q) ==> At(img, ino, q) == if q in gone then 0 else At(img0, ino0, q)
  }

  /** What is left reads as it did. */
  ghost predicate Intact(img: Image, ino: Inode, img0: Image, ino0: Inode, gone: iset<Pos>) {
    forall q :: InTree(q) && q !in gone ==> At(img, ino, q) == At(img0, ino0, q)
  }

  /** The leaf blocks of the tree hold what they hold in `base`. */
  ghost predicate SamePayload(img: Image, base: Image, img0: Image, ino0: Inode) {
    forall k :: 0 <= k < MAX_LOGICAL_BLOCKS && At(img0, ino0, Leaf(k)) != 0 ==>
      BlockBits(img, At(img0, ino0, Leaf(k))) == BlockBits(base, At(img0, ino0, Leaf(k)))
  }

  ghost function Subtree(p: Pos): iset<Pos> {
    iset q | InTree(q) && Under(q, p)
  }

  lemma WithoutWellFormed(g: Geometry, img: Image, ino: Inode, img0: Image, ino0: Inode, gone: iset<Pos>)
    requires WellFormed(g, img0, ino0) && Mounted(g, |img|) && Without(img, ino, img0, ino0, gone)
    ensures WellFormed(g, img, ino)
  {
    hide At, IsData;
    FewerIsWellFormed(g, img0, ino0, img, ino);
  }

  lemma CutSlot(g: Geometry, img: Image, ino: Inode, img0: Image, ino0: Inode, gone: iset<Pos>, base: Image, p: Pos)
    requires WellFormed(g, img0, ino0) && Mounted(g, |img|) && Without(img, ino, img0, ino0, gone)
    requires InTree(p) && Up(p).Some? && At(img, ino, Up(p).value.0) != 0 && SamePayload(img, base, img0, ino0)
    ensures var img' := WritePtr(img, At(img, ino, Up(p).value.0), Up(p).value.1, 0);
            Without(img', ino, img0, ino0, gone + Subtree(p)) && SamePayload(img', base, img0, ino0)
  {
    hide At, Under, WritePtr, IsData, BlockBits;
    WithoutWellFormed(g, img, ino, img0, ino0, gone);
    var (t, s) := Up(p).value;
    var table := At(img, ino, t);
    var img' := WritePtr(img, table, s, 0);
    forall q | InTree(q) ensures At(img', ino, q) == if q in gone + Subtree(p) then 0 else At(img0, ino0, q) {
      ClearedSlot(g, img, ino, p, q);
    }
    assert table == At(img0, ino0, t) && IsData(g, table);
    WritePtrViews(g, img, table, s, 0);
    forall k | 0 <= k < MAX_LOGICAL_BLOCKS && At(img0, ino0, Leaf(k)) != 0
      ensures BlockBits(img', At(img0, ino0, Leaf(k))) == BlockBits(base, At(img0, ino0, Leaf(k)))
    {
      assert t != Leaf(k);
      assert IsData(g, At(img0, ino0, Leaf(k)));
    }
  }

  lemma CutRoot(img: Image, ino: Inode, img0: Image, ino0: Inode, gone: iset<Pos>, p: Pos)
    requires InTree(p) && Up(p).None?
    ensures Without(img, ino, img0, ino0, gone) ==> Without(img, ClearSlot(ino, p), img0, ino0, gone + Subtree(p))
    ensures Intact(img, ino, img0, ino0, gone) ==> Intact(img, ClearSlot(ino, p), img0, ino0, gone + Subtree(p))
  {
    hide At, Under, ClearSlot;
    forall q | InTree(q) ensures At(img, ClearSlot(ino, p), q) == if Under(q, p) then 0 else At(img, ino, q) {
      ClearedRoot(img, ino, p, q);
    }
  }

  lemma IntactFrom(img: Image, ino: Inode, img0: Image, ino0: Inode, gone: iset<Pos>, more: iset<Pos>)
    ensures Without(img, ino, img0, ino0, gone) ==> Intact(img, ino, img0, ino0, gone)
    ensures Intact(img, ino, img0, ino0, gone) ==> Intact(img, ino, img0, ino0, gone + more)
  {
    hide At;
  }

  /** What lies under a position that goes, goes. */
  lemma {:induction false} UnderNotKept(q: Pos, p: Pos, n: nat)
    requires InTree(q) && InTree(p) && Under(q, p) && !Kept(p, n)
    ensures !Kept(q, n)
    decreases Rank(q)
  {
    if q != p {
      var t := Up(q).value.0;
      UnderNotKept(t, p, n);
      if q.Leaf? { LogicalRoundTrip(q.k); }
    }
  }

  /** Only positions a file of `n` blocks does not keep are gone. */
  ghost predicate OnlyExcess(gone: iset<Pos>, n: nat) {
    forall q :: q in gone && InTree(q) ==> !Kept(q, n)
  }

  lemma CutIsExcess(gone: iset<Pos>, p: Pos, n: nat)
    requires OnlyExcess(gone, n) && InTree(p) && !Kept(p, n)
    ensures OnlyExcess(gone + Subtree(p), n) && p in Subtree(p)
  {
    hide Kept;
    forall q | q in gone + Subtree(p) && InTree(q) ensures !Kept(q, n) {
      if q in Subtree(p) { UnderNotKept(q, p, n); }
    }
  }

  /** When every excess position is gone or was empty, the tree is shrunk. */
  lemma AllExcessGone(img: Image, ino: Inode, img0: Image, ino0: Inode, gone: iset<Pos>, n: nat)
    requires Without(img, ino, img0, ino0, gone) && OnlyExcess(gone, n)
    requires forall q :: InTree(q) && !Kept(q, n) ==> q in gone || At(img0, ino0, q) == 0
    ensures Shrunk(img0, ino0, img, ino, n)
  {
    hide At, Kept;
  }

  // ---------------------------------------------------------------------------
  // The slack of the last block
  // ---------------------------------------------------------------------------

  /** The block whose tail a shrink to `newSize` zeroes, 0 if there is none. */
  function SlackBlock(img: Image, ino: Inode, newSize: nat): nat {
    var n := DivCeil(newSize);
    if newSize % BLOCK_SIZE != 0 && 0 < n <= MAX_LOGICAL_BLOCKS then At(img, ino, Leaf(n - 1)) else 0
  }

  function ZeroTail(img: Image, b: nat, from: nat): (r: Image)
    requires from <= BLOCK_SIZE
    ensures |r| == |img|
  {
    if BLOCK_BITS * b + BLOCK_BITS <= |img|
    then Splice(img, BLOCK_BITS * b + 8 * from, Repeat(false, BLOCK_BITS - 8 * from))
    else img
  }

  function SlackZeroed(img: Image, ino: Inode, newSize: nat): (r: Image)
    ensures |r| == |img|
  {
    var b := SlackBlock(img, ino, newSize);
    if b == 0 then img else ZeroTail(img, b, newSize % BLOCK_SIZE)
  }

  lemma {:induction false} BitsOfZeros(n: nat)
    ensures BitsOf(Zeros(n)) == Repeat(false, 8 * n)
  {
    if n > 0 {
      assert Zeros(n)[1..] == Zeros(n - 1);
      BitsOfZeros(n - 1);
      ZeroByte();
    }
  }

  lemma ZeroByte()
    ensures ToBits(0, 8) == Repeat(false, 8)
  {
    assert ToBits(0, 1) == [false];
    assert ToBits(0, 2) == [false, false];
    assert ToBits(0, 4) == [false, false, false, false];
    assert ToBits(0, 6) == [false, false, false, false, false, false];
  }

  lemma ZeroTailIsOp(g: Geometry, img: Image, b: nat, from: nat)
    requires Mounted(g, |img|) && IsData(g, b) && from < BLOCK_SIZE
    ensures Apply(g, img, WriteBlockSlice(b, from, Zeros(BLOCK_SIZE - from))) == Ok(ZeroTail(img, b, from))
  {
    BitsOfZeros(BLOCK_SIZE - from);
    assert BlockBit(g, b) == BLOCK_BITS * b;
    assert |Repeat(false, BLOCK_BITS - 8 * from)| > 0;
  }

  lemma ZeroWordIsOp(g: Geometry, img: Image, b: nat, slot: nat)
    requires Mounted(g, |img|) && IsData(g, b) && slot < SLOTS
    ensures Apply(g, img, WriteBlockSlice(b, 8 * slot, Zeros(8))) == Ok(WritePtr(img, b, slot, 0))
  {
    hide BitsOf;
    assert Zeros(8) == LE64(0) by { ZeroLE(8); }
    WritePtrIsOp(g, img, b, slot, 0);
  }

  lemma ZeroTailViews(g: Geometry, img: Image, b: nat, from: nat)
    requires Mounted(g, |img|) && IsData(g, b) && from <= BLOCK_SIZE
    ensures forall c :: IsData(g, c) && c != b ==> BlockBits(ZeroTail(img, b, from), c) == BlockBits(img, c)
  {
  }

  lemma SlackKeepsTree(g: Geometry, img0: Image, ino0: Inode, newSize: nat)
    requires WellFormed(g, img0, ino0)
    ensures Without(SlackZeroed(img0, ino0, newSize), ino0, img0, ino0, iset{})
    ensures SamePayload(SlackZeroed(img0, ino0, newSize), SlackZeroed(img0, ino0, newSize), img0, ino0)
  {
    hide At, ZeroTail, IsData, BlockBits;
    var b, base := SlackBlock(img0, ino0, newSize), SlackZeroed(img0, ino0, newSize);
    if b != 0 {
      assert IsData(g, b);
      ZeroTailViews(g, img0, b, newSize % BLOCK_SIZE);
      forall q | InTree(q) ensures At(base, ino0, q) == At(img0, ino0, q) {
        PayloadWrite(g, img0, base, ino0, DivCeil(newSize) - 1, q);
      }
    }
  }

  /** Bit `i` of the `k`-th block of a file of `newSize` bytes: the old bit inside the file, zero behind its end. */
  ghost predicate KeptBit(img0: Image, img: Image, b: nat, k: nat, newSize: nat, i: nat) {
    && |BlockBits(img, b)| == |BlockBits(img0, b)| == BLOCK_BITS && i < BLOCK_BITS
    && (BlockBits(img, b)[i] <==> BLOCK_BITS * k + i < 8 * newSize && BlockBits(img0, b)[i])
  }

  /** The `k`-th block of the file stays. */
  ghost predicate Stays(img: Image, ino: Inode, newSize: nat, k: int) {
    0 <= k < DivCeil(newSize) && k < MAX_LOGICAL_BLOCKS && At(img, ino, Leaf(k)) != 0
  }

  lemma SlackBits(g: Geometry, img0: Image, ino0: Inode, newSize: nat, k: nat, i: nat)
    requires WellFormed(g, img0, ino0) && k < DivCeil(newSize) && k < MAX_LOGICAL_BLOCKS && i < BLOCK_BITS
    requires At(img0, ino0, Leaf(k)) != 0
    ensures KeptBit(img0, SlackZeroed(img0, ino0, newSize), At(img0, ino0, Leaf(k)), k, newSize, i)
  {
    hide At, Repeat;
    var b, slack, from := At(img0, ino0, Leaf(k)), SlackBlock(img0, ino0, newSize), newSize % BLOCK_SIZE;
    assert IsData(g, b) && BLOCK_BITS * b + BLOCK_BITS <= |img0|;
    if slack != 0 {
      var n := DivCeil(newSize);
      assert slack == At(img0, ino0, Leaf(n - 1)) && IsData(g, slack);
      if k == n - 1 {
        assert newSize == BLOCK_SIZE * k + from;
        TailBits(img0, b, from, i);
      } else {
        assert slack != b;
        ZeroTailViews(g, img0, slack, from);
        assert BLOCK_SIZE * (k + 1) <= newSize;
      }
    } else {
      assert BLOCK_SIZE * (k + 1) <= newSize;
    }
  }

  lemma TailBits(img: Image, b: nat, from: nat, i: nat)
    requires from <= BLOCK_SIZE && BLOCK_BITS * b + BLOCK_BITS <= |img| && i < BLOCK_BITS
    ensures var r := ZeroTail(img, b, from);
            && |BlockBits(r, b)| == BLOCK_BITS && BlockBits(r, b)[i] == (i < 8 * from && BlockBits(img, b)[i])
  {
    var r := ZeroTail(img, b, from);
    assert BlockBits(r, b)[i] == r[BLOCK_BITS * b + i];
  }

  /** Nothing but blocks of the file has changed. */
  ghost predicate OnlyOwn(img: Image, img0: Image, ino0: Inode) {
    |img| == |img0| && forall p :: 0 <= p < |img0| && img[p] != img0[p] ==> Reachable(img0, ino0, p / BLOCK_BITS)
  }

  lemma WriteIsOwn(img: Image, img0: Image, ino0: Inode, q: Pos, slot: nat, v: u64)
    requires OnlyOwn(img, img0, ino0) && InTree(q) && At(img0, ino0, q) != 0 && slot < SLOTS
    ensures OnlyOwn(WritePtr(img, At(img0, ino0, q), slot, v), img0, ino0)
  {
    hide At, ToBits;
    var b := At(img0, ino0, q);
    var img' := WritePtr(img, b, slot, v);
    forall p | 0 <= p < |img0| && img'[p] != img0[p] ensures Reachable(img0, ino0, p / BLOCK_BITS) {
      if img'[p] != img[p] { assert p / BLOCK_BITS == b; }
    }
  }

  lemma SlackIsOwn(img0: Image, ino0: Inode, newSize: nat)
    ensures OnlyOwn(SlackZeroed(img0, ino0, newSize), img0, ino0)
  {
    hide At, Repeat;
    var b, r := SlackBlock(img0, ino0, newSize), SlackZeroed(img0, ino0, newSize);
    forall p | 0 <= p < |img0| && r[p] != img0[p] ensures Reachable(img0, ino0, p / BLOCK_BITS) {
      assert p / BLOCK_BITS == b;
      assert InTree(Leaf(DivCeil(newSize) - 1));
    }
  }
}
