/** The shrink as the source runs it, in both variants. */
module ShrinkRun {
  import opened Sizes
  import opened Bytes
  import opened LastWins
  import opened MetadataOps
  import opened ImageModel
  import opened PointerTree
  import opened BlockImage
  import opened TreePositions
  import opened ShrinkTheory
  import opened Shrink

  /** One shrink in progress. On a journaled image the mapping stays as it is and every change is an
      operation of the transaction; otherwise the changes go into the mapping. `cur` is the image with
      all changes so far. */
  class RawShrink {
    const g: Geometry
    const image: array<bool>
    const journaled: bool
    var ino: Inode
    var freed: seq<nat>
    var ops: seq<MetadataOp>

    ghost const img0: Image
    ghost const ino0: Inode
    ghost var cur: Image
    ghost var gone: iset<Pos>
    ghost var base: Image

    /** `n` is the number of blocks the file keeps. */
    ghost predicate Valid(n: nat)
      reads this, image
    {
      && |img0| == image.Length == |cur| && WellFormed(g, img0, ino0)
      && (if journaled then image[..] == img0 && ApplyAll(g, img0, ops) == Ok(cur) else image[..] == cur)
      && Without(cur, ino, img0, ino0, gone) && Intact(image[..], ino, img0, ino0, gone)
      && OnlyExcess(gone, n) && SamePayload(cur, base, img0, ino0) && SameAttributes(ino, ino0)
      && Staged(img0, ino0, ops) && OnlyOwn(cur, img0, ino0)
    }

    constructor (g: Geometry, image: array<bool>, ino: Inode, journaled: bool)
      requires WellFormed(g, image[..], ino)
      ensures this.g == g && this.image == image && this.journaled == journaled && this.ino == ino
      ensures freed == [] && ops == [] && img0 == image[..] && ino0 == ino
      ensures cur == img0 && base == img0 && gone == iset{} && forall n :: Valid(n)
    {
      this.g, this.image, this.journaled, this.ino := g, image, journaled, ino;
      freed, ops := [], [];
      img0, ino0 := image[..], ino;
      cur, base, gone := image[..], image[..], iset{};
    }

    /** `zero_block_ptr` for the slot that holds position `p`. */
    method ZeroPtr(table: nat, slot: nat, ghost p: Pos, ghost n: nat)
      requires Valid(n) && InTree(p) && Up(p) != None && Up(p).value.1 == slot && !Kept(p, n)
      requires Up(p).value.0 !in gone && table == At(img0, ino0, Up(p).value.0) != 0
      modifies this`ops, this`cur, this`gone, image
      ensures Valid(n) && gone == old(gone) + Subtree(p)
    {
      hide At, WritePtr, Without, Intact, SamePayload, OnlyExcess, IsData, Kept, Subtree, ApplyAll, OnlyOwn;
      TableAt(g, cur, ino, img0, ino0, gone, Up(p).value.0);
      CutSlot(g, cur, ino, img0, ino0, gone, base, p);
      WriteIsOwn(cur, img0, ino0, Up(p).value.0, slot, 0);
      CutIsExcess(gone, p, n);
      ghost var cur' := WritePtr(cur, table, slot, 0);
      IntactFrom(cur', ino, img0, ino0, gone + Subtree(p), iset{});
      IntactFrom(image[..], ino, img0, ino0, gone, Subtree(p));
      if journaled {
        ZeroWordIsOp(g, cur, table, slot);
        StagedSlot(img0, ino0, ops, p, table, slot);
        ApplyAllSnoc(g, img0, ops, WriteBlockSlice(table, 8 * slot, Zeros(8)));
        ops := ops + [WriteBlockSlice(table, 8 * slot, Zeros(8))];
      } else {
        DataFits(g, image.Length, table);
        WritePtrIsSplice(image[..], table, slot);
        SpliceInPlace(image, BLOCK_BITS * table + 64 * slot, ToBits(0, 64));
      }
      cur := cur';
      gone := gone + Subtree(p);
    }

    /** Clears the inode slot of position `p`. */
    method ZeroRoot(p: Pos, ghost n: nat)
      requires Valid(n) && InTree(p) && Up(p) == None && !Kept(p, n)
      modifies this`ino, this`gone
      ensures Valid(n) && gone == old(gone) + Subtree(p)
    {
      hide At, Without, Intact, SamePayload, OnlyExcess, Kept, Subtree, ClearSlot, ApplyAll;
      CutRoot(cur, ino, img0, ino0, gone, p);
      CutRoot(image[..], ino, img0, ino0, gone, p);
      CutIsExcess(gone, p, n);
      ino := ClearSlot(ino, p);
      gone := gone + Subtree(p);
    }

    /** `clear_logical_block_ptr`: an index that is mapped is cut, any other one at most cleared again. */
    method ClearLogical(k: nat, ghost n: nat)
      requires Valid(n) && n <= k && UpTo(gone, 0)
      modifies this`ino, this`ops, this`cur, this`gone, image
      ensures Valid(n)
      ensures gone == old(gone) || (k < MAX_LOGICAL_BLOCKS && gone == old(gone) + Subtree(Leaf(k)))
      ensures k < MAX_LOGICAL_BLOCKS && At(img0, ino0, Leaf(k)) != 0 ==> gone == old(gone) + Subtree(Leaf(k))
    {
      hide At, Without, SamePayload, OnlyExcess, Subtree, ApplyAll, IsData, ReadPtr, Staged;
      LogicalRoundTrip(k);
      TablesRead(image[..], ino);
      if k < MAX_LOGICAL_BLOCKS && At(img0, ino0, Leaf(k)) != 0 { LeafParent(img0, ino0, k); }
      NotGone(gone);
      match FromLogical(k)
      case Some(Direct(_)) =>
        ZeroRoot(Leaf(k), n);
      case Some(Single(i)) =>
        var sib := ino.blocks[10];
        if sib != 0 {
          ZeroPtr(sib, i, Leaf(k), n);
        }
      case Some(Double(a, b)) =>
        var dib := ino.blocks[11];
        if dib != 0 {
          var sib := ReadPtr(image[..], dib, a);
          if sib != 0 {
            ZeroPtr(sib, b, Leaf(k), n);
          }
        }
      case Some(Triple(a, b, c)) =>
        var tib := ino.tripleIndirect;
        if tib != 0 {
          var dib := ReadPtr(image[..], tib, a);
          if dib != 0 {
            var sib := ReadPtr(image[..], dib, b);
            if sib != 0 {
              ZeroPtr(sib, c, Leaf(k), n);
            }
          }
        }
      case None =>
    }

    ghost predicate Cleared(p: Pos)
      requires InTree(p)
      reads this
    {
      p in gone || At(img0, ino0, p) == 0
    }

    /** The loop over the indices that no longer fit. */
    method FreeLeaves(n: nat, m: nat)
      requires Valid(n) && n <= m && gone == iset{} && freed == []
      modifies this`ino, this`ops, this`cur, this`gone, this`freed, image
      ensures Valid(n) && UpTo(gone, 0)
      ensures forall k :: n <= k < m && k < MAX_LOGICAL_BLOCKS ==> Cleared(Leaf(k))
      ensures freed == LeafBlocks(img0, ino0, n, Min(m, MAX_LOGICAL_BLOCKS))
    {
      hide At, Without, Intact, SamePayload, OnlyExcess, ApplyAll, WellFormed, LeafBlocks, Subtree, Resolve;
      assert freed == LeafBlocks(img0, ino0, n, Min(n, MAX_LOGICAL_BLOCKS)) by { NoLeafBlocks(img0, ino0, n, n); }
      for k := n to m
        invariant Valid(n) && LeavesBelow(gone, k)
        invariant forall j :: n <= j < k && j < MAX_LOGICAL_BLOCKS ==> Cleared(Leaf(j))
        invariant freed == LeafBlocks(img0, ino0, n, Min(k, MAX_LOGICAL_BLOCKS))
      {
        var b := Resolve(PtrReader(image[..]), ino, k);
        if k < MAX_LOGICAL_BLOCKS {
          LeafSeen(n, k);
          LeafBlocksNext(img0, ino0, n, k);
          if b == 0 { assert freed + [] == freed; }
        } else {
          ResolveBeyond(image[..], ino, k);
        }
        if b != 0 {
          freed := freed + [b];
          LeavesUpTo(gone, k);
          ClearLogical(k, n);
          LeafSubtree(k);
        }
      }
      LeavesUpTo(gone, m);
    }

    lemma LeafSeen(n: nat, k: nat)
      requires Valid(n) && k < MAX_LOGICAL_BLOCKS && Leaf(k) !in gone
      ensures Resolve(PtrReader(image[..]), ino, k) == At(img0, ino0, Leaf(k))
    {
      LeafIsResolve(image[..], ino, k);
    }

    /** The single indirect block. */
    method PruneSingle(n: nat)
      requires Valid(n) && UpTo(gone, 0)
      modifies this`ino, this`gone, this`freed
      ensures Valid(n) && UpTo(gone, 1) && old(gone) <= gone
      ensures n <= DIRECT_BLOCKS ==> Cleared(Root1)
      ensures freed == old(freed) + (if n <= DIRECT_BLOCKS then Blocks(img0, ino0, [Root1]) else [])
    {
      hide At, Without, SamePayload, OnlyExcess, Subtree, ApplyAll, WellFormed;
      TablesRead(image[..], ino);
      BlocksOne(img0, ino0, Root1);
      NotGone(gone);
      assert freed + [] == freed;
      if n <= DIRECT_BLOCKS && ino.blocks[10] != 0 {
        freed := freed + [ino.blocks[10]];
        ZeroRoot(Root1, n);
        RootSubtree(Root1);
      }
    }

    /** The pointer blocks of the double tree, all of them or those past the new end. */
    method PruneDouble(n: nat)
      requires Valid(n) && UpTo(gone, 1)
      modifies this`ino, this`ops, this`cur, this`gone, this`freed, image
      ensures Valid(n) && UpTo(gone, 2) && old(gone) <= gone
      ensures forall a :: 0 <= a < SLOTS && KeepSibs(n) <= a ==> Cleared(Sib2(a))
      ensures n <= SINGLE_END ==> Cleared(Root2)
      ensures freed == old(freed) + DoubleBlocks(img0, ino0, n)
    {
      hide At, Without, Intact, SamePayload, OnlyExcess, Subtree, ApplyAll, WellFormed, DoubleBlocks, UpTo, ReadPtr;
      DoubleSeen(image[..], ino, img0, ino0, gone);
      if ino.blocks[11] == 0 {
        EmptyDouble(img0, ino0, n);
        assert freed + [] == freed;
        UpToMore(gone, 1);
      } else if n <= SINGLE_END {
        FreeSibs(n);
        freed := freed + [ino.blocks[11]];
        ZeroRoot(Root2, n);
        WholeDouble(img0, ino0, n);
        RootSubtree(Root2);
        UpToMore(old(gone), 1);
        UpToSubtree(old(gone), Root2, 2);
      } else {
        CutSibs(KeepSibs(n), n);
        PartDouble(img0, ino0, n);
      }
    }

    /** Frees the double tree's pointer blocks without unlinking them. */
    method FreeSibs(ghost n: nat)
      requires Valid(n) && UpTo(gone, 1) && ino.blocks[11] != 0
      modifies this`freed
      ensures freed == old(freed) + Blocks(img0, ino0, Sibs(0, SLOTS))
    {
      hide At, Without, Intact, SamePayload, OnlyExcess, ApplyAll, WellFormed, UpTo, ReadPtr, Blocks;
      DoubleSeen(image[..], ino, img0, ino0, gone);
      NoBlocks(img0, ino0, Sibs(0, 0));
      assert freed + [] == freed;
      for a := 0 to SLOTS
        invariant freed == old(freed) + Blocks(img0, ino0, Sibs(0, a))
      {
        SibsNext(img0, ino0, 0, a);
        var sib := ReadPtr(image[..], ino.blocks[11], a);
        if sib != 0 {
          freed := freed + [sib];
        } else {
          assert Blocks(img0, ino0, Sibs(0, a)) + [] == Blocks(img0, ino0, Sibs(0, a));
        }
      }
    }

    /** Frees and unlinks those from slot `keep` on. */
    method CutSibs(keep: nat, ghost n: nat)
      requires Valid(n) && UpTo(gone, 1) && ino.blocks[11] != 0 && keep == KeepSibs(n)
      modifies this`ops, this`cur, this`gone, this`freed, image
      ensures Valid(n) && UpTo(gone, 2) && old(gone) <= gone
      ensures forall a :: 0 <= a < SLOTS && keep <= a ==> Cleared(Sib2(a))
      ensures freed == old(freed) + Blocks(img0, ino0, Sibs(keep, SLOTS))
    {
      hide At, Without, Intact, SamePayload, OnlyExcess, ApplyAll, WellFormed, UpTo, ReadPtr, Blocks, Subtree;
      KeepExact(n);
      NoBlocks(img0, ino0, Sibs(keep, 0));
      assert freed + [] == freed;
      SibsStart(gone, 0);
      for a := 0 to SLOTS
        invariant Valid(n) && SibsBelow(gone, a) && UpTo(gone, 2) && old(gone) <= gone && ino.blocks[11] != 0
        invariant forall j :: 0 <= j < a && keep <= j ==> Cleared(Sib2(j))
        invariant freed == old(freed) + Blocks(img0, ino0, Sibs(keep, a))
      {
        SibSeen(image[..], ino, img0, ino0, gone, a);
        SibsMore(gone, a);
        if a >= keep {
          SibsNext(img0, ino0, keep, a);
          var sib := ReadPtr(image[..], ino.blocks[11], a);
          if sib != 0 {
            freed := freed + [sib];
            SibSubtree(gone, a);
            ZeroPtr(ino.blocks[11], a, Sib2(a), n);
          } else {
            assert Blocks(img0, ino0, Sibs(keep, a)) + [] == Blocks(img0, ino0, Sibs(keep, a));
          }
        } else {
          assert Sibs(keep, a + 1) == Sibs(keep, a);
        }
      }
    }

    /** The pointer blocks of the triple tree, once none of it is needed. */
    method PruneTriple(n: nat)
      requires Valid(n) && UpTo(gone, 2)
      modifies this`ino, this`gone, this`freed
      ensures Valid(n) && old(gone) <= gone
      ensures n <= DOUBLE_END ==> Cleared(Root3) && forall a :: 0 <= a < SLOTS ==> Cleared(Dib3(a))
      ensures n <= DOUBLE_END ==> forall a, b :: 0 <= a < SLOTS && 0 <= b < SLOTS ==> Cleared(Sib3(a, b))
      ensures freed == old(freed) + TripleBlocks(img0, ino0, n)
    {
      hide At, Without, Intact, SamePayload, OnlyExcess, Subtree, ApplyAll, WellFormed, TripleBlocks, UpTo, ReadPtr;
      TripleSeen(image[..], ino, img0, ino0, gone);
      TripleBlocksAre(img0, ino0, n);
      assert freed + [] == freed;
      if n <= DOUBLE_END && ino.tripleIndirect != 0 {
        FreeTriple(n);
        freed := freed + [ino.tripleIndirect];
        ZeroRoot(Root3, n);
        RootSubtree(Root3);
      }
    }

    method FreeTriple(ghost n: nat)
      requires Valid(n) && UpTo(gone, 2) && ino.tripleIndirect != 0
      modifies this`freed
      ensures freed == old(freed) + TableBlocks(img0, ino0, SLOTS)
    {
      hide At, Without, Intact, SamePayload, OnlyExcess, ApplyAll, WellFormed, UpTo, ReadPtr, Blocks, TableBlocks;
      TripleSeen(image[..], ino, img0, ino0, gone);
      assert TableBlocks(img0, ino0, 0) == [] by { NoTableBlocks(img0, ino0); }
      assert freed + [] == freed;
      for a := 0 to SLOTS
        invariant freed == old(freed) + TableBlocks(img0, ino0, a)
      {
        TableBlocksNext(img0, ino0, a);
        var dib := ReadPtr(image[..], ino.tripleIndirect, a);
        if dib != 0 {
          ghost var before := freed;
          NoBlocks(img0, ino0, Sibs3(a, 0));
          assert before + [] == before;
          for b := 0 to SLOTS
            invariant freed == before + Blocks(img0, ino0, Sibs3(a, b))
          {
            Sibs3Next(img0, ino0, a, b);
            var sib := ReadPtr(image[..], dib, b);
            if sib != 0 {
              freed := freed + [sib];
            } else {
              assert Blocks(img0, ino0, Sibs3(a, b)) + [] == Blocks(img0, ino0, Sibs3(a, b));
            }
          }
          freed := freed + [dib];
        } else {
          assert freed + [] == freed;
        }
      }
    }

    /** Zeroes what the last kept block holds past the new end. */
    method ZeroSlack(newSize: nat, ghost n: nat)
      requires Valid(n) && cur == img0 && ino == ino0 && gone == iset{} && ops == []
      modifies this`ops, this`cur, this`base, image
      ensures Valid(n) && base == SlackZeroed(img0, ino0, newSize)
      ensures forall k, i :: Stays(img0, ino0, newSize, k) && 0 <= i < BLOCK_BITS ==>
                KeptBit(img0, base, At(img0, ino0, Leaf(k)), k, newSize, i)
    {
      hide At, Without, Intact, SamePayload, OnlyExcess, ApplyAll, IsData, ZeroTail, Zeros, SlackBlock, Apply, Splice,
           WellFormed, OnlyOwn;
      SlackKeepsTree(g, img0, ino0, newSize);
      SlackIsOwn(img0, ino0, newSize);
      var b := FindSlack(newSize);
      ghost var after := SlackZeroed(img0, ino0, newSize);
      if b != 0 {
        var from := newSize % BLOCK_SIZE;
        SlackInside(g, img0, ino0, newSize);
        if journaled {
          ZeroTailIsOp(g, img0, b, from);
          StagedSlack(img0, ino0, newSize, from);
          OneOp(g, img0, WriteBlockSlice(b, from, Zeros(BLOCK_SIZE - from)));
          ops := [WriteBlockSlice(b, from, Zeros(BLOCK_SIZE - from))];
        } else {
          ZeroTailIsSplice(image[..], b, from);
          SpliceInPlace(image, BLOCK_BITS * b + 8 * from, Repeat(false, BLOCK_BITS - 8 * from));
        }
      }
      IntactFrom(after, ino, img0, ino0, gone, iset{});
      forall k, i | Stays(img0, ino0, newSize, k) && 0 <= i < BLOCK_BITS
        ensures KeptBit(img0, after, At(img0, ino0, Leaf(k)), k, newSize, i)
      {
        SlackBits(g, img0, ino0, newSize, k, i);
      }
      cur, base := after, after;
    }

    method FindSlack(newSize: nat) returns (b: nat)
      requires image[..] == img0 && ino == ino0
      ensures b == SlackBlock(img0, ino0, newSize)
    {
      hide At, Resolve;
      var blocks := DivCeil(newSize);
      b := 0;
      if newSize % BLOCK_SIZE != 0 && blocks > 0 {
        b := Resolve(PtrReader(image[..]), ino, blocks - 1);
        if blocks <= MAX_LOGICAL_BLOCKS {
          LeafIsResolve(image[..], ino, blocks - 1);
        } else {
          ResolveBeyond(image[..], ino, blocks - 1);
        }
      }
    }

    /** The whole shrink. Both variants end in the same tree, with the same blocks freed in the same
        order and the same payload; they differ only in whether the image already shows it. */
    method ShrinkTo(newSize: nat)
      requires WellFormed(g, img0, ino0) && image[..] == img0 == cur == base && ino == ino0
      requires gone == iset{} && freed == [] && ops == []
      requires newSize < ino.size && EndsAt(img0, ino0, DivCeil(ino.size))
      modifies this, image
      ensures SameAttributes(ino, ino0.(size := newSize)) && Mounted(g, |cur|)
      ensures if journaled then image[..] == img0 && ApplyAll(g, img0, ops) == Ok(cur) else image[..] == cur
      ensures Shrunk(img0, ino0, cur, ino, DivCeil(newSize))
      ensures AllInTree(Removed(DivCeil(newSize), DivCeil(ino0.size)))
      ensures freed == Blocks(img0, ino0, Removed(DivCeil(newSize), DivCeil(ino0.size)))
      ensures SamePayload(cur, SlackZeroed(img0, ino0, newSize), img0, ino0)
      ensures Staged(img0, ino0, ops)
      ensures WellFormed(g, cur, ino) && Once(freed)
      ensures forall b :: Reachable(img0, ino0, b) <==> b in freed || Reachable(cur, ino, b)
      ensures forall b :: b in freed ==> !Reachable(cur, ino, b)
      ensures forall k :: 0 <= k < MAX_LOGICAL_BLOCKS ==>
                Resolve(PtrReader(cur), ino, k) == if k < DivCeil(newSize) then Resolve(PtrReader(img0), ino0, k) else 0
      ensures forall k: nat, i: nat :: Resolve(PtrReader(cur), ino, k) != 0 && i < BLOCK_BITS ==>
                KeptBit(img0, cur, Resolve(PtrReader(cur), ino, k), k, newSize, i)
      ensures OnlyOwn(cur, img0, ino0)
    {
      hide At, Without, Intact, SamePayload, ApplyAll, WellFormed, Removed, Blocks, LeafBlocks, Kept, EndsAt,
           OnlyExcess, DoubleBlocks, TripleBlocks, SlackZeroed, UpTo, Shrunk, Staged, Reachable, Resolve, Once;
      var n, m := DivCeil(newSize), DivCeil(ino.size);
      StartState(g, img0, ino0, n);
      NothingStaged(img0, ino0);
      ZeroSlack(newSize, n);
      FreeLeaves(n, m);
      ghost var g0 := gone;
      PruneSingle(n);
      ghost var g1 := gone;
      PruneDouble(n);
      ghost var g2 := gone;
      PruneTriple(n);
      assert g0 <= gone && g1 <= gone && g2 <= gone;
      RemovedBlocks(img0, ino0, n, m);
      AllCleared(img0, ino0, gone, n, m);
      AllExcessGone(cur, ino, img0, ino0, gone, n);
      SizeIrrelevant(cur, ino, newSize, img0, ino0, n);
      assert Mounted(g, |cur|) by { IsMounted(g, img0, ino0); }
      ino := ino.(size := newSize);
      ShrinkConserves(g, img0, ino0, cur, ino, n, m);
      forall k: nat, i: nat | Resolve(PtrReader(cur), ino, k) != 0 && i < BLOCK_BITS
        ensures KeptBit(img0, cur, Resolve(PtrReader(cur), ino, k), k, newSize, i)
      {
        KeptBitSeen(g, img0, ino0, cur, base, ino, newSize, k, i);
      }
    }
  }

  /** A kept index reads through the new tree what the slack left in its block. */
  lemma KeptBitSeen(g: Geometry, img0: Image, ino0: Inode, img: Image, base: Image, ino: Inode, newSize: nat, k: nat,
                    i: nat)
    requires WellFormed(g, img0, ino0) && SamePayload(img, base, img0, ino0) && base == SlackZeroed(img0, ino0, newSize)
    requires forall j :: 0 <= j < MAX_LOGICAL_BLOCKS ==>
      Resolve(PtrReader(img), ino, j) == if j < DivCeil(newSize) then Resolve(PtrReader(img0), ino0, j) else 0
    requires Resolve(PtrReader(img), ino, k) != 0 && i < BLOCK_BITS
    ensures KeptBit(img0, img, Resolve(PtrReader(img), ino, k), k, newSize, i)
  {
    hide At, Resolve, SlackZeroed, BlockBits;
    if k >= MAX_LOGICAL_BLOCKS { ResolveBeyond(img, ino, k); }
    LeafIsResolve(img0, ino0, k);
    SlackBits(g, img0, ino0, newSize, k, i);
  }

  // ---------------------------------------------------------------------------
  // What is staged
  // ---------------------------------------------------------------------------

  /** One pointer of a pointer block of the file. */
  ghost predicate SlotOp(img: Image, ino: Inode, op: MetadataOp) {
    && op.WriteBlockSlice? && op.offset % 8 == 0 && |op.data| == 8
    && exists t :: InTree(t) && !t.Leaf? && At(img, ino, t) == op.blockId != 0
  }

  /** A part of a block with file data. */
  ghost predicate SlackOp(img: Image, ino: Inode, op: MetadataOp) {
    op.WriteBlockSlice? && exists t :: InTree(t) && t.Leaf? && At(img, ino, t) == op.blockId != 0
  }

  /** The slack of one data block at most, and then single pointers. */
  ghost predicate Staged(img: Image, ino: Inode, ops: seq<MetadataOp>) {
    && (forall i :: 1 <= i < |ops| ==> SlotOp(img, ino, ops[i]))
    && (ops != [] ==> SlotOp(img, ino, ops[0]) || SlackOp(img, ino, ops[0]))
  }

  lemma NothingStaged(img: Image, ino: Inode)
    ensures Staged(img, ino, [])
  {
  }

  lemma StagedSlot(img: Image, ino: Inode, ops: seq<MetadataOp>, p: Pos, table: u64, slot: nat)
    requires Staged(img, ino, ops) && InTree(p) && Up(p).Some? && table == At(img, ino, Up(p).value.0) != 0
    requires slot < SLOTS
    ensures Staged(img, ino, ops + [WriteBlockSlice(table, 8 * slot, Zeros(8))])
  {
    hide At;
    var op := WriteBlockSlice(table, 8 * slot, Zeros(8));
    assert SlotOp(img, ino, op) by { assert InTree(Up(p).value.0) && !Up(p).value.0.Leaf?; }
    var all := ops + [op];
    forall i | 1 <= i < |all| ensures SlotOp(img, ino, all[i]) {
      if i < |ops| { assert all[i] == ops[i]; } else { assert all[i] == op; }
    }
  }

  lemma StagedSlack(img: Image, ino: Inode, newSize: nat, from: nat)
    requires 0 < SlackBlock(img, ino, newSize) < 0x1_0000_0000_0000_0000 && from < BLOCK_SIZE
    ensures Staged(img, ino, [WriteBlockSlice(SlackBlock(img, ino, newSize), from, Zeros(BLOCK_SIZE - from))])
  {
    hide At;
    assert InTree(Leaf(DivCeil(newSize) - 1));
  }

  // ---------------------------------------------------------------------------
  // Which parts of the tree have been cut
  // ---------------------------------------------------------------------------

  /** 0 for leaves, then the number of the root a pointer block hangs from. */
  function Family(p: Pos): nat {
    match p
    case Leaf(_) => 0
    case Root1 => 1
    case Root2 => 2
    case Sib2(_) => 2
    case _ => 3
  }

  ghost predicate UpTo(gone: iset<Pos>, f: nat) {
    forall q :: q in gone && InTree(q) ==> Family(q) <= f
  }

  lemma {:induction false} UnderFamily(q: Pos, p: Pos)
    requires InTree(q) && Under(q, p)
    ensures q == p || q.Leaf? || Family(q) == Family(p)
    ensures p.Leaf? ==> q == p
    ensures p.Sib2? ==> q == p || q.Leaf?
    decreases Rank(q)
  {
    if q != p { UnderFamily(Up(q).value.0, p); }
  }

  lemma NotGone(gone: iset<Pos>)
    requires UpTo(gone, 0)
    ensures Root1 !in gone && Root2 !in gone && Root3 !in gone
    ensures forall a :: 0 <= a < SLOTS ==> Sib2(a) !in gone && Dib3(a) !in gone
    ensures forall a, b :: 0 <= a < SLOTS && 0 <= b < SLOTS ==> Sib3(a, b) !in gone
  {
    assert forall a :: 0 <= a < SLOTS ==> InTree(Sib2(a)) && InTree(Dib3(a));
    assert forall a, b :: 0 <= a < SLOTS && 0 <= b < SLOTS ==> InTree(Sib3(a, b));
  }

  /** How the source reads the pointer blocks. */
  lemma TablesRead(img: Image, ino: Inode)
    ensures At(img, ino, Root1) == ino.blocks[10] && At(img, ino, Root2) == ino.blocks[11]
    ensures At(img, ino, Root3) == ino.tripleIndirect
    ensures forall a :: 0 <= a < SLOTS ==>
              At(img, ino, Sib2(a)) == if ino.blocks[11] == 0 then 0 else ReadPtr(img, ino.blocks[11], a)
    ensures forall a :: 0 <= a < SLOTS ==>
              At(img, ino, Dib3(a)) == if ino.tripleIndirect == 0 then 0 else ReadPtr(img, ino.tripleIndirect, a)
    ensures forall a, b :: 0 <= a < SLOTS && 0 <= b < SLOTS ==>
              At(img, ino, Sib3(a, b)) ==
              if At(img, ino, Dib3(a)) == 0 then 0 else ReadPtr(img, At(img, ino, Dib3(a)), b)
  {
    hide ReadPtr;
  }

  /** A mapped leaf has mapped pointer blocks above it. */
  lemma LeafParent(img: Image, ino: Inode, k: nat)
    requires k < MAX_LOGICAL_BLOCKS && At(img, ino, Leaf(k)) != 0
    ensures Up(Leaf(k)).Some? ==> At(img, ino, Up(Leaf(k)).value.0) != 0
    ensures Up(Leaf(k)).Some? && Up(Leaf(k)).value.0.Sib2? ==> At(img, ino, Root2) != 0
    ensures Up(Leaf(k)).Some? && Up(Leaf(k)).value.0.Sib3? ==>
              At(img, ino, Root3) != 0 && At(img, ino, Dib3(Up(Leaf(k)).value.0.a)) != 0
  {
    hide ReadPtr;
    if Up(Leaf(k)).Some? && Up(Leaf(k)).value.0.Sib3? {
      var t := Up(Leaf(k)).value.0;
      assert At(img, ino, t) == Follow(PtrReader(img), At(img, ino, Dib3(t.a)), t.b);
      assert At(img, ino, Dib3(t.a)) == Follow(PtrReader(img), At(img, ino, Root3), t.a);
    }
  }

  /** Only leaves below `k` have been cut. */
  ghost predicate LeavesBelow(gone: iset<Pos>, k: nat) {
    forall q :: q in gone && InTree(q) ==> q.Leaf? && q.k < k
  }

  lemma LeavesUpTo(gone: iset<Pos>, k: nat)
    requires LeavesBelow(gone, k)
    ensures UpTo(gone, 0)
  {
  }

  lemma LeafSubtree(k: nat)
    requires k < MAX_LOGICAL_BLOCKS
    ensures forall q :: q in Subtree(Leaf(k)) <==> q == Leaf(k)
  {
    forall q | q in Subtree(Leaf(k)) ensures q == Leaf(k) { UnderFamily(q, Leaf(k)); }
  }

  lemma ResolveBeyond(img: Image, ino: Inode, k: nat)
    requires k >= MAX_LOGICAL_BLOCKS
    ensures Resolve(PtrReader(img), ino, k) == 0
  {
  }

  lemma LeavesInTree(n: nat, m: nat)
    requires m <= MAX_LOGICAL_BLOCKS
    ensures AllInTree(Leaves(n, m))
  {
  }

  function LeafBlocks(img: Image, ino: Inode, n: nat, m: nat): seq<nat>
    requires m <= MAX_LOGICAL_BLOCKS
  {
    LeavesInTree(n, m);
    Blocks(img, ino, Leaves(n, m))
  }

  lemma NoLeafBlocks(img: Image, ino: Inode, n: nat, m: nat)
    requires n >= m
    ensures LeafBlocks(img, ino, n, Min(m, MAX_LOGICAL_BLOCKS)) == []
  {
  }

  lemma LeafBlocksNext(img: Image, ino: Inode, n: nat, k: nat)
    requires n <= k < MAX_LOGICAL_BLOCKS
    ensures LeafBlocks(img, ino, n, k + 1) == LeafBlocks(img, ino, n, k) + Live(At(img, ino, Leaf(k)))
  {
    hide At, Blocks;
    LeavesInTree(n, k);
    assert Leaves(n, k + 1) == Leaves(n, k) + [Leaf(k)];
    BlocksSnoc(img, ino, Leaves(n, k), Leaf(k));
  }

  lemma BlocksOne(img: Image, ino: Inode, p: Pos)
    requires InTree(p)
    ensures Blocks(img, ino, [p]) == Live(At(img, ino, p))
  {
    hide At;
    assert [p][..0] == [];
    assert [] + Live(At(img, ino, p)) == Live(At(img, ino, p));
  }

  lemma NoBlocks(img: Image, ino: Inode, ps: seq<Pos>)
    requires ps == []
    ensures AllInTree(ps) && Blocks(img, ino, ps) == []
  {
  }

  lemma RootSubtree(p: Pos)
    requires p == Root1 || p == Root2 || p == Root3
    ensures p in Subtree(p) && UpTo(Subtree(p), Family(p))
    ensures p == Root2 ==> forall a :: 0 <= a < SLOTS ==> Sib2(a) in Subtree(p)
    ensures p == Root3 ==> forall a :: 0 <= a < SLOTS ==> Dib3(a) in Subtree(p)
    ensures p == Root3 ==> forall a, b :: 0 <= a < SLOTS && 0 <= b < SLOTS ==> Sib3(a, b) in Subtree(p)
  {
    forall q | q in Subtree(p) ensures Family(q) <= Family(p) { UnderFamily(q, p); }
    if p == Root3 {
      forall a | 0 <= a < SLOTS ensures Under(Dib3(a), Root3) { assert Up(Dib3(a)) == Some((Root3, a)); }
      forall a, b | 0 <= a < SLOTS && 0 <= b < SLOTS ensures Under(Sib3(a, b), Root3) {
        assert Up(Sib3(a, b)) == Some((Dib3(a), b));
        assert Under(Dib3(a), Root3);
      }
    }
  }

  lemma UpToMore(gone: iset<Pos>, f: nat)
    requires UpTo(gone, f)
    ensures UpTo(gone, f + 1)
  {
  }

  lemma UpToSubtree(gone: iset<Pos>, p: Pos, f: nat)
    requires UpTo(gone, f) && UpTo(Subtree(p), f)
    ensures UpTo(gone + Subtree(p), f)
  {
    hide Subtree;
  }

  // The double tree.

  lemma SibsNext(img: Image, ino: Inode, lo: nat, a: nat)
    requires lo <= a < SLOTS
    ensures AllInTree(Sibs(lo, a)) && AllInTree(Sibs(lo, a + 1))
    ensures Blocks(img, ino, Sibs(lo, a + 1)) == Blocks(img, ino, Sibs(lo, a)) + Live(At(img, ino, Sib2(a)))
  {
    hide At, Blocks;
    assert Sibs(lo, a + 1) == Sibs(lo, a) + [Sib2(a)];
    BlocksSnoc(img, ino, Sibs(lo, a), Sib2(a));
  }

  lemma DoubleSeen(img: Image, ino: Inode, img0: Image, ino0: Inode, gone: iset<Pos>)
    requires Intact(img, ino, img0, ino0, gone) && UpTo(gone, 1)
    ensures Root2 !in gone && ino.blocks[11] == At(img0, ino0, Root2)
    ensures forall a :: 0 <= a < SLOTS ==>
              At(img0, ino0, Sib2(a)) == if ino.blocks[11] == 0 then 0 else ReadPtr(img, ino.blocks[11], a)
  {
    hide At, ReadPtr;
    TablesRead(img, ino);
    forall a | 0 <= a < SLOTS ensures At(img, ino, Sib2(a)) == At(img0, ino0, Sib2(a)) { assert Sib2(a) !in gone; }
  }

  /** Below slot `a` the double tree's pointer blocks may have been cut; above it and at the root not. */
  ghost predicate SibsBelow(gone: iset<Pos>, a: nat) {
    Root2 !in gone && forall j :: a <= j < SLOTS ==> Sib2(j) !in gone
  }

  lemma SibsStart(gone: iset<Pos>, lo: nat)
    requires UpTo(gone, 1)
    ensures SibsBelow(gone, lo) && UpTo(gone, 2)
  {
    forall j | lo <= j < SLOTS ensures Sib2(j) !in gone { assert InTree(Sib2(j)); }
  }

  lemma SibsMore(gone: iset<Pos>, a: nat)
    requires SibsBelow(gone, a)
    ensures SibsBelow(gone, a + 1)
  {
  }

  lemma SibSeen(img: Image, ino: Inode, img0: Image, ino0: Inode, gone: iset<Pos>, a: nat)
    requires Intact(img, ino, img0, ino0, gone) && SibsBelow(gone, a) && a < SLOTS
    ensures ino.blocks[11] == At(img0, ino0, Root2) && Sib2(a) !in gone
    ensures ino.blocks[11] != 0 ==> ReadPtr(img, ino.blocks[11], a) == At(img0, ino0, Sib2(a))
  {
    hide At, ReadPtr;
    TablesRead(img, ino);
    assert InTree(Sib2(a));
  }

  lemma SibSubtree(gone: iset<Pos>, a: nat)
    requires SibsBelow(gone, a) && UpTo(gone, 2) && a < SLOTS
    ensures SibsBelow(gone + Subtree(Sib2(a)), a + 1) && UpTo(gone + Subtree(Sib2(a)), 2) && Sib2(a) in Subtree(Sib2(a))
  {
    forall q | q in Subtree(Sib2(a)) ensures q == Sib2(a) || q.Leaf? { UnderFamily(q, Sib2(a)); }
  }

  function DoublePositions(n: nat): seq<Pos> {
    if n <= SINGLE_END then Sibs(0, SLOTS) + [Root2] else Sibs(KeepSibs(n), SLOTS)
  }

  function DoubleBlocks(img: Image, ino: Inode, n: nat): seq<nat> {
    Blocks(img, ino, DoublePositions(n))
  }

  lemma EmptyDouble(img: Image, ino: Inode, n: nat)
    requires At(img, ino, Root2) == 0
    ensures DoubleBlocks(img, ino, n) == []
    ensures forall a :: 0 <= a < SLOTS ==> At(img, ino, Sib2(a)) == 0
  {
    hide ReadPtr;
    TablesRead(img, ino);
    AllZero(img, ino, DoublePositions(n));
  }

  lemma {:induction false} AllZero(img: Image, ino: Inode, ps: seq<Pos>)
    requires AllInTree(ps) && forall i :: 0 <= i < |ps| ==> At(img, ino, ps[i]) == 0
    ensures Blocks(img, ino, ps) == []
  {
    hide At;
    if ps != [] { AllZero(img, ino, ps[..|ps| - 1]); }
  }

  lemma WholeDouble(img: Image, ino: Inode, n: nat)
    requires n <= SINGLE_END && At(img, ino, Root2) != 0
    ensures DoubleBlocks(img, ino, n) == Blocks(img, ino, Sibs(0, SLOTS)) + [At(img, ino, Root2)]
  {
    hide At, Blocks;
    BlocksSnoc(img, ino, Sibs(0, SLOTS), Root2);
  }

  lemma PartDouble(img: Image, ino: Inode, n: nat)
    requires n > SINGLE_END
    ensures DoubleBlocks(img, ino, n) == Blocks(img, ino, Sibs(KeepSibs(n), SLOTS))
  {
  }

  // The triple tree.

  lemma TripleSeen(img: Image, ino: Inode, img0: Image, ino0: Inode, gone: iset<Pos>)
    requires Intact(img, ino, img0, ino0, gone) && UpTo(gone, 2)
    ensures Root3 !in gone && ino.tripleIndirect == At(img0, ino0, Root3)
    ensures forall a :: 0 <= a < SLOTS ==>
              At(img0, ino0, Dib3(a)) == if ino.tripleIndirect == 0 then 0 else ReadPtr(img, ino.tripleIndirect, a)
    ensures forall a, b :: 0 <= a < SLOTS && 0 <= b < SLOTS ==>
              At(img0, ino0, Sib3(a, b)) ==
              if At(img0, ino0, Dib3(a)) == 0 then 0 else ReadPtr(img, At(img0, ino0, Dib3(a)), b)
  {
    hide At, ReadPtr;
    TablesRead(img, ino);
    forall a | 0 <= a < SLOTS ensures At(img, ino, Dib3(a)) == At(img0, ino0, Dib3(a)) { assert Dib3(a) !in gone; }
    forall a, b | 0 <= a < SLOTS && 0 <= b < SLOTS ensures At(img, ino, Sib3(a, b)) == At(img0, ino0, Sib3(a, b)) {
      assert Sib3(a, b) !in gone;
    }
  }

  lemma TripleTablesInTree(n: nat)
    requires n <= SLOTS
    ensures AllInTree(TripleTables(n))
  {
    TripleTablesAre(n);
  }

  function TableBlocks(img: Image, ino: Inode, n: nat): seq<nat>
    requires n <= SLOTS
  {
    TripleTablesInTree(n);
    Blocks(img, ino, TripleTables(n))
  }

  lemma NoTableBlocks(img: Image, ino: Inode)
    ensures TableBlocks(img, ino, 0) == []
  {
  }

  lemma Sibs3Next(img: Image, ino: Inode, a: nat, b: nat)
    requires a < SLOTS && b < SLOTS
    ensures AllInTree(Sibs3(a, b)) && AllInTree(Sibs3(a, b + 1))
    ensures Blocks(img, ino, Sibs3(a, b + 1)) == Blocks(img, ino, Sibs3(a, b)) + Live(At(img, ino, Sib3(a, b)))
  {
    hide At, Blocks;
    assert Sibs3(a, b + 1) == Sibs3(a, b) + [Sib3(a, b)];
    BlocksSnoc(img, ino, Sibs3(a, b), Sib3(a, b));
  }

  /** A slot of the triple root adds the pointer blocks below it, then its own. */
  lemma TableBlocksNext(img: Image, ino: Inode, a: nat)
    requires a < SLOTS
    ensures AllInTree(Sibs3(a, SLOTS))
    ensures TableBlocks(img, ino, a + 1) ==
            TableBlocks(img, ino, a) +
            (if At(img, ino, Dib3(a)) == 0 then [] else Blocks(img, ino, Sibs3(a, SLOTS)) + [At(img, ino, Dib3(a))])
    ensures At(img, ino, Dib3(a)) != 0 ==>
              TableBlocks(img, ino, a + 1) ==
              TableBlocks(img, ino, a) + Blocks(img, ino, Sibs3(a, SLOTS)) + [At(img, ino, Dib3(a))]
  {
    hide At, Blocks;
    var group := Sibs3(a, SLOTS) + [Dib3(a)];
    TripleTablesInTree(a);
    BlocksConcat(img, ino, TripleTables(a), group);
    BlocksSnoc(img, ino, Sibs3(a, SLOTS), Dib3(a));
    if At(img, ino, Dib3(a)) == 0 {
      EmptyDib(img, ino, a);
      AllZero(img, ino, group);
    }
  }

  lemma EmptyDib(img: Image, ino: Inode, a: nat)
    requires a < SLOTS && At(img, ino, Dib3(a)) == 0
    ensures forall b :: 0 <= b < SLOTS ==> At(img, ino, Sib3(a, b)) == 0
  {
    hide ReadPtr;
    TablesRead(img, ino);
  }

  function TripleBlocks(img: Image, ino: Inode, n: nat): seq<nat> {
    TripleTablesInTree(SLOTS);
    if n <= DOUBLE_END then Blocks(img, ino, TripleTables(SLOTS) + [Root3]) else []
  }

  lemma TripleBlocksAre(img: Image, ino: Inode, n: nat)
    ensures n <= DOUBLE_END && At(img, ino, Root3) != 0 ==>
              TripleBlocks(img, ino, n) == TableBlocks(img, ino, SLOTS) + [At(img, ino, Root3)]
    ensures n > DOUBLE_END || At(img, ino, Root3) == 0 ==> TripleBlocks(img, ino, n) == []
  {
    hide At, Blocks;
    TripleTablesInTree(SLOTS);
    BlocksSnoc(img, ino, TripleTables(SLOTS), Root3);
    if At(img, ino, Root3) == 0 { EmptyTriple(img, ino); }
  }

  lemma EmptyTriple(img: Image, ino: Inode)
    requires At(img, ino, Root3) == 0
    ensures TableBlocks(img, ino, SLOTS) == []
  {
    hide At, TripleTables;
    TripleTablesInTree(SLOTS);
    TripleTablesAre(SLOTS);
    TripleIsEmpty(img, ino);
    var ps := TripleTables(SLOTS);
    forall i | 0 <= i < |ps| ensures At(img, ino, ps[i]) == 0 { assert ps[i] in ps; }
    AllZero(img, ino, ps);
  }

  lemma TripleIsEmpty(img: Image, ino: Inode)
    requires At(img, ino, Root3) == 0
    ensures forall a :: 0 <= a < SLOTS ==> At(img, ino, Dib3(a)) == 0
    ensures forall a, b :: 0 <= a < SLOTS && 0 <= b < SLOTS ==> At(img, ino, Sib3(a, b)) == 0
  {
    hide ReadPtr;
    TablesRead(img, ino);
  }

  // Putting it together.

  lemma StartState(g: Geometry, img0: Image, ino0: Inode, n: nat)
    ensures Without(img0, ino0, img0, ino0, iset{}) && Intact(img0, ino0, img0, ino0, iset{})
    ensures OnlyExcess(iset{}, n) && SamePayload(img0, img0, img0, ino0) && ApplyAll(g, img0, []) == Ok(img0)
  {
    hide At;
  }

  lemma IsMounted(g: Geometry, img: Image, ino: Inode)
    requires WellFormed(g, img, ino)
    ensures Mounted(g, |img|)
  {
  }

  lemma OneOp(g: Geometry, img: Image, op: MetadataOp)
    requires Apply(g, img, op).Ok?
    ensures ApplyAll(g, img, [op]) == Apply(g, img, op)
  {
    hide Apply;
    assert [op][1..] == [];
  }

  lemma SlackInside(g: Geometry, img: Image, ino: Inode, newSize: nat)
    requires WellFormed(g, img, ino) && SlackBlock(img, ino, newSize) != 0
    ensures var b := SlackBlock(img, ino, newSize);
            IsData(g, b) && b <= U64_MAX && Mounted(g, |img|) && BLOCK_BITS * b + BLOCK_BITS <= |img|
  {
    hide At;
  }

  lemma ZeroTailIsSplice(img: Image, b: nat, from: nat)
    requires BLOCK_BITS * b + BLOCK_BITS <= |img| && from <= BLOCK_SIZE
    ensures ZeroTail(img, b, from) == Splice(img, BLOCK_BITS * b + 8 * from, Repeat(false, BLOCK_BITS - 8 * from))
  {
  }

  /** The list freed by the four stages. */
  lemma RemovedBlocks(img: Image, ino: Inode, n: nat, m: nat)
    ensures AllInTree(Removed(n, m))
    ensures Blocks(img, ino, Removed(n, m)) ==
            LeafBlocks(img, ino, n, Min(m, MAX_LOGICAL_BLOCKS))
            + (if n <= DIRECT_BLOCKS then Blocks(img, ino, [Root1]) else [])
            + DoubleBlocks(img, ino, n) + TripleBlocks(img, ino, n)
  {
    hide At, Blocks, Leaves, Sibs, TripleTables;
    var leaves := Leaves(n, Min(m, MAX_LOGICAL_BLOCKS));
    var one := if n <= DIRECT_BLOCKS then [Root1] else [];
    var two := DoublePositions(n);
    TripleTablesInTree(SLOTS);
    var three := if n <= DOUBLE_END then TripleTables(SLOTS) + [Root3] else [];
    LeavesInTree(n, Min(m, MAX_LOGICAL_BLOCKS));
    RemovedInTree(n, m);
    assert Tables(n) == one + two + three;
    NoBlocks(img, ino, []);
    BlocksConcat(img, ino, one, two);
    BlocksConcat(img, ino, one + two, three);
    BlocksConcat(img, ino, leaves, one + two + three);
    assert Removed(n, m) == leaves + (one + two + three);
  }

  lemma AllCleared(img0: Image, ino0: Inode, gone: iset<Pos>, n: nat, m: nat)
    requires EndsAt(img0, ino0, m)
    requires forall k :: n <= k < m && k < MAX_LOGICAL_BLOCKS ==> Leaf(k) in gone || At(img0, ino0, Leaf(k)) == 0
    requires n <= DIRECT_BLOCKS ==> Root1 in gone || At(img0, ino0, Root1) == 0
    requires n <= SINGLE_END ==> Root2 in gone || At(img0, ino0, Root2) == 0
    requires forall a :: 0 <= a < SLOTS && KeepSibs(n) <= a ==> Sib2(a) in gone || At(img0, ino0, Sib2(a)) == 0
    requires n <= DOUBLE_END ==> Root3 in gone || At(img0, ino0, Root3) == 0
    requires n <= DOUBLE_END ==> forall a :: 0 <= a < SLOTS ==> Dib3(a) in gone || At(img0, ino0, Dib3(a)) == 0
    requires n <= DOUBLE_END ==>
               forall a, b :: 0 <= a < SLOTS && 0 <= b < SLOTS ==> Sib3(a, b) in gone || At(img0, ino0, Sib3(a, b)) == 0
    ensures forall q :: InTree(q) && !Kept(q, n) ==> q in gone || At(img0, ino0, q) == 0
  {
    hide At;
    KeepExact(n);
  }

  lemma {:induction false} SameSlots(img: Image, ino: Inode, size: nat, q: Pos)
    requires InTree(q)
    ensures At(img, ino.(size := size), q) == At(img, ino, q)
    decreases Rank(q)
  {
    if Up(q).Some? { SameSlots(img, ino, size, Up(q).value.0); }
  }

  lemma SizeIrrelevant(img: Image, ino: Inode, size: nat, img0: Image, ino0: Inode, n: nat)
    requires Shrunk(img0, ino0, img, ino, n)
    ensures Shrunk(img0, ino0, img, ino.(size := size), n)
  {
    hide At, Kept;
    forall q | InTree(q) ensures At(img, ino.(size := size), q) == At(img, ino, q) { SameSlots(img, ino, size, q); }
  }

  lemma TableAt(g: Geometry, cur: Image, ino: Inode, img0: Image, ino0: Inode, gone: iset<Pos>, t: Pos)
    requires WellFormed(g, img0, ino0) && Without(cur, ino, img0, ino0, gone) && InTree(t) && t !in gone
    requires At(img0, ino0, t) != 0
    ensures At(cur, ino, t) == At(img0, ino0, t) && IsData(g, At(img0, ino0, t))
  {
  }

  lemma DataFits(g: Geometry, len: nat, b: nat)
    requires Mounted(g, len) && IsData(g, b)
    ensures BLOCK_BITS * b + BLOCK_BITS <= len
  {
  }

  lemma WritePtrIsSplice(img: Image, b: nat, slot: nat)
    requires BLOCK_BITS * b + BLOCK_BITS <= |img| && slot < SLOTS
    ensures WritePtr(img, b, slot, 0) == Splice(img, BLOCK_BITS * b + 64 * slot, ToBits(0, 64))
  {
  }
}
