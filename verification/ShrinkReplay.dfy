/** What recovery does with the transaction of a shrink. */
module ShrinkReplay {
  import opened MetadataOps
  import opened ImageModel
  import opened Coalesce
  import opened CoalesceMeaning
  import opened CoalesceTheorem
  import opened PointerTree
  import opened BlockImage
  import opened TreePositions
  import opened ShrinkRun

  predicate AllIds(blocks: seq<nat>) {
    forall i :: 0 <= i < |blocks| ==> blocks[i] < 0x1_0000_0000_0000_0000
  }

  /** One operation per freed block, in order. */
  function Frees(freed: seq<nat>): (r: seq<MetadataOp>)
    requires AllIds(freed)
    ensures |r| == |freed| && forall i :: 0 <= i < |r| ==> r[i] == SetDataBitmap(freed[i], false)
  {
    seq(|freed|, i requires 0 <= i < |freed| => SetDataBitmap(freed[i], false))
  }

  /** The transaction: what was staged, the freed blocks, and the inode. */
  function Transaction(ops: seq<MetadataOp>, freed: seq<nat>, inode: MetadataOp): seq<MetadataOp>
    requires AllIds(freed)
  {
    ops + Frees(freed) + [inode]
  }

  /** Slices, frees, and inodes. */
  predicate Shrinks(op: MetadataOp) {
    op.WriteBlockSlice? || (op.SetDataBitmap? && !op.used) || op.WriteInode?
  }

  lemma {:induction false} OnlyFrees(ops: seq<MetadataOp>)
    requires forall i :: 0 <= i < |ops| ==> Shrinks(ops[i])
    ensures forall i :: 0 <= i < |DataRuns(ops)| ==> !DataRuns(ops)[i].used
  {
    if ops != [] { OnlyFrees(ops[..|ops| - 1]); }
  }

  lemma {:induction false} SlicesConcat(a: seq<MetadataOp>, b: seq<MetadataOp>)
    requires forall i :: 0 <= i < |b| ==> !b[i].WriteBlockSlice?
    ensures AllSlices(a + b) == AllSlices(a)
    decreases |b|
  {
    if b == [] {
      assert a + b == a;
    } else {
      assert (a + b)[..|a + b| - 1] == a + b[..|b| - 1];
      SlicesConcat(a, b[..|b| - 1]);
    }
  }

  lemma {:induction false} SlicesOfAll(ops: seq<MetadataOp>)
    requires forall i :: 0 <= i < |ops| ==> ops[i].WriteBlockSlice?
    ensures |AllSlices(ops)| == |ops| && forall i :: 0 <= i < |ops| ==> AllSlices(ops)[i] == SliceOf(ops[i])
  {
    if ops != [] {
      var n := |ops| - 1;
      SlicesOfAll(ops[..n]);
      assert AllSlices(ops) == AllSlices(ops[..n]) + [SliceOf(ops[n])];
    }
  }

  /** Two pointers of pointer blocks, or the slack of a data block and a pointer, never half overlap. */
  lemma StagedCompatible(img: Image, ino: Inode, x: MetadataOp, y: MetadataOp)
    requires NamedOnce(img, ino) && SlotOp(img, ino, y) && (SlotOp(img, ino, x) || SlackOp(img, ino, x))
    ensures Compatible(SliceOf(x), SliceOf(y))
  {
    hide At;
    if !SlotOp(img, ino, x) {
      var s :| InTree(s) && s.Leaf? && At(img, ino, s) == x.blockId != 0;
      var t :| InTree(t) && !t.Leaf? && At(img, ino, t) == y.blockId != 0;
      assert At(img, ino, s) != At(img, ino, t);
    }
  }

  lemma StagedIsTidy(img: Image, ino: Inode, ops: seq<MetadataOp>)
    requires NamedOnce(img, ino) && Staged(img, ino, ops)
    ensures Tidy(AllSlices(ops))
    ensures forall i :: 0 <= i < |ops| ==> ops[i].WriteBlockSlice?
  {
    hide NamedOnce, Compatible;
    forall i | 0 <= i < |ops| ensures ops[i].WriteBlockSlice? {
      if i > 0 { assert SlotOp(img, ino, ops[i]); }
    }
    SlicesOfAll(ops);
    var s := AllSlices(ops);
    forall i, j | 0 <= i < j < |s| ensures Compatible(s[i], s[j]) {
      assert SlotOp(img, ino, ops[j]);
      if i > 0 { assert SlotOp(img, ino, ops[i]); }
      StagedCompatible(img, ino, ops[i], ops[j]);
    }
  }

  /** Blocks of the data area can be freed. */
  lemma FreesFit(g: Geometry, len: nat, freed: seq<nat>)
    requires ValidGeometry(g, len) && Mounted(g, len) && AllIds(freed)
    requires forall b :: b in freed ==> IsData(g, b)
    ensures AllFit(g, len, Frees(freed))
  {
    forall i | 0 <= i < |freed| ensures Fits(g, len, SetDataBitmap(freed[i], false)) {
      assert IsData(g, freed[i]);
      BitFits(g, len, freed[i]);
    }
  }

  lemma BitFits(g: Geometry, len: nat, b: nat)
    requires ValidGeometry(g, len) && Mounted(g, len) && IsData(g, b) && b < 0x1_0000_0000_0000_0000
    ensures Fits(g, len, SetDataBitmap(b, false))
  {
    hide Lo, Hi;
    assert b - g.dataBlockStart < 8 * (g.dataBitmapBlocks * g.blockSize);
    assert SpanFits(g, len, g.dataBitmapBlock, g.dataBitmapBlocks);
  }

  /** The transaction of a shrink can be applied and always meets the coalescing condition, so replaying
      its coalesced form over the image as it was gives what applying it gave. */
  lemma ReplayGivesShrunkImage(g: Geometry, img: Image, ino: Inode, ops: seq<MetadataOp>, cur: Image, freed: seq<nat>,
                               inode: MetadataOp, sorted: seq<Run>)
    requires ValidGeometry(g, |img|) && g.blockCount - g.dataBlockStart < 0x1_0000_0000
    requires WellFormed(g, img, ino) && Staged(img, ino, ops) && ApplyAll(g, img, ops) == Ok(cur)
    requires AllIds(freed) && (forall b :: b in freed ==> IsData(g, b)) && inode.WriteInode? && Fits(g, |img|, inode)
    requires SortOf(DataRuns(Transaction(ops, freed, inode)), sorted)
    ensures ApplyAll(g, img, Transaction(ops, freed, inode)).Ok?
    ensures ApplyAll(g, img, CoalesceWith(Transaction(ops, freed, inode), sorted)) ==
            ApplyAll(g, img, Transaction(ops, freed, inode)) == ApplyAll(g, cur, Frees(freed) + [inode])
  {
    hide ValidGeometry, ApplyAll, Fits, DataRuns, SortOf, CoalesceWith, AllSlices, Tidy, AllData, NamedOnce,
         AllocatedLast, Staged, LastWrite;
    var tail, all := Frees(freed) + [inode], Transaction(ops, freed, inode);
    assert all == ops + tail;
    StagedIsTidy(img, ino, ops);
    SlicesConcat(ops, tail);
    FreesFit(g, |img|, freed);
    ApplyAllExact(g, img, ops);
    ApplyAllExact(g, img, all);
    assert AllFit(g, |img|, all);
    ApplyAllConcat(g, img, ops, tail);
    assert forall i :: 0 <= i < |all| ==> Shrinks(all[i]);
    OnlyFrees(all);
    assert AllocatedLast(DataRuns(all)) by { NothingAllocated(DataRuns(all)); }
    CoalescingKeepsMeaning(g, img, all, sorted);
  }

  lemma NothingAllocated(runs: seq<Run>)
    requires forall i :: 0 <= i < |runs| ==> !runs[i].used
    ensures AllocatedLast(runs)
  {
    NoFreeAfterAllocation(runs);
  }
}
