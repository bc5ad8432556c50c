/** What recovery does with the operations the simulated path records. */
module MirrorReplay {
  import opened Sizes
  import opened Bytes
  import opened MetadataOps
  import opened ImageModel
  import opened Coalesce
  import opened CoalesceMeaning
  import opened CoalesceTheorem
  import opened PointerTree
  import opened BlockImage
  import opened Mirror

  /** The simulated path only allocates blocks and writes single aligned pointers. */
  predicate Recorded(op: MetadataOp) {
    (op.SetDataBitmap? && op.used) || (op.WriteBlockSlice? && op.offset % 8 == 0 && |op.data| == 8)
  }

  predicate AllRecorded(ops: seq<MetadataOp>) {
    forall i :: 0 <= i < |ops| ==> Recorded(ops[i])
  }

  lemma ChildRecords(g: Geometry, img: Image, s: Sim, parent: u64, slot: nat)
    requires g.blockCount < U64_MAX && slot < SLOTS && AllRecorded(s.ops)
    ensures AllRecorded(SimChild(g, img, s, parent, slot).0.ops)
  {
    hide ReadPtr, LE;
  }

  lemma {:induction false} DescendRecords(g: Geometry, img: Image, s: Sim, parent: u64, path: seq<nat>)
    requires g.blockCount < U64_MAX && InSlots(path) && AllRecorded(s.ops)
    ensures AllRecorded(SimDescend(g, img, s, parent, path).0.ops)
    decreases |path|
  {
    hide SimChild, AllRecorded;
    if path != [] {
      var (s', r) := SimChild(g, img, s, parent, path[0]);
      ChildRecords(g, img, s, parent, path[0]);
      if r.Got? { DescendRecords(g, img, s', r.id, path[1..]); }
    }
  }

  lemma {:induction false} RunRecords(g: Geometry, img: Image, s: Sim, ino: Inode, idxs: seq<nat>)
    requires g.blockCount < U64_MAX && U64Slots(ino) && AllRecorded(s.ops)
    ensures AllRecorded(SimRunAll(g, img, s, ino, idxs).0.ops)
    decreases |idxs|
  {
    hide SimDescend, SetRoot, RootSlot, PathOf, FromLogical;
    if idxs != [] {
      LogicalRoundTrip(idxs[0]);
      var (s', ino', _) := SimGet(g, img, s, ino, idxs[0]);
      assert AllRecorded(s'.ops) by {
        if FromLogical(idxs[0]).Some? {
          var p := FromLogical(idxs[0]).value;
          var (s1, r1) := SimRoot(g, s, RootSlot(ino, p));
          assert AllRecorded(s1.ops);
          if r1.Got? { DescendRecords(g, img, s1, r1.id, PathOf(p)); }
        }
      }
      RunRecords(g, img, s', ino', idxs[1..]);
    }
  }

  lemma {:induction false} RecordedSlices(ops: seq<MetadataOp>)
    requires AllRecorded(ops)
    ensures forall i :: 0 <= i < |AllSlices(ops)| ==> AllSlices(ops)[i].offset % 8 == 0 && |AllSlices(ops)[i].data| == 8
  {
    if ops != [] { RecordedSlices(ops[..|ops| - 1]); }
  }

  lemma {:induction false} RecordedRuns(ops: seq<MetadataOp>)
    requires AllRecorded(ops)
    ensures forall i :: 0 <= i < |DataRuns(ops)| ==> DataRuns(ops)[i].used
  {
    if ops != [] { RecordedRuns(ops[..|ops| - 1]); }
  }

  /** The operations always meet the coalescing condition, so replaying the coalesced transaction over the
      image as it was gives what the direct path would have written exactly if the blocks handed out were
      clear where the operations do not write. */
  lemma ReplayGivesDirectImage(g: Geometry, img: Image, hint: nat, ino: Inode, idxs: seq<nat>, sorted: seq<Run>)
    requires Mounted(g, |img|) && ValidGeometry(g, |img|) && g.blockCount - g.dataBlockStart < 0x1_0000_0000
    requires SoundInode(g, img, ino) && U64Slots(ino)
    requires SortOf(DataRuns(SimRunAll(g, img, NewSim(g, img, hint), ino, idxs).0.ops), sorted)
    ensures var s := SimRunAll(g, img, NewSim(g, img, hint), ino, idxs).0;
            ApplyAll(g, img, CoalesceWith(s.ops, sorted)) == Ok(DirectRun(g, Fs(img, hint), ino, idxs).0.img) <==>
            TakenClear(g, img, s.taken, s.ops)
  {
    hide SimRunAll, DirectRun, TakenClear, SoundInode, CoalesceWith, ApplyAll, DataRuns, AllSlices, SortOf,
         ValidGeometry, AllocatedLast, RunBit;
    var ops := SimRunAll(g, img, NewSim(g, img, hint), ino, idxs).0.ops;
    SimulationMirrorsDirect(g, img, hint, ino, idxs);
    RunRecords(g, img, NewSim(g, img, hint), ino, idxs);
    RecordedSlices(ops);
    RecordedRuns(ops);
    assert Tidy(AllSlices(ops));
    assert AllocatedLast(DataRuns(ops)) by { OnlyAllocates(DataRuns(ops)); }
    CoalescingKeepsMeaning(g, img, ops, sorted);
  }

  lemma OnlyAllocates(runs: seq<Run>)
    requires forall i :: 0 <= i < |runs| ==> runs[i].used
    ensures AllocatedLast(runs)
  {
    NoFreeAfterAllocation(runs);
  }
}
