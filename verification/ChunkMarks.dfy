/** The bitmap operations of a chunk transaction: what it allocates stays allocated in it. */
module ChunkMarks {
  import opened LastWins
  import opened MetadataOps
  import opened Coalesce
  import opened CoalesceMeaning

  /** The blocks taken are those the operations mark as used, and each was last marked as used. */
  ghost predicate Marked(taken: set<nat>, ops: seq<MetadataOp>) {
    && (forall b :: b in taken ==> LastRun(DataRuns(ops), b) == Some(true))
    && (forall b: nat :: Covered(DataRuns(ops), b, true) ==> b in taken)
  }

  lemma NothingMarked()
    ensures Marked({}, [])
  {
  }

  lemma RunsSnoc(ops: seq<MetadataOp>, op: MetadataOp)
    ensures DataRuns(ops + [op]) ==
            DataRuns(ops) + if op.SetDataBitmap? || op.SetDataBitmapRange? then [RunOf(op)] else []
  {
    assert (ops + [op])[..|ops|] == ops;
  }

  /** One run more. */
  lemma LastRunSnoc(runs: seq<Run>, r: Run, b: nat)
    ensures LastRun(runs + [r], b) == if RunBit(r, b).Some? then RunBit(r, b) else LastRun(runs, b)
    ensures forall v :: Covered(runs + [r], b, v) <==> Covered(runs, b, v) || RunBit(r, b) == Some(v)
  {
    hide RunBit;
    LastSnoc(runs, r, RunView(b));
    var all := runs + [r];
    forall v ensures Covered(all, b, v) <==> Covered(runs, b, v) || RunBit(r, b) == Some(v) {
      if Covered(runs, b, v) {
        var i :| 0 <= i < |runs| && RunBit(runs[i], b) == Some(v);
        assert RunBit(all[i], b) == Some(v);
      }
      assert all[|runs|] == r;
    }
  }

  lemma MarkedMore(taken: set<nat>, ops: seq<MetadataOp>, op: MetadataOp, taken': set<nat>)
    requires Marked(taken, ops) && (op.SetDataBitmap? || op.SetDataBitmapRange?) && RunOf(op).used
    requires forall b :: b in taken' <==> b in taken || RunBit(RunOf(op), b).Some?
    ensures Marked(taken', ops + [op])
  {
    hide DataRuns, LastRun, Covered;
    RunsSnoc(ops, op);
    var runs, r := DataRuns(ops), RunOf(op);
    forall b: nat ensures b in taken' ==> LastRun(runs + [r], b) == Some(true)
      ensures Covered(runs + [r], b, true) ==> b in taken'
    {
      LastRunSnoc(runs, r, b);
    }
  }

  lemma MarkedFree(taken: set<nat>, ops: seq<MetadataOp>, op: MetadataOp)
    requires Marked(taken, ops) && (op.SetDataBitmap? || op.SetDataBitmapRange?) && !RunOf(op).used
    requires forall b :: b in taken ==> RunBit(RunOf(op), b).None?
    ensures Marked(taken, ops + [op])
  {
    hide DataRuns, LastRun, Covered;
    RunsSnoc(ops, op);
    var runs, r := DataRuns(ops), RunOf(op);
    forall b: nat ensures b in taken ==> LastRun(runs + [r], b) == Some(true)
      ensures Covered(runs + [r], b, true) ==> b in taken
    {
      LastRunSnoc(runs, r, b);
    }
  }

  lemma MarkedSame(taken: set<nat>, ops: seq<MetadataOp>, op: MetadataOp)
    requires Marked(taken, ops) && op.WriteBlockSlice?
    ensures Marked(taken, ops + [op])
  {
    hide DataRuns, LastRun, Covered;
    RunsSnoc(ops, op);
    assert DataRuns(ops) + [] == DataRuns(ops);
  }

  /** So nothing that is marked as used in the transaction is freed later in it. */
  lemma MarkedLast(taken: set<nat>, ops: seq<MetadataOp>)
    requires Marked(taken, ops)
    ensures AllocatedLast(DataRuns(ops))
  {
    hide DataRuns, LastRun, Covered;
  }
}
