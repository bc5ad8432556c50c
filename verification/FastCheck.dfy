/** Which lists the fast check lets through (src/journal.rs, `is_already_coalesced`), said of the list
    itself instead of the counters of the scan. */
module FastCheck {
  import opened LastWins
  import opened MetadataOps
  import opened Frames
  import opened CoalesceNormal

  /** In order and distinct; of data bits at most a freeing and an allocating one; of slices at most one;
      of records at most two. */
  ghost predicate Quick(ops: seq<MetadataOp>) {
    && (forall i, j :: 0 <= i < j < |ops| ==> QuickPair(ops[i], ops[j]))
    && (forall i :: 0 <= i < |ops| ==> QuickOp(ops[i]))
    && (forall i, j, k :: 0 <= i < j < k < |ops| ==> !ThreeRecords(ops[i], ops[j], ops[k]))
  }

  predicate QuickPair(a: MetadataOp, b: MetadataOp) {
    && MayPrecede(a, b)
    && (IsData(a) && IsData(b) ==> a.used != b.used)
    && !(a.WriteBlockSlice? && b.WriteBlockSlice?)
  }

  predicate QuickOp(op: MetadataOp) {
    op.SetDataBitmapRange? ==> op.count != 1
  }

  predicate ThreeRecords(a: MetadataOp, b: MetadataOp, c: MetadataOp) {
    a.WriteInode? && b.WriteInode? && c.WriteInode?
  }

  ghost predicate HasData(ops: seq<MetadataOp>, used: bool) {
    exists i :: 0 <= i < |ops| && IsData(ops[i]) && ops[i].used == used
  }

  ghost predicate HasSlice(ops: seq<MetadataOp>) {
    exists i :: 0 <= i < |ops| && ops[i].WriteBlockSlice?
  }

  ghost predicate HasRecord(ops: seq<MetadataOp>) {
    exists i :: 0 <= i < |ops| && ops[i].WriteInode?
  }

  ghost predicate HasTwoRecords(ops: seq<MetadataOp>) {
    exists i, j :: 0 <= i < j < |ops| && ops[i].WriteInode? && ops[j].WriteInode?
  }

  /** What the counters say about the operations scanned. */
  ghost predicate Tracks(ops: seq<MetadataOp>, st: Scan) {
    && st.phase == (if ops == [] then 0 else Phase(ops[|ops| - 1]))
    && (st.data >= 1 <==> HasData(ops, st.firstUsed))
    && (st.data >= 2 <==> HasData(ops, !st.firstUsed))
    && (st.slices >= 1 <==> HasSlice(ops))
    && (st.inodes >= 1 <==> HasRecord(ops))
    && (st.inodes >= 2 <==> HasTwoRecords(ops))
    && (st.inodes == 1 ==> forall i :: 0 <= i < |ops| && ops[i].WriteInode? ==> ops[i].inodeId == st.firstInode)
  }

  lemma {:induction false} ScanTracks(ops: seq<MetadataOp>)
    ensures ScanAll(ops).Some? <==> Quick(ops)
    ensures ScanAll(ops).Some? ==> Tracks(ops, ScanAll(ops).value)
  {
    hide ScanStep, Quick, Tracks;
    if ops == [] {
      NothingScanned();
    } else {
      var n := |ops| - 1;
      ScanTracks(ops[..n]);
      assert ops[..n] + [ops[n]] == ops;
      QuickSnoc(ops[..n], ops[n]);
      if Quick(ops[..n]) {
        var st := ScanAll(ops[..n]).value;
        StepIsQuick(ops[..n], st, ops[n]);
        if ScanStep(st, ops[n]).Some? { StepTracks(ops[..n], st, ops[n]); }
      }
    }
  }

  lemma NothingScanned()
    ensures Quick([]) && Tracks([], SCAN_START)
  {
  }

  /** What one more operation asks of the list before it. */
  ghost predicate Welcome(ops: seq<MetadataOp>, op: MetadataOp) {
    && QuickOp(op)
    && (forall i :: 0 <= i < |ops| ==> QuickPair(ops[i], op))
    && (op.WriteInode? ==> !HasTwoRecords(ops))
  }

  lemma QuickSnoc(ops: seq<MetadataOp>, op: MetadataOp)
    ensures Quick(ops + [op]) <==> Quick(ops) && Welcome(ops, op)
  {
    hide QuickPair, QuickOp;
    var s, n := ops + [op], |ops|;
    assert forall i :: 0 <= i < n ==> s[i] == ops[i];
    if Quick(s) {
      forall i, j | 0 <= i < j < n ensures QuickPair(ops[i], ops[j]) { assert QuickPair(s[i], s[j]); }
      forall i | 0 <= i < n ensures QuickOp(ops[i]) && QuickPair(ops[i], op) {
        assert QuickOp(s[i]) && QuickPair(s[i], s[n]);
      }
      assert QuickOp(s[n]);
      forall i, j, k | 0 <= i < j < k < n ensures !ThreeRecords(ops[i], ops[j], ops[k]) {
        assert !ThreeRecords(s[i], s[j], s[k]);
      }
      forall i, j | 0 <= i < j < n ensures op.WriteInode? ==> !(ops[i].WriteInode? && ops[j].WriteInode?) {
        assert !ThreeRecords(s[i], s[j], s[n]);
      }
    }
  }

  /** The step goes on exactly when the operation is welcome. */
  lemma StepIsQuick(ops: seq<MetadataOp>, st: Scan, op: MetadataOp)
    requires Quick(ops) && Tracks(ops, st)
    ensures ScanStep(st, op).Some? <==> Welcome(ops, op)
  {
  }

  lemma HasSnoc(ops: seq<MetadataOp>, op: MetadataOp)
    ensures forall used :: HasData(ops + [op], used) <==> HasData(ops, used) || (IsData(op) && op.used == used)
    ensures HasSlice(ops + [op]) <==> HasSlice(ops) || op.WriteBlockSlice?
    ensures HasRecord(ops + [op]) <==> HasRecord(ops) || op.WriteInode?
    ensures HasTwoRecords(ops + [op]) <==> HasTwoRecords(ops) || (HasRecord(ops) && op.WriteInode?)
  {
    var s, n := ops + [op], |ops|;
    assert s[n] == op && forall i :: 0 <= i < n ==> s[i] == ops[i];
    forall i | 0 <= i < n ensures ops[i] == s[i] {}
  }

  lemma StepTracks(ops: seq<MetadataOp>, st: Scan, op: MetadataOp)
    requires Tracks(ops, st) && ScanStep(st, op).Some?
    ensures Tracks(ops + [op], ScanStep(st, op).value)
  {
    hide HasData, HasSlice, HasTwoRecords;
    HasSnoc(ops, op);
  }

  /** The fast check holds of exactly the lists that are short or quick. */
  lemma FastCheckExactly(ops: seq<MetadataOp>)
    ensures AlreadyCoalesced(ops) <==> |ops| <= 1 || Quick(ops)
  {
    ScanTracks(ops);
  }
}
