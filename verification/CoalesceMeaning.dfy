/** Which bits a list of operations leaves behind, group by group, before and after coalescing. */
module CoalesceMeaning {
  import opened Bytes
  import opened LastWins
  import opened MetadataOps
  import opened Coalesce

  // ---------------------------------------------------------------------------
  // Views: what one operation says about one bit of one structure
  // ---------------------------------------------------------------------------

  function InodeBit(op: MetadataOp, id: nat): Option<bool> {
    if op.SetInodeBitmap? && op.inodeId == id then Some(op.used) else None
  }

  function RunBit(r: Run, b: nat): Option<bool> {
    if r.start <= b < r.start + r.count then Some(r.used) else None
  }

  function DataBit(op: MetadataOp, b: nat): Option<bool> {
    if op.SetDataBitmap? || op.SetDataBitmapRange? then RunBit(RunOf(op), b) else None
  }

  /** Bit `k` of block `b`. */
  function SliceBit(s: Slice, b: nat, k: nat): Option<bool> {
    if s.block == b && 8 * s.offset <= k < 8 * s.offset + 8 * |s.data|
    then Some(BitsOf(s.data)[k - 8 * s.offset])
    else None
  }

  function SliceOf(op: MetadataOp): Slice
    requires op.WriteBlockSlice?
  {
    Slice(op.blockId, op.offset, op.data)
  }

  function BlockBitOf(op: MetadataOp, b: nat, k: nat): Option<bool> {
    if op.WriteBlockSlice? then SliceBit(SliceOf(op), b, k) else None
  }

  /** Bit `k` of the record of inode `id`. */
  function ImageBit(i: Record, id: nat, k: nat): Option<bool> {
    if i.id == id && k < 8 * INODE_BYTES then Some(BitsOf(i.bytes)[k]) else None
  }

  function ImageOf(op: MetadataOp): Record
    requires op.WriteInode?
  {
    Record(op.inodeId, op.inodeBytes)
  }

  function RecordBit(op: MetadataOp, id: nat, k: nat): Option<bool> {
    if op.WriteInode? then ImageBit(ImageOf(op), id, k) else None
  }

  function InodeBitView(id: nat): MetadataOp -> Option<bool> { op => InodeBit(op, id) }
  function DataView(b: nat): MetadataOp -> Option<bool> { op => DataBit(op, b) }
  function RunView(b: nat): Run -> Option<bool> { r => RunBit(r, b) }
  function BlockView(b: nat, k: nat): MetadataOp -> Option<bool> { op => BlockBitOf(op, b, k) }
  function SliceView(b: nat, k: nat): Slice -> Option<bool> { s => SliceBit(s, b, k) }
  function RecordView(id: nat, k: nat): MetadataOp -> Option<bool> { op => RecordBit(op, id, k) }
  function ImageView(id: nat, k: nat): Record -> Option<bool> { i => ImageBit(i, id, k) }

  // ---------------------------------------------------------------------------
  // Inode bitmap: order is kept
  // ---------------------------------------------------------------------------

  lemma {:induction false} InodeBitsKept(ops: seq<MetadataOp>, id: nat)
    ensures Last(InodeBits(ops), InodeBitView(id)) == Last(ops, InodeBitView(id))
  {
    var f := InodeBitView(id);
    if ops != [] {
      var n := |ops| - 1;
      InodeBitsKept(ops[..n], id);
      assert ops == ops[..n] + [ops[n]];
      LastSnoc(ops[..n], ops[n], f);
      if ops[n].SetInodeBitmap? {
        LastSnoc(InodeBits(ops[..n]), ops[n], f);
      } else {
        assert InodeBits(ops) == InodeBits(ops[..n]);
      }
    }
  }

  // ---------------------------------------------------------------------------
  // Inode records: one per id, the newest
  // ---------------------------------------------------------------------------

  predicate DistinctIds(s: seq<Record>) {
    forall i, j :: 0 <= i < j < |s| ==> s[i].id != s[j].id
  }

  lemma {:induction false} PutImageIds(s: seq<Record>, x: Record)
    ensures forall i :: i in PutImage(s, x) ==> i == x || i in s
    ensures DistinctIds(s) ==> DistinctIds(PutImage(s, x))
  {
    if s != [] && s[0].id != x.id {
      PutImageIds(s[1..], x);
      var t := PutImage(s[1..], x);
      if DistinctIds(s) {
        forall j | 0 <= j < |t| ensures t[j].id != s[0].id {
          assert t[j] in t;
          if t[j] != x { assert t[j] in s[1..]; }
        }
      }
    }
  }

  lemma {:induction false} PutImageBit(s: seq<Record>, x: Record, id: nat, k: nat)
    requires DistinctIds(s)
    ensures var f := ImageView(id, k);
            Last(PutImage(s, x), f) == if f(x).Some? then f(x) else Last(s, f)
  {
    var f := ImageView(id, k);
    if s == [] {
      LastSnoc([], x, f);
    } else if s[0].id == x.id {
      LastCons(x, s[1..], f);
      if f(x).Some? { LastNone(s[1..], f); }
    } else {
      PutImageBit(s[1..], x, id, k);
      LastCons(s[0], PutImage(s[1..], x), f);
    }
  }

  lemma {:induction false} InodeImagesKept(ops: seq<MetadataOp>, id: nat, k: nat)
    ensures DistinctIds(InodeImages(ops))
    ensures Last(InodeImages(ops), ImageView(id, k)) == Last(ops, RecordView(id, k))
  {
    var f, g := ImageView(id, k), RecordView(id, k);
    if ops != [] {
      var n := |ops| - 1;
      InodeImagesKept(ops[..n], id, k);
      assert ops == ops[..n] + [ops[n]];
      LastSnoc(ops[..n], ops[n], g);
      if ops[n].WriteInode? {
        PutImageIds(InodeImages(ops[..n]), ImageOf(ops[n]));
        PutImageBit(InodeImages(ops[..n]), ImageOf(ops[n]), id, k);
        assert f(ImageOf(ops[n])) == g(ops[n]);
      }
    }
  }

  // ---------------------------------------------------------------------------
  // Data bitmap: frees move before allocations
  // ---------------------------------------------------------------------------

  ghost predicate Covered(runs: seq<Run>, b: nat, used: bool) {
    exists i :: 0 <= i < |runs| && RunBit(runs[i], b) == Some(used)
  }

  ghost function LastRun(runs: seq<Run>, b: nat): Option<bool> {
    Last(runs, RunView(b))
  }

  lemma {:induction false} DataRunsView(ops: seq<MetadataOp>, b: nat)
    ensures LastRun(DataRuns(ops), b) == Last(ops, DataView(b))
  {
    var f, g := RunView(b), DataView(b);
    if ops != [] {
      var n := |ops| - 1;
      DataRunsView(ops[..n], b);
      assert ops == ops[..n] + [ops[n]];
      LastSnoc(ops[..n], ops[n], g);
      if ops[n].SetDataBitmap? || ops[n].SetDataBitmapRange? {
        LastSnoc(DataRuns(ops[..n]), RunOf(ops[n]), f);
      } else {
        assert DataRuns(ops) == DataRuns(ops[..n]);
      }
    }
  }

  /** After the sort the last run covering a block allocates it whenever any run does. */
  lemma SortedRunsBit(sorted: seq<Run>, b: nat)
    requires SortedRuns(sorted)
    ensures LastRun(sorted, b) ==
            if Covered(sorted, b, true) then Some(true) else if Covered(sorted, b, false) then Some(false) else None
  {
    var f := RunView(b);
    if LastRun(sorted, b).None? {
      forall i | 0 <= i < |sorted| ensures RunBit(sorted[i], b).None? {
        if f(sorted[i]).Some? { LastSome(sorted, i, f); }
      }
    } else {
      var k := LastIndex(sorted, f);
      if Covered(sorted, b, true) {
        var i :| 0 <= i < |sorted| && RunBit(sorted[i], b) == Some(true);
        assert f(sorted[i]).Some?;
        assert f(sorted[k]) == Some(sorted[k].used);
      }
    }
  }

  lemma CoveredPermuted(a: seq<Run>, c: seq<Run>, b: nat, used: bool)
    requires multiset(a) == multiset(c) && Covered(a, b, used)
    ensures Covered(c, b, used)
  {
    var i :| 0 <= i < |a| && RunBit(a[i], b) == Some(used);
    assert a[i] in multiset(c);
  }

  lemma LastRunCovered(runs: seq<Run>, b: nat)
    ensures LastRun(runs, b).Some? <==> Covered(runs, b, true) || Covered(runs, b, false)
    ensures LastRun(runs, b).Some? ==> Covered(runs, b, LastRun(runs, b).value)
  {
    var f := RunView(b);
    if LastRun(runs, b).Some? {
      var k := LastIndex(runs, f);
    }
    forall i | 0 <= i < |runs| && RunBit(runs[i], b).Some? ensures LastRun(runs, b).Some? {
      LastSome(runs, i, f);
    }
  }

  /** Every block the list allocates is left allocated by the last operation that touches it. */
  ghost predicate AllocatedLast(runs: seq<Run>) {
    forall b :: Covered(runs, b, true) ==> LastRun(runs, b) == Some(true)
  }

  /** The sort keeps the meaning at block `b` exactly if no allocation of `b` is undone by a later free. */
  lemma SortKeepsBit(runs: seq<Run>, sorted: seq<Run>, b: nat)
    requires SortOf(runs, sorted)
    ensures LastRun(sorted, b) == LastRun(runs, b) <==> (Covered(runs, b, true) ==> LastRun(runs, b) == Some(true))
  {
    hide RunBit, LastRun;
    SortedRunsBit(sorted, b);
    LastRunCovered(runs, b);
    if Covered(runs, b, true) { CoveredPermuted(runs, sorted, b, true); }
    if Covered(sorted, b, true) { CoveredPermuted(sorted, runs, b, true); }
    if Covered(runs, b, false) { CoveredPermuted(runs, sorted, b, false); }
    if Covered(sorted, b, false) { CoveredPermuted(sorted, runs, b, false); }
  }

  ghost predicate RunsWithin(runs: seq<Run>, lo: nat, hi: nat) {
    forall i :: 0 <= i < |runs| ==> lo <= runs[i].start && runs[i].start + runs[i].count <= hi
  }

  lemma JoinBit(a: Run, c: Run, lo: nat, hi: nat, b: nat)
    requires Adjacent(a, c) && lo <= a.start && c.start + c.count <= hi && hi - lo < 0x1_0000_0000
    ensures JoinRuns(a, c).count == a.count + c.count
    ensures RunBit(JoinRuns(a, c), b) == if RunBit(c, b).Some? then RunBit(c, b) else RunBit(a, b)
  {
  }

  /** Merging adjacent runs never changes a bit, as long as a run length fits in 32 bits. */
  lemma {:induction false} MergeRunsBit(cur: Run, rest: seq<Run>, lo: nat, hi: nat, b: nat)
    requires hi - lo < 0x1_0000_0000
    requires lo <= cur.start && cur.start + cur.count <= hi && RunsWithin(rest, lo, hi)
    ensures LastRun(MergeRuns(cur, rest), b) == LastRun([cur] + rest, b)
    ensures RunsWithin(MergeRuns(cur, rest), lo, hi)
    decreases |rest|
  {
    hide RunBit;
    var f := RunView(b);
    LastCons(cur, rest, f);
    if rest == [] {
      assert [cur] + rest == [cur];
    } else if Adjacent(cur, rest[0]) {
      JoinBit(cur, rest[0], lo, hi, b);
      assert rest == [rest[0]] + rest[1..];
      LastCons(rest[0], rest[1..], f);
      LastCons(JoinRuns(cur, rest[0]), rest[1..], f);
      MergeRunsBit(JoinRuns(cur, rest[0]), rest[1..], lo, hi, b);
    } else {
      assert rest == [rest[0]] + rest[1..];
      MergeRunsBit(rest[0], rest[1..], lo, hi, b);
      LastCons(cur, MergeRuns(rest[0], rest[1..]), f);
    }
  }

  lemma MergedRunsBit(sorted: seq<Run>, lo: nat, hi: nat, b: nat)
    requires hi - lo < 0x1_0000_0000 && RunsWithin(sorted, lo, hi)
    ensures LastRun(MergedRuns(sorted), b) == LastRun(sorted, b)
    ensures RunsWithin(MergedRuns(sorted), lo, hi)
  {
    if sorted != [] {
      assert sorted == [sorted[0]] + sorted[1..];
      MergeRunsBit(sorted[0], sorted[1..], lo, hi, b);
    }
  }

  lemma RunOpsView(runs: seq<Run>, b: nat)
    ensures Last(RunOps(runs), DataView(b)) == LastRun(runs, b)
  {
    LastSame(RunOps(runs), runs, DataView(b), RunView(b));
  }

  // ---------------------------------------------------------------------------
  // Slices: the newest per (block, offset), in key order, joined
  // ---------------------------------------------------------------------------

  ghost function AllSlices(ops: seq<MetadataOp>): seq<Slice> {
    if ops == [] then []
    else
      var n := |ops| - 1;
      AllSlices(ops[..n]) + (if ops[n].WriteBlockSlice? then [SliceOf(ops[n])] else [])
  }

  ghost function LastSlice(s: seq<Slice>, b: nat, k: nat): Option<bool> {
    Last(s, SliceView(b, k))
  }

  /** Slices of one block that share an offset share a length, and otherwise do not overlap. */
  predicate Compatible(x: Slice, y: Slice) {
    x.block == y.block ==>
      if x.offset == y.offset then |x.data| == |y.data|
      else x.offset + |x.data| <= y.offset || y.offset + |y.data| <= x.offset
  }

  ghost predicate Tidy(s: seq<Slice>) {
    forall i, j :: 0 <= i < j < |s| ==> Compatible(s[i], s[j])
  }

  ghost predicate SortedSlices(s: seq<Slice>) {
    forall i, j :: 0 <= i < j < |s| ==> KeyLess(s[i].block, s[i].offset, s[j].block, s[j].offset)
  }

  lemma {:induction false} AllSlicesView(ops: seq<MetadataOp>, b: nat, k: nat)
    ensures LastSlice(AllSlices(ops), b, k) == Last(ops, BlockView(b, k))
  {
    hide SliceBit;
    var f, g := SliceView(b, k), BlockView(b, k);
    if ops != [] {
      var n := |ops| - 1;
      AllSlicesView(ops[..n], b, k);
      assert ops == ops[..n] + [ops[n]];
      LastSnoc(ops[..n], ops[n], g);
      if ops[n].WriteBlockSlice? {
        LastSnoc(AllSlices(ops[..n]), SliceOf(ops[n]), f);
      } else {
        assert AllSlices(ops) == AllSlices(ops[..n]);
      }
    }
  }

  lemma {:induction false} InsertSliceMembers(s: seq<Slice>, x: Slice)
    ensures forall y :: y in InsertSlice(s, x) ==> y == x || y in s
    ensures SortedSlices(s) ==> SortedSlices(InsertSlice(s, x))
  {
    if
      && s != [] && !(s[0].block == x.block && s[0].offset == x.offset)
      && !KeyLess(x.block, x.offset, s[0].block, s[0].offset)
    {
      InsertSliceMembers(s[1..], x);
      var t := InsertSlice(s[1..], x);
      if SortedSlices(s) {
        forall j | 0 <= j < |t| ensures KeyLess(s[0].block, s[0].offset, t[j].block, t[j].offset) {
          assert t[j] in t;
          if t[j] != x { assert t[j] in s[1..]; }
        }
      }
    }
  }

  /** A slice compatible with `x` under another key says nothing about the bits of `x`. */
  lemma CompatibleApart(x: Slice, y: Slice, b: nat, k: nat)
    requires Compatible(x, y) && SliceBit(x, b, k).Some?
    ensures SliceBit(y, b, k).Some? <==> y.block == x.block && y.offset == x.offset
  {
  }

  lemma CompatibleSilent(x: Slice, y: Slice, b: nat, k: nat)
    requires Compatible(x, y) && SliceBit(x, b, k).None?
    requires y.block == x.block && y.offset == x.offset
    ensures SliceBit(y, b, k).None?
  {
  }

  lemma {:induction false} InsertSliceBit(s: seq<Slice>, x: Slice, b: nat, k: nat)
    requires SortedSlices(s) && forall i :: 0 <= i < |s| ==> Compatible(x, s[i])
    ensures LastSlice(InsertSlice(s, x), b, k) ==
              if SliceBit(x, b, k).Some? then SliceBit(x, b, k) else LastSlice(s, b, k)
  {
    hide SliceBit, Compatible;
    var f := SliceView(b, k);
    if s == [] {
      LastCons(x, [], f);
      assert [x] + [] == [x];
    } else {
      assert s == [s[0]] + s[1..];
      LastCons(s[0], s[1..], f);
      if s[0].block == x.block && s[0].offset == x.offset {
        LastCons(x, s[1..], f);
        if SliceBit(x, b, k).Some? {
          OthersSilent(s[1..], x, b, k);
        } else {
          CompatibleSilent(x, s[0], b, k);
        }
      } else if KeyLess(x.block, x.offset, s[0].block, s[0].offset) {
        LastCons(x, s, f);
        if SliceBit(x, b, k).Some? {
          OthersSilent(s, x, b, k);
        }
      } else {
        InsertSliceBit(s[1..], x, b, k);
        LastCons(s[0], InsertSlice(s[1..], x), f);
      }
    }
  }

  lemma OthersSilent(s: seq<Slice>, x: Slice, b: nat, k: nat)
    requires SliceBit(x, b, k).Some?
    requires forall i :: 0 <= i < |s| ==> Compatible(x, s[i]) && !(s[i].block == x.block && s[i].offset == x.offset)
    ensures LastSlice(s, b, k).None?
  {
    hide SliceBit, Compatible;
    forall i | 0 <= i < |s| ensures SliceBit(s[i], b, k).None? { CompatibleApart(x, s[i], b, k); }
    LastNone(s, SliceView(b, k));
  }

  /** The ordered map holds, for every bit, the value written last. */
  lemma {:induction false} SliceMapKept(ops: seq<MetadataOp>, b: nat, k: nat)
    requires Tidy(AllSlices(ops))
    ensures SortedSlices(SliceMap(ops))
    ensures forall y :: y in SliceMap(ops) ==> y in AllSlices(ops)
    ensures LastSlice(SliceMap(ops), b, k) == LastSlice(AllSlices(ops), b, k)
  {
    hide SliceBit, Compatible;
    if ops != [] {
      var n := |ops| - 1;
      var all, m := AllSlices(ops[..n]), SliceMap(ops[..n]);
      if ops[n].WriteBlockSlice? {
        var x := SliceOf(ops[n]);
        var s := AllSlices(ops);
        assert s == all + [x] && s[|all|] == x;
        forall i, j | 0 <= i < j < |all| ensures Compatible(all[i], all[j]) { assert s[i] == all[i] && s[j] == all[j]; }
        SliceMapKept(ops[..n], b, k);
        InsertSliceMembers(m, x);
        forall i | 0 <= i < |m| ensures Compatible(x, m[i]) {
          assert m[i] in m;
          var j :| 0 <= j < |all| && all[j] == m[i];
          assert s[j] == all[j];
          CompatibleSym(s[j], x);
        }
        InsertSliceBit(m, x, b, k);
        LastSnoc(all, x, SliceView(b, k));
      } else {
        assert AllSlices(ops) == all;
        SliceMapKept(ops[..n], b, k);
      }
    }
  }

  lemma CompatibleSym(x: Slice, y: Slice)
    requires Compatible(x, y)
    ensures Compatible(y, x)
  {
  }

  lemma JoinSliceBit(a: Slice, c: Slice, b: nat, k: nat)
    requires Continues(a, c)
    ensures SliceBit(a.(data := a.data + c.data), b, k) ==
              if SliceBit(c, b, k).Some? then SliceBit(c, b, k) else SliceBit(a, b, k)
  {
    BitsOfConcat(a.data, c.data);
  }

  lemma {:induction false} MergeSlicesBit(cur: Slice, rest: seq<Slice>, b: nat, k: nat)
    ensures LastSlice(MergeSlices(cur, rest), b, k) == LastSlice([cur] + rest, b, k)
    decreases |rest|
  {
    hide SliceBit, Continues;
    var f := SliceView(b, k);
    LastCons(cur, rest, f);
    if rest == [] {
      assert [cur] + rest == [cur];
    } else {
      assert rest == [rest[0]] + rest[1..];
      LastCons(rest[0], rest[1..], f);
      if Continues(cur, rest[0]) {
        var joined := cur.(data := cur.data + rest[0].data);
        JoinSliceBit(cur, rest[0], b, k);
        LastCons(joined, rest[1..], f);
        MergeSlicesBit(joined, rest[1..], b, k);
      } else {
        MergeSlicesBit(rest[0], rest[1..], b, k);
        LastCons(cur, MergeSlices(rest[0], rest[1..]), f);
      }
    }
  }

  lemma MergedSlicesBit(s: seq<Slice>, b: nat, k: nat)
    ensures LastSlice(MergedSlices(s), b, k) == LastSlice(s, b, k)
  {
    if s != [] {
      assert s == [s[0]] + s[1..];
      MergeSlicesBit(s[0], s[1..], b, k);
    }
  }

  lemma SliceOpsView(s: seq<Slice>, b: nat, k: nat)
    ensures Last(SliceOps(s), BlockView(b, k)) == LastSlice(s, b, k)
  {
    hide SliceBit;
    LastSame(SliceOps(s), s, BlockView(b, k), SliceView(b, k));
  }

  lemma ImageOpsView(s: seq<Record>, id: nat, k: nat)
    ensures Last(ImageOps(s), RecordView(id, k)) == Last(s, ImageView(id, k))
  {
    hide ImageBit;
    LastSame(ImageOps(s), s, RecordView(id, k), ImageView(id, k));
  }
}
