/** Coalescing of a transaction's operations (src/journal.rs, `coalesce_ops`): what it produces, as
    functions of the list, and the loops that produce it. */
module Coalesce {
  import opened Bytes
  import opened MetadataOps

  /** A run of data blocks to be marked. */
  datatype Run = Run(start: u64, count: u32, used: bool)

  datatype Slice = Slice(block: u64, offset: u32, data: seq<byte>)

  datatype Record = Record(id: u64, bytes: InodeBytes)

  // ---------------------------------------------------------------------------
  // Sorting the operations into four groups
  // ---------------------------------------------------------------------------

  function InodeBits(ops: seq<MetadataOp>): seq<MetadataOp> {
    if ops == [] then []
    else
      var n := |ops| - 1;
      InodeBits(ops[..n]) + (if ops[n].SetInodeBitmap? then [ops[n]] else [])
  }

  function RunOf(op: MetadataOp): Run
    requires op.SetDataBitmap? || op.SetDataBitmapRange?
  {
    if op.SetDataBitmap? then Run(op.blockId, 1, op.used) else Run(op.startBlock, op.count, op.used)
  }

  function DataRuns(ops: seq<MetadataOp>): seq<Run> {
    if ops == [] then []
    else
      var n := |ops| - 1;
      DataRuns(ops[..n]) + (if ops[n].SetDataBitmap? || ops[n].SetDataBitmapRange? then [RunOf(ops[n])] else [])
  }

  predicate KeyLess(b: nat, o: nat, b': nat, o': nat) {
    b < b' || (b == b' && o < o')
  }

  /** Insertion into a map ordered by (block, offset); an equal key is overwritten. */
  function InsertSlice(s: seq<Slice>, x: Slice): seq<Slice> {
    if s == [] then [x]
    else if s[0].block == x.block && s[0].offset == x.offset then [x] + s[1..]
    else if KeyLess(x.block, x.offset, s[0].block, s[0].offset) then [x] + s
    else [s[0]] + InsertSlice(s[1..], x)
  }

  function SliceMap(ops: seq<MetadataOp>): seq<Slice> {
    if ops == [] then []
    else
      var n := |ops| - 1;
      var m := SliceMap(ops[..n]);
      if ops[n].WriteBlockSlice? then InsertSlice(m, Slice(ops[n].blockId, ops[n].offset, ops[n].data)) else m
  }

  /** An inode written again keeps its place and takes the newer image. */
  function PutImage(s: seq<Record>, x: Record): seq<Record> {
    if s == [] then [x] else if s[0].id == x.id then [x] + s[1..] else [s[0]] + PutImage(s[1..], x)
  }

  function InodeImages(ops: seq<MetadataOp>): seq<Record> {
    if ops == [] then []
    else
      var n := |ops| - 1;
      var m := InodeImages(ops[..n]);
      if ops[n].WriteInode? then PutImage(m, Record(ops[n].inodeId, ops[n].inodeBytes)) else m
  }

  // ---------------------------------------------------------------------------
  // Data runs: sort by (used, start), merge adjacent
  // ---------------------------------------------------------------------------

  predicate RunLess(a: Run, b: Run) {
    (!a.used && b.used) || (a.used == b.used && a.start < b.start)
  }

  ghost predicate SortedRuns(s: seq<Run>) {
    forall i, j :: 0 <= i < j < |s| ==> !RunLess(s[j], s[i])
  }

  function InsertRun(s: seq<Run>, x: Run): seq<Run> {
    if s == [] then [x] else if RunLess(x, s[0]) then [x] + s else [s[0]] + InsertRun(s[1..], x)
  }

  /** A stable sort; the source's sort leaves the order of equal keys open. */
  function SortRuns(s: seq<Run>): seq<Run> {
    if s == [] then [] else InsertRun(SortRuns(s[..|s| - 1]), s[|s| - 1])
  }

  /** `cur_count + count` is 32-bit arithmetic. */
  function JoinRuns(a: Run, b: Run): Run {
    a.(count := (a.count + b.count) % 0x1_0000_0000)
  }

  predicate Adjacent(a: Run, b: Run) {
    a.used == b.used && a.start + a.count == b.start
  }

  function MergeRuns(cur: Run, rest: seq<Run>): seq<Run>
    decreases |rest|
  {
    if rest == [] then [cur]
    else if Adjacent(cur, rest[0]) then MergeRuns(JoinRuns(cur, rest[0]), rest[1..])
    else [cur] + MergeRuns(rest[0], rest[1..])
  }

  function MergedRuns(sorted: seq<Run>): seq<Run> {
    if sorted == [] then [] else MergeRuns(sorted[0], sorted[1..])
  }

  // ---------------------------------------------------------------------------
  // Slices: merge those that continue each other
  // ---------------------------------------------------------------------------

  predicate Continues(a: Slice, b: Slice) {
    a.block == b.block && a.offset + |a.data| == b.offset
  }

  function MergeSlices(cur: Slice, rest: seq<Slice>): seq<Slice>
    decreases |rest|
  {
    if rest == [] then [cur]
    else if Continues(cur, rest[0]) then MergeSlices(cur.(data := cur.data + rest[0].data), rest[1..])
    else [cur] + MergeSlices(rest[0], rest[1..])
  }

  function MergedSlices(s: seq<Slice>): seq<Slice> {
    if s == [] then [] else MergeSlices(s[0], s[1..])
  }

  // ---------------------------------------------------------------------------
  // Back to operations
  // ---------------------------------------------------------------------------

  function RunOp(r: Run): MetadataOp {
    if r.count == 1 then SetDataBitmap(r.start, r.used) else SetDataBitmapRange(r.start, r.count, r.used)
  }

  function SliceOp(s: Slice): MetadataOp {
    WriteBlockSlice(s.block, s.offset, s.data)
  }

  function ImageOp(i: Record): MetadataOp {
    WriteInode(i.id, i.bytes)
  }

  function RunOps(s: seq<Run>): seq<MetadataOp> {
    seq(|s|, i requires 0 <= i < |s| => RunOp(s[i]))
  }

  function SliceOps(s: seq<Slice>): seq<MetadataOp> {
    seq(|s|, i requires 0 <= i < |s| => SliceOp(s[i]))
  }

  function ImageOps(s: seq<Record>): seq<MetadataOp> {
    seq(|s|, i requires 0 <= i < |s| => ImageOp(s[i]))
  }

  ghost predicate SortOf(runs: seq<Run>, sorted: seq<Run>) {
    multiset(runs) == multiset(sorted) && SortedRuns(sorted)
  }

  /** The coalesced list, for a given outcome of the sort of the data runs. */
  function CoalesceWith(ops: seq<MetadataOp>, sorted: seq<Run>): seq<MetadataOp> {
    if |ops| <= 1 then ops
    else
      InodeBits(ops) + RunOps(MergedRuns(sorted)) + SliceOps(MergedSlices(SliceMap(ops))) + ImageOps(InodeImages(ops))
  }

  lemma {:induction false} InsertRunMembers(s: seq<Run>, x: Run)
    ensures multiset(InsertRun(s, x)) == multiset(s) + multiset{x}
  {
    hide RunLess;
    if s != [] && !RunLess(x, s[0]) {
      InsertRunMembers(s[1..], x);
      assert s == [s[0]] + s[1..];
    }
  }

  lemma {:induction false} InsertRunSorts(s: seq<Run>, x: Run)
    requires SortedRuns(s)
    ensures SortedRuns(InsertRun(s, x))
  {
    if s != [] && !RunLess(x, s[0]) {
      InsertRunSorts(s[1..], x);
      InsertRunMembers(s[1..], x);
      var t := InsertRun(s[1..], x);
      forall j | 0 <= j < |t| ensures !RunLess(t[j], s[0]) {
        assert t[j] in multiset(t);
        if t[j] != x { assert t[j] in s[1..]; }
      }
    }
  }

  lemma {:induction false} SortRunsSorts(s: seq<Run>)
    ensures SortOf(s, SortRuns(s))
  {
    if s != [] {
      var n := |s| - 1;
      SortRunsSorts(s[..n]);
      InsertRunSorts(SortRuns(s[..n]), s[n]);
      InsertRunMembers(SortRuns(s[..n]), s[n]);
      assert s == s[..n] + [s[n]];
    }
  }

  function Coalesced(ops: seq<MetadataOp>): seq<MetadataOp> {
    CoalesceWith(ops, SortRuns(DataRuns(ops)))
  }

  // ---------------------------------------------------------------------------
  // The loops
  // ---------------------------------------------------------------------------

  method MergeRunLoop(sorted: seq<Run>) returns (out: seq<MetadataOp>)
    ensures out == RunOps(MergedRuns(sorted))
  {
    hide RunOp;
    out := [];
    if sorted == [] {
      return;
    }
    var cur := sorted[0];
    for i := 1 to |sorted|
      invariant out + RunOps(MergeRuns(cur, sorted[i..])) == RunOps(MergedRuns(sorted))
    {
      ghost var rest := sorted[i..];
      assert rest[0] == sorted[i] && rest[1..] == sorted[i + 1..];
      if Adjacent(cur, sorted[i]) {
        cur := JoinRuns(cur, sorted[i]);
      } else {
        RunOpsCons(cur, MergeRuns(sorted[i], sorted[i + 1..]));
        out := out + [RunOp(cur)];
        cur := sorted[i];
      }
    }
    RunOpsCons(cur, []);
    out := out + [RunOp(cur)];
  }

  lemma RunOpsCons(r: Run, rest: seq<Run>)
    ensures RunOps([r] + rest) == [RunOp(r)] + RunOps(rest) && RunOps([r]) == [RunOp(r)]
  {
  }

  method MergeSliceLoop(slices: seq<Slice>) returns (out: seq<MetadataOp>)
    ensures out == SliceOps(MergedSlices(slices))
  {
    hide SliceOp;
    out := [];
    if slices == [] {
      return;
    }
    var cur := slices[0];
    for i := 1 to |slices|
      invariant out + SliceOps(MergeSlices(cur, slices[i..])) == SliceOps(MergedSlices(slices))
    {
      ghost var rest := slices[i..];
      assert rest[0] == slices[i] && rest[1..] == slices[i + 1..];
      if Continues(cur, slices[i]) {
        cur := cur.(data := cur.data + slices[i].data);
      } else {
        SliceOpsCons(cur, MergeSlices(slices[i], slices[i + 1..]));
        out := out + [SliceOp(cur)];
        cur := slices[i];
      }
    }
    SliceOpsCons(cur, []);
    out := out + [SliceOp(cur)];
  }

  lemma SliceOpsCons(s: Slice, rest: seq<Slice>)
    ensures SliceOps([s] + rest) == [SliceOp(s)] + SliceOps(rest) && SliceOps([s]) == [SliceOp(s)]
  {
  }

  method CoalesceOps(ops: seq<MetadataOp>) returns (out: seq<MetadataOp>)
    ensures out == Coalesced(ops)
  {
    if |ops| <= 1 {
      return ops;
    }
    var inodeBits, runs, slices, images := [], [], [], [];
    for i := 0 to |ops|
      invariant inodeBits == InodeBits(ops[..i]) && runs == DataRuns(ops[..i])
      invariant slices == SliceMap(ops[..i]) && images == InodeImages(ops[..i])
    {
      assert ops[..i + 1][..i] == ops[..i];
      match ops[i]
      case SetInodeBitmap(_, _) => inodeBits := inodeBits + [ops[i]];
      case SetDataBitmap(b, a) => runs := runs + [Run(b, 1, a)];
      case SetDataBitmapRange(b, n, a) => runs := runs + [Run(b, n, a)];
      case WriteBlockSlice(b, o, d) => slices := InsertSlice(slices, Slice(b, o, d));
      case WriteInode(id, bytes) => images := PutImage(images, Record(id, bytes));
    }
    assert ops[..|ops|] == ops;
    var merged := MergeRunLoop(SortRuns(runs));
    var mergedSlices := MergeSliceLoop(slices);
    out := inodeBits + merged + mergedSlices + ImageOps(images);
  }
}
