/** What a coalesced list looks like (src/journal.rs, `coalesce_ops`): nothing in it can be merged any
    further, so coalescing it again changes nothing. */
module CoalesceNormal {
  import opened MetadataOps
  import opened Coalesce
  import opened CoalesceMeaning

  // ---------------------------------------------------------------------------
  // Runs
  // ---------------------------------------------------------------------------

  ghost predicate NoneAdjacent(s: seq<Run>) {
    forall i :: 0 <= i < |s| - 1 ==> !Adjacent(s[i], s[i + 1])
  }

  /** Merged runs keep the start of their first part; none continues the one before. */
  lemma {:induction false} MergeRunsIs(cur: Run, rest: seq<Run>)
    requires SortedRuns([cur] + rest)
    ensures var m := MergeRuns(cur, rest);
            && 1 <= |m| <= 1 + |rest| && m[0].start == cur.start && m[0].used == cur.used
            && NoneAdjacent(m) && SortedRuns(m)
            && forall x :: x in m ==> !RunLess(x, cur)
    decreases |rest|
  {
    hide SortedRuns, NoneAdjacent;
    if rest == [] {
      OneRun(cur);
    } else {
      SortedTail(cur, rest);
      if Adjacent(cur, rest[0]) {
        SortedJoined(cur, rest);
        MergeRunsIs(JoinRuns(cur, rest[0]), rest[1..]);
      } else {
        MergeRunsIs(rest[0], rest[1..]);
        var tail := MergeRuns(rest[0], rest[1..]);
        forall x | x in tail ensures !RunLess(x, cur) { NotLess(x, rest[0], cur); }
        RunBefore(cur, tail);
      }
    }
  }

  lemma OneRun(r: Run)
    ensures SortedRuns([r]) && NoneAdjacent([r])
  {
  }

  lemma SortedTail(cur: Run, rest: seq<Run>)
    requires SortedRuns([cur] + rest) && rest != []
    ensures SortedRuns([rest[0]] + rest[1..]) && !RunLess(rest[0], cur)
  {
    hide RunLess;
    var all := [cur] + rest;
    assert !RunLess(all[1], all[0]);
    assert [rest[0]] + rest[1..] == rest;
    forall a, b | 0 <= a < b < |rest| ensures !RunLess(rest[b], rest[a]) { assert !RunLess(all[b + 1], all[a + 1]); }
  }

  /** A run and its successor made one stand where the first stood. */
  lemma SortedJoined(cur: Run, rest: seq<Run>)
    requires SortedRuns([cur] + rest) && rest != []
    ensures SortedRuns([JoinRuns(cur, rest[0])] + rest[1..])
  {
    var all, joined := [cur] + rest, [JoinRuns(cur, rest[0])] + rest[1..];
    forall a, b | 0 <= a < b < |joined| ensures !RunLess(joined[b], joined[a]) {
      assert !RunLess(all[b + 1], all[if a == 0 then 0 else a + 1]);
    }
  }

  lemma RunBefore(cur: Run, tail: seq<Run>)
    requires SortedRuns(tail) && NoneAdjacent(tail) && forall x :: x in tail ==> !RunLess(x, cur)
    requires tail != [] && !Adjacent(cur, tail[0])
    ensures SortedRuns([cur] + tail) && NoneAdjacent([cur] + tail)
  {
    hide RunLess, Adjacent;
  }

  lemma NotLess(a: Run, b: Run, c: Run)
    requires !RunLess(a, b) && !RunLess(b, c)
    ensures !RunLess(a, c)
  {
  }

  lemma {:induction false} NothingToMerge(cur: Run, rest: seq<Run>)
    requires NoneAdjacent([cur] + rest)
    ensures MergeRuns(cur, rest) == [cur] + rest
    decreases |rest|
  {
    if rest != [] {
      var all := [cur] + rest;
      assert !Adjacent(all[0], all[1]);
      forall i | 0 <= i < |rest| - 1 ensures !Adjacent(rest[i], rest[i + 1]) {
        assert !Adjacent(all[i + 1], all[i + 2]);
      }
      assert [rest[0]] + rest[1..] == rest;
      NothingToMerge(rest[0], rest[1..]);
    }
  }

  /** Sorting what is sorted changes nothing. */
  lemma {:induction false} SortedStays(s: seq<Run>)
    requires SortedRuns(s)
    ensures SortRuns(s) == s
  {
    if s != [] {
      var n := |s| - 1;
      SortedStays(s[..n]);
      GoesLast(s[..n], s[n]);
      assert s[..n] + [s[n]] == s;
    }
  }

  lemma {:induction false} GoesLast(s: seq<Run>, x: Run)
    requires forall i :: 0 <= i < |s| ==> !RunLess(x, s[i])
    ensures InsertRun(s, x) == s + [x]
  {
    if s != [] { GoesLast(s[1..], x); }
  }

  // ---------------------------------------------------------------------------
  // Slices
  // ---------------------------------------------------------------------------

  ghost predicate NoneContinues(s: seq<Slice>) {
    forall i :: 0 <= i < |s| - 1 ==> !Continues(s[i], s[i + 1])
  }

  predicate Before(a: Slice, b: Slice) {
    KeyLess(a.block, a.offset, b.block, b.offset)
  }

  lemma {:induction false} MergeSlicesIs(cur: Slice, rest: seq<Slice>)
    requires SortedSlices([cur] + rest)
    ensures var m := MergeSlices(cur, rest);
            && 1 <= |m| <= 1 + |rest| && m[0].block == cur.block && m[0].offset == cur.offset
            && NoneContinues(m) && SortedSlices(m)
    decreases |rest|
  {
    hide SortedSlices, NoneContinues;
    if rest == [] {
      OneSlice(cur);
    } else {
      TailOfSorted(cur, rest);
      if Continues(cur, rest[0]) {
        JoinedSorted(cur, rest);
        MergeSlicesIs(cur.(data := cur.data + rest[0].data), rest[1..]);
      } else {
        MergeSlicesIs(rest[0], rest[1..]);
        SliceBefore(cur, MergeSlices(rest[0], rest[1..]));
      }
    }
  }

  lemma OneSlice(s: Slice)
    ensures SortedSlices([s]) && NoneContinues([s])
  {
  }

  lemma TailOfSorted(cur: Slice, rest: seq<Slice>)
    requires SortedSlices([cur] + rest) && rest != []
    ensures SortedSlices([rest[0]] + rest[1..]) && Before(cur, rest[0])
  {
    var all := [cur] + rest;
    assert Before(all[0], all[1]);
    assert [rest[0]] + rest[1..] == rest;
    forall a, b | 0 <= a < b < |rest| ensures Before(rest[a], rest[b]) { assert Before(all[a + 1], all[b + 1]); }
  }

  lemma JoinedSorted(cur: Slice, rest: seq<Slice>)
    requires SortedSlices([cur] + rest) && rest != []
    ensures SortedSlices([cur.(data := cur.data + rest[0].data)] + rest[1..])
  {
    var all, joined := [cur] + rest, [cur.(data := cur.data + rest[0].data)] + rest[1..];
    forall a, b | 0 <= a < b < |joined| ensures Before(joined[a], joined[b]) {
      assert Before(all[if a == 0 then 0 else a + 1], all[b + 1]);
    }
  }

  lemma SliceBefore(cur: Slice, tail: seq<Slice>)
    requires SortedSlices(tail) && NoneContinues(tail) && tail != [] && Before(cur, tail[0]) && !Continues(cur, tail[0])
    ensures SortedSlices([cur] + tail) && NoneContinues([cur] + tail)
  {
    forall j | 0 <= j < |tail| ensures Before(cur, tail[j]) {
      if j > 0 { assert Before(tail[0], tail[j]); }
    }
  }

  lemma {:induction false} NothingContinues(cur: Slice, rest: seq<Slice>)
    requires NoneContinues([cur] + rest)
    ensures MergeSlices(cur, rest) == [cur] + rest
    decreases |rest|
  {
    if rest != [] {
      var all := [cur] + rest;
      assert !Continues(all[0], all[1]);
      forall i | 0 <= i < |rest| - 1 ensures !Continues(rest[i], rest[i + 1]) {
        assert !Continues(all[i + 1], all[i + 2]);
      }
      assert [rest[0]] + rest[1..] == rest;
      NothingContinues(rest[0], rest[1..]);
    }
  }

  // ---------------------------------------------------------------------------
  // The whole list
  // ---------------------------------------------------------------------------

  predicate IsData(op: MetadataOp) {
    op.SetDataBitmap? || op.SetDataBitmapRange?
  }

  /** Inode bits, then data bits, then block slices, then inode records. */
  function Rank(op: MetadataOp): nat {
    match op
    case SetInodeBitmap(_, _) => 0
    case SetDataBitmap(_, _) => 1
    case SetDataBitmapRange(_, _, _) => 1
    case WriteBlockSlice(_, _, _) => 2
    case WriteInode(_, _) => 3
  }

  /** `a` may stand somewhere before `b`. */
  predicate MayPrecede(a: MetadataOp, b: MetadataOp) {
    && Rank(a) <= Rank(b)
    && (IsData(a) && IsData(b) ==> !RunLess(RunOf(b), RunOf(a)))
    && (a.WriteBlockSlice? && b.WriteBlockSlice? ==> KeyLess(a.blockId, a.offset, b.blockId, b.offset))
    && (a.WriteInode? && b.WriteInode? ==> a.inodeId != b.inodeId)
  }

  /** `b` right after `a` says what one operation could say. */
  predicate CanMerge(a: MetadataOp, b: MetadataOp) {
    || (IsData(a) && IsData(b) && Adjacent(RunOf(a), RunOf(b)))
    || (a.WriteBlockSlice? && b.WriteBlockSlice? && Continues(SliceOf(a), SliceOf(b)))
  }

  ghost predicate Canonical(ops: seq<MetadataOp>) {
    && (forall i, j :: 0 <= i < j < |ops| ==> MayPrecede(ops[i], ops[j]))
    && (forall i :: 0 <= i < |ops| - 1 ==> !CanMerge(ops[i], ops[i + 1]))
    && (forall i :: 0 <= i < |ops| && ops[i].SetDataBitmapRange? ==> ops[i].count != 1)
  }

  lemma {:induction false} PartSizes(ops: seq<MetadataOp>)
    ensures |InodeBits(ops)| + |DataRuns(ops)| + |SliceMap(ops)| + |InodeImages(ops)| <= |ops|
    ensures DistinctIds(InodeImages(ops)) && SortedSlices(SliceMap(ops))
  {
    hide InsertSlice, PutImage, DistinctIds, SortedSlices;
    if ops == [] {
      NothingYet();
    } else {
      var n := |ops| - 1;
      PartSizes(ops[..n]);
      if ops[n].WriteBlockSlice? {
        InsertSliceMembers(SliceMap(ops[..n]), SliceOf(ops[n]));
        InsertSize(SliceMap(ops[..n]), SliceOf(ops[n]));
      }
      if ops[n].WriteInode? {
        var r := Record(ops[n].inodeId, ops[n].inodeBytes);
        PutImageIds(InodeImages(ops[..n]), r);
        PutSize(InodeImages(ops[..n]), r);
      }
    }
  }

  lemma NothingYet()
    ensures DistinctIds([]) && SortedSlices([])
  {
  }

  lemma {:induction false} InsertSize(s: seq<Slice>, x: Slice)
    ensures |InsertSlice(s, x)| <= |s| + 1
  {
    if s != [] { InsertSize(s[1..], x); }
  }

  lemma {:induction false} PutSize(s: seq<Record>, x: Record)
    ensures |PutImage(s, x)| <= |s| + 1
  {
    if s != [] { PutSize(s[1..], x); }
  }

  /** Four parts in order, each canonical. */
  lemma PartsAreCanonical(bits: seq<MetadataOp>, runs: seq<Run>, slices: seq<Slice>, images: seq<Record>)
    requires forall i :: 0 <= i < |bits| ==> bits[i].SetInodeBitmap?
    requires SortedRuns(runs) && NoneAdjacent(runs) && SortedSlices(slices) && NoneContinues(slices)
    requires DistinctIds(images)
    ensures Canonical(bits + RunOps(runs) + SliceOps(slices) + ImageOps(images))
  {
    hide Adjacent, Continues, KeyLess, RunLess;
    var out := bits + RunOps(runs) + SliceOps(slices) + ImageOps(images);
    var a, b := |bits|, |bits| + |runs|;
    var c := b + |slices|;
    forall i | a <= i < b ensures out[i] == RunOp(runs[i - a]) && IsData(out[i]) && RunOf(out[i]) == runs[i - a] {}
    forall i | b <= i < c ensures out[i] == SliceOp(slices[i - b]) && SliceOf(out[i]) == slices[i - b] {}
    forall i | c <= i < |out| ensures out[i] == ImageOp(images[i - c]) {}
    forall i, j | 0 <= i < j < |out| ensures MayPrecede(out[i], out[j]) {
      if a <= i && j < b {
        assert !RunLess(runs[j - a], runs[i - a]);
      }
    }
    forall i | 0 <= i < |out| - 1 ensures !CanMerge(out[i], out[i + 1]) {
      if a <= i && i + 1 < b {
        assert !Adjacent(runs[i - a], runs[i - a + 1]);
      } else if b <= i && i + 1 < c {
        assert !Continues(slices[i - b], slices[i - b + 1]);
      }
    }
  }

  /** Every coalesced list, whatever the sort does with equal keys: in order, nothing left to merge. */
  lemma CoalescedIsCanonical(ops: seq<MetadataOp>, sorted: seq<Run>)
    requires SortOf(DataRuns(ops), sorted)
    ensures |CoalesceWith(ops, sorted)| <= |ops|
    ensures |ops| > 1 ==> Canonical(CoalesceWith(ops, sorted))
  {
    hide Canonical, InodeBits, DataRuns, SliceMap, InodeImages, MergeRuns, MergeSlices, SortedRuns, SortedSlices,
         DistinctIds, NoneAdjacent, NoneContinues;
    if |ops| > 1 {
      PartSizes(ops);
      assert |multiset(sorted)| == |sorted| && |multiset(DataRuns(ops))| == |DataRuns(ops)|;
      BitsAreBits(ops);
      RunsMerged(sorted);
      SlicesMerged(SliceMap(ops));
      PartsAreCanonical(InodeBits(ops), MergedRuns(sorted), MergedSlices(SliceMap(ops)), InodeImages(ops));
    }
  }

  lemma {:induction false} BitsAreBits(ops: seq<MetadataOp>)
    ensures forall i :: 0 <= i < |InodeBits(ops)| ==> InodeBits(ops)[i].SetInodeBitmap?
  {
    if ops != [] { BitsAreBits(ops[..|ops| - 1]); }
  }

  lemma RunsMerged(s: seq<Run>)
    requires SortedRuns(s)
    ensures |MergedRuns(s)| <= |s| && SortedRuns(MergedRuns(s)) && NoneAdjacent(MergedRuns(s))
  {
    if s != [] {
      assert [s[0]] + s[1..] == s;
      MergeRunsIs(s[0], s[1..]);
    }
  }

  lemma SlicesMerged(s: seq<Slice>)
    requires SortedSlices(s)
    ensures |MergedSlices(s)| <= |s| && SortedSlices(MergedSlices(s)) && NoneContinues(MergedSlices(s))
  {
    if s != [] {
      assert [s[0]] + s[1..] == s;
      MergeSlicesIs(s[0], s[1..]);
    }
  }

  // ---------------------------------------------------------------------------
  // What coalescing leaves alone
  // ---------------------------------------------------------------------------

  lemma {:induction false} SliceGoesLast(s: seq<Slice>, x: Slice)
    requires forall i :: 0 <= i < |s| ==> KeyLess(s[i].block, s[i].offset, x.block, x.offset)
    ensures InsertSlice(s, x) == s + [x]
  {
    if s != [] { SliceGoesLast(s[1..], x); }
  }

  lemma {:induction false} ImageGoesLast(s: seq<Record>, x: Record)
    requires forall i :: 0 <= i < |s| ==> s[i].id != x.id
    ensures PutImage(s, x) == s + [x]
  {
    if s != [] { ImageGoesLast(s[1..], x); }
  }

  ghost function Parts(ops: seq<MetadataOp>): seq<MetadataOp> {
    InodeBits(ops) + RunOps(DataRuns(ops)) + SliceOps(SliceMap(ops)) + ImageOps(InodeImages(ops))
  }

  lemma RunsSnoc(s: seq<Run>, x: Run)
    ensures RunOps(s + [x]) == RunOps(s) + [RunOp(x)]
  {
  }

  lemma SlicesSnoc(s: seq<Slice>, x: Slice)
    ensures SliceOps(s + [x]) == SliceOps(s) + [SliceOp(x)]
  {
  }

  lemma ImagesSnoc(s: seq<Record>, x: Record)
    ensures ImageOps(s + [x]) == ImageOps(s) + [ImageOp(x)]
  {
  }

  lemma NoOps()
    ensures RunOps([]) == [] && SliceOps([]) == [] && ImageOps([]) == []
  {
  }

  /** What may follow four parts: later parts are still empty, and `x` goes last in its own. */
  lemma LaterPartsEmpty(bits: seq<MetadataOp>, runs: seq<Run>, slices: seq<Slice>, images: seq<Record>, x: MetadataOp)
    requires var p := bits + RunOps(runs) + SliceOps(slices) + ImageOps(images);
             forall i :: 0 <= i < |p| ==> MayPrecede(p[i], x)
    ensures Rank(x) < 1 ==> runs == []
    ensures Rank(x) < 2 ==> slices == []
    ensures Rank(x) < 3 ==> images == []
    ensures x.WriteBlockSlice? ==>
              forall i :: 0 <= i < |slices| ==> KeyLess(slices[i].block, slices[i].offset, x.blockId, x.offset)
    ensures x.WriteInode? ==> forall i :: 0 <= i < |images| ==> images[i].id != x.inodeId
  {
    hide RunLess, KeyLess;
    var p := bits + RunOps(runs) + SliceOps(slices) + ImageOps(images);
    var a, b := |bits|, |bits| + |runs|;
    var c := b + |slices|;
    forall i | 0 <= i < |runs| ensures MayPrecede(RunOp(runs[i]), x) { assert p[a + i] == RunOp(runs[i]); }
    forall i | 0 <= i < |slices| ensures MayPrecede(SliceOp(slices[i]), x) { assert p[b + i] == SliceOp(slices[i]); }
    forall i | 0 <= i < |images| ensures MayPrecede(ImageOp(images[i]), x) { assert p[c + i] == ImageOp(images[i]); }
    assert runs != [] ==> MayPrecede(RunOp(runs[0]), x);
    assert slices != [] ==> MayPrecede(SliceOp(slices[0]), x);
    assert images != [] ==> MayPrecede(ImageOp(images[0]), x);
  }

  /** One more operation, taken apart. */
  lemma PartsSnoc(p: seq<MetadataOp>, x: MetadataOp)
    ensures InodeBits(p + [x]) == if x.SetInodeBitmap? then InodeBits(p) + [x] else InodeBits(p)
    ensures DataRuns(p + [x]) == if IsData(x) then DataRuns(p) + [RunOf(x)] else DataRuns(p)
    ensures SliceMap(p + [x]) == if x.WriteBlockSlice? then InsertSlice(SliceMap(p), SliceOf(x)) else SliceMap(p)
    ensures InodeImages(p + [x]) ==
            if x.WriteInode? then PutImage(InodeImages(p), Record(x.inodeId, x.inodeBytes)) else InodeImages(p)
  {
    hide InsertSlice, PutImage;
    assert (p + [x])[..|p|] == p;
  }

  lemma AppendToParts(p: seq<MetadataOp>, x: MetadataOp)
    requires Parts(p) == p && (x.SetDataBitmapRange? ==> x.count != 1)
    requires forall i :: 0 <= i < |p| ==> MayPrecede(p[i], x)
    ensures Parts(p + [x]) == p + [x]
  {
    hide InodeBits, DataRuns, SliceMap, InodeImages, InsertSlice, PutImage, RunOps, SliceOps, ImageOps, MayPrecede,
         KeyLess;
    var bits, runs, slices, images := InodeBits(p), DataRuns(p), SliceMap(p), InodeImages(p);
    LaterPartsEmpty(bits, runs, slices, images, x);
    NoOps();
    PartsSnoc(p, x);
    if IsData(x) {
      RunsSnoc(runs, RunOf(x));
    } else if x.WriteBlockSlice? {
      SliceGoesLast(slices, SliceOf(x));
      SlicesSnoc(slices, SliceOf(x));
    } else if x.WriteInode? {
      ImageGoesLast(images, Record(x.inodeId, x.inodeBytes));
      ImagesSnoc(images, Record(x.inodeId, x.inodeBytes));
      assert ImageOp(Record(x.inodeId, x.inodeBytes)) == x;
    }
  }

  /** A canonical list is its own four parts, in order. */
  lemma {:induction false} CanonicalParts(ops: seq<MetadataOp>)
    requires Canonical(ops)
    ensures Parts(ops) == ops
  {
    hide MayPrecede, CanMerge, Parts;
    if ops == [] {
      NoParts();
    } else {
      var n := |ops| - 1;
      CanonicalParts(ops[..n]);
      AppendToParts(ops[..n], ops[n]);
      assert ops[..n] + [ops[n]] == ops;
    }
  }

  lemma NoParts()
    ensures Parts([]) == []
  {
  }

  /** The lists that coalescing leaves alone are the canonical ones and those too short to look at. */
  lemma FixedExactly(ops: seq<MetadataOp>)
    ensures Coalesced(ops) == ops <==> |ops| <= 1 || Canonical(ops)
  {
    hide Canonical;
    SortRunsSorts(DataRuns(ops));
    CoalescedIsCanonical(ops, SortRuns(DataRuns(ops)));
    if |ops| > 1 && Canonical(ops) { CanonicalStays(ops); }
  }

  lemma CanonicalStays(ops: seq<MetadataOp>)
    requires Canonical(ops)
    ensures Coalesced(ops) == ops
  {
    hide Canonical, InodeBits, DataRuns, SliceMap, InodeImages, MergeRuns, MergeSlices, InsertRun, SortRuns,
         NoneAdjacent, NoneContinues, SortedRuns;
    if |ops| > 1 {
      CanonicalParts(ops);
      var runs, slices := DataRuns(ops), SliceMap(ops);
      PartsOfCanonical(InodeBits(ops), runs, slices, InodeImages(ops));
      SortedStays(runs);
      if runs != [] {
        assert [runs[0]] + runs[1..] == runs;
        NothingToMerge(runs[0], runs[1..]);
      }
      if slices != [] {
        assert [slices[0]] + slices[1..] == slices;
        NothingContinues(slices[0], slices[1..]);
      }
    }
  }

  lemma PartsOfCanonical(bits: seq<MetadataOp>, runs: seq<Run>, slices: seq<Slice>, images: seq<Record>)
    requires Canonical(bits + RunOps(runs) + SliceOps(slices) + ImageOps(images))
    ensures SortedRuns(runs) && NoneAdjacent(runs) && NoneContinues(slices)
  {
    hide RunLess, KeyLess, Adjacent, Continues;
    var ops := bits + RunOps(runs) + SliceOps(slices) + ImageOps(images);
    var a, b := |bits|, |bits| + |runs|;
    forall i, j | 0 <= i < j < |runs| ensures !RunLess(runs[j], runs[i]) {
      assert ops[a + i] == RunOp(runs[i]) && ops[a + j] == RunOp(runs[j]) && MayPrecede(ops[a + i], ops[a + j]);
    }
    forall i | 0 <= i < |runs| - 1 ensures !Adjacent(runs[i], runs[i + 1]) {
      assert ops[a + i] == RunOp(runs[i]) && ops[a + i + 1] == RunOp(runs[i + 1]);
      assert !CanMerge(ops[a + i], ops[a + i + 1]);
    }
    forall i | 0 <= i < |slices| - 1 ensures !Continues(slices[i], slices[i + 1]) {
      assert ops[b + i] == SliceOp(slices[i]) && ops[b + i + 1] == SliceOp(slices[i + 1]);
      assert !CanMerge(ops[b + i], ops[b + i + 1]);
    }
  }

  /** Coalescing twice is coalescing once. */
  lemma CoalescedTwice(ops: seq<MetadataOp>)
    ensures Coalesced(Coalesced(ops)) == Coalesced(ops)
  {
    hide Canonical;
    SortRunsSorts(DataRuns(ops));
    CoalescedIsCanonical(ops, SortRuns(DataRuns(ops)));
    FixedExactly(Coalesced(ops));
  }
}
