/** Transaction frames (src/journal.rs, `is_already_coalesced`, `encode_frame`, `decode_frame`). */
module Frames {
  import opened Bytes
  import opened LastWins
  import opened MetadataOps
  import opened Coalesce

  // ---------------------------------------------------------------------------
  // The fast check
  // ---------------------------------------------------------------------------

  function Phase(op: MetadataOp): nat {
    match op
    case SetInodeBitmap(_, _) => 1
    case SetDataBitmap(_, _) => 2
    case SetDataBitmapRange(_, _, _) => 2
    case WriteBlockSlice(_, _, _) => 3
    case WriteInode(_, _) => 4
  }

  /** The counters of the scan. */
  datatype Scan = Scan(phase: nat, data: nat, firstUsed: bool, slices: nat, inodes: nat, firstInode: nat)

  function ScanStep(st: Scan, op: MetadataOp): Option<Scan> {
    if (op.SetDataBitmapRange? && op.count == 1)
       || (Phase(op) == 2 && (st.data >= 2 || (st.data == 1 && !(!st.firstUsed && op.used))))
       || (Phase(op) == 3 && st.slices >= 1)
       || (Phase(op) == 4 && (st.inodes >= 2 || (st.inodes == 1 && op.inodeId == st.firstInode)))
       || Phase(op) < st.phase
    then None
    else
      var st' := st.(phase := Phase(op));
      match Phase(op)
      case 2 => Some(st'.(data := st.data + 1, firstUsed := if st.data == 0 then op.used else st.firstUsed))
      case 3 => Some(st'.(slices := st.slices + 1))
      case 4 => Some(st'.(inodes := st.inodes + 1, firstInode := if st.inodes == 0 then op.inodeId else st.firstInode))
      case _ => Some(st')
  }

  const SCAN_START := Scan(0, 0, false, 0, 0, 0)

  function ScanAll(ops: seq<MetadataOp>): Option<Scan> {
    if ops == [] then Some(SCAN_START)
    else
      match ScanAll(ops[..|ops| - 1])
      case None => None
      case Some(st) => ScanStep(st, ops[|ops| - 1])
  }

  predicate AlreadyCoalesced(ops: seq<MetadataOp>) {
    |ops| <= 1 || ScanAll(ops).Some?
  }

  method IsAlreadyCoalesced(ops: seq<MetadataOp>) returns (r: bool)
    ensures r == AlreadyCoalesced(ops)
  {
    hide ScanStep;
    if |ops| <= 1 {
      return true;
    }
    var st := SCAN_START;
    for i := 0 to |ops|
      invariant ScanAll(ops[..i]) == Some(st)
    {
      assert ops[..i + 1][..i] == ops[..i];
      match ScanStep(st, ops[i]) {
        case None =>
          ScanPrefix(ops, i + 1);
          return false;
        case Some(st') => st := st';
      }
    }
    assert ops[..|ops|] == ops;
    return true;
  }

  lemma {:induction false} ScanPrefix(ops: seq<MetadataOp>, n: nat)
    requires n <= |ops| && ScanAll(ops[..n]).None?
    ensures ScanAll(ops).None?
    decreases |ops|
  {
    if n == |ops| {
      assert ops[..n] == ops;
    } else {
      assert ops[..|ops| - 1][..n] == ops[..n];
      ScanPrefix(ops[..|ops| - 1], n);
    }
  }

  /** The operations of one phase. */
  ghost function Pick(ops: seq<MetadataOp>, phase: nat): seq<MetadataOp> {
    if ops == [] then []
    else
      var n := |ops| - 1;
      Pick(ops[..n], phase) + (if Phase(ops[n]) == phase then [ops[n]] else [])
  }

  ghost predicate Grouped(ops: seq<MetadataOp>, st: Scan) {
    && ops == Pick(ops, 1) + Pick(ops, 2) + Pick(ops, 3) + Pick(ops, 4)
    && (forall j :: st.phase < j <= 4 ==> Pick(ops, j) == [])
    && DataShape(Pick(ops, 2), st)
    && |Pick(ops, 3)| == st.slices <= 1
    && InodeShape(Pick(ops, 4), st)
  }

  ghost predicate DataShape(d: seq<MetadataOp>, st: Scan) {
    && |d| == st.data <= 2
    && (forall i :: 0 <= i < |d| ==> Phase(d[i]) == 2 && !(d[i].SetDataBitmapRange? && d[i].count == 1))
    && (|d| >= 1 ==> d[0].used == st.firstUsed)
    && (|d| == 2 ==> !d[0].used && d[1].used)
  }

  ghost predicate InodeShape(w: seq<MetadataOp>, st: Scan) {
    && |w| == st.inodes <= 2
    && (forall i :: 0 <= i < |w| ==> w[i].WriteInode?)
    && (|w| >= 1 ==> w[0].inodeId == st.firstInode)
    && (|w| == 2 ==> w[0].inodeId != w[1].inodeId)
  }

  lemma {:induction false} ScanGroups(ops: seq<MetadataOp>)
    requires ScanAll(ops).Some?
    ensures Grouped(ops, ScanAll(ops).value)
  {
    hide ScanStep, Grouped;
    if ops == [] {
      NoGroups();
    } else {
      var n := |ops| - 1;
      ScanGroups(ops[..n]);
      GroupStep(ops[..n], ScanAll(ops[..n]).value, ops[n]);
      assert ops[..n] + [ops[n]] == ops;
    }
  }

  lemma NoGroups()
    ensures Grouped([], SCAN_START)
  {
  }

  lemma PickSnoc(ops: seq<MetadataOp>, op: MetadataOp, phase: nat)
    ensures Pick(ops + [op], phase) == if Phase(op) == phase then Pick(ops, phase) + [op] else Pick(ops, phase)
  {
    assert (ops + [op])[..|ops|] == ops;
  }

  lemma GroupStep(ops: seq<MetadataOp>, st: Scan, op: MetadataOp)
    requires Grouped(ops, st) && ScanStep(st, op).Some?
    ensures Grouped(ops + [op], ScanStep(st, op).value)
  {
    hide Pick;
    PhaseRange(op);
    var st' := ScanStep(st, op).value;
    PickSnoc(ops, op, 2); PickSnoc(ops, op, 3); PickSnoc(ops, op, 4);
    GroupOrder(ops, st.phase, op);
  }

  /** Appending an operation of no earlier phase keeps the groups in order. */
  lemma GroupOrder(ops: seq<MetadataOp>, phase: nat, op: MetadataOp)
    requires ops == Pick(ops, 1) + Pick(ops, 2) + Pick(ops, 3) + Pick(ops, 4)
    requires forall j :: phase < j <= 4 ==> Pick(ops, j) == []
    requires phase <= Phase(op) && 1 <= Phase(op) <= 4
    ensures var s := ops + [op];
            && s == Pick(s, 1) + Pick(s, 2) + Pick(s, 3) + Pick(s, 4)
            && forall j :: Phase(op) < j <= 4 ==> Pick(s, j) == []
  {
    hide Pick;
    var s, p := ops + [op], Phase(op);
    PickSnoc(ops, op, 1); PickSnoc(ops, op, 2); PickSnoc(ops, op, 3); PickSnoc(ops, op, 4);
    forall j | p < j <= 4 ensures Pick(s, j) == [] { PickSnoc(ops, op, j); }
    SnocInGroups(Pick(ops, 1), Pick(ops, 2), Pick(ops, 3), Pick(ops, 4), op, p);
  }

  lemma SnocInGroups(a: seq<MetadataOp>, b: seq<MetadataOp>, c: seq<MetadataOp>, d: seq<MetadataOp>, op: MetadataOp,
                     p: nat)
    requires 1 <= p <= 4 && (p < 2 ==> b == []) && (p < 3 ==> c == []) && (p < 4 ==> d == [])
    ensures a + b + c + d + [op] ==
            (if p == 1 then a + [op] else a) + (if p == 2 then b + [op] else b)
            + (if p == 3 then c + [op] else c) + (if p == 4 then d + [op] else d)
  {
    if p == 4 {
      assert a + b + c + d + [op] == a + b + c + (d + [op]);
    } else if p == 3 {
      assert a + b + c + [] + [op] == a + b + (c + [op]) + [];
    } else if p == 2 {
      assert a + b + [] + [] + [op] == a + (b + [op]) + [] + [];
    }
  }

  lemma PhaseRange(op: MetadataOp)
    ensures 1 <= Phase(op) <= 4
  {
  }

  // What coalescing makes of the groups.

  lemma {:induction false} GroupsOf(ops: seq<MetadataOp>)
    ensures InodeBits(ops) == Pick(ops, 1)
    ensures forall i :: 0 <= i < |Pick(ops, 2)| ==> Phase(Pick(ops, 2)[i]) == 2
    ensures var bits := Pick(ops, 2);
            DataRuns(ops) == seq(|bits|, i requires 0 <= i < |bits| && Phase(bits[i]) == 2 => RunOf(bits[i]))
  {
    if ops != [] { GroupsOf(ops[..|ops| - 1]); }
  }

  lemma {:induction false} SlicesOnly(ops: seq<MetadataOp>)
    ensures SliceMap(ops) == SliceMap(Pick(ops, 3))
  {
    hide InsertSlice;
    if ops != [] {
      var n := |ops| - 1;
      SlicesOnly(ops[..n]);
      PickSnoc(ops[..n], ops[n], 3);
      assert ops[..n] + [ops[n]] == ops;
      if Phase(ops[n]) == 3 { assert Pick(ops, 3)[..|Pick(ops, 3)| - 1] == Pick(ops[..n], 3); }
    }
  }

  lemma {:induction false} ImagesOnly(ops: seq<MetadataOp>)
    ensures InodeImages(ops) == InodeImages(Pick(ops, 4))
  {
    hide PutImage;
    if ops != [] {
      var n := |ops| - 1;
      ImagesOnly(ops[..n]);
      PickSnoc(ops[..n], ops[n], 4);
      assert ops[..n] + [ops[n]] == ops;
      if Phase(ops[n]) == 4 { assert Pick(ops, 4)[..|Pick(ops, 4)| - 1] == Pick(ops[..n], 4); }
    }
  }

  lemma DataUnchanged(d: seq<MetadataOp>, st: Scan, runs: seq<Run>, sorted: seq<Run>)
    requires DataShape(d, st)
    requires |runs| == |d| && forall i :: 0 <= i < |d| ==> runs[i] == RunOf(d[i])
    requires SortOf(runs, sorted)
    ensures RunOps(MergedRuns(sorted)) == d
  {
    SortedShort(runs, sorted);
    if |d| == 1 {
      assert MergedRuns(runs) == [runs[0]] by { assert runs[1..] == []; }
    } else if |d| == 2 {
      assert runs[1..] == [runs[1]] && [runs[1]][1..] == [];
      assert MergeRuns(runs[1], []) == [runs[1]];
      assert MergedRuns(runs) == [runs[0]] + MergeRuns(runs[1], [runs[1]][1..]);
    }
  }

  lemma SortedShort(runs: seq<Run>, sorted: seq<Run>)
    requires |runs| <= 2 && (|runs| == 2 ==> !runs[0].used && runs[1].used)
    requires SortOf(runs, sorted)
    ensures sorted == runs
  {
    assert |runs| == |multiset(runs)| == |multiset(sorted)| == |sorted|;
    if |runs| == 1 {
      assert runs == [runs[0]] && sorted == [sorted[0]];
      assert sorted[0] in multiset(runs);
    } else if |runs| == 2 {
      assert runs == [runs[0], runs[1]] && sorted == [sorted[0], sorted[1]];
      assert sorted[0] in multiset(runs) && sorted[1] in multiset(runs);
      assert multiset(runs)[runs[0]] == 1;
      assert !RunLess(sorted[1], sorted[0]);
    }
  }

  lemma SliceUnchanged(s: seq<MetadataOp>)
    requires |s| <= 1 && forall i :: 0 <= i < |s| ==> s[i].WriteBlockSlice?
    ensures SliceOps(MergedSlices(SliceMap(s))) == s
  {
    if |s| == 1 {
      assert s[..0] == [];
      var x := Slice(s[0].blockId, s[0].offset, s[0].data);
      assert SliceMap(s) == [x] && [x][1..] == [];
      assert MergedSlices([x]) == [x];
      assert s == [s[0]];
    }
  }

  lemma ImagesUnchanged(w: seq<MetadataOp>, st: Scan)
    requires InodeShape(w, st)
    ensures ImageOps(InodeImages(w)) == w
  {
    if |w| == 1 {
      assert w[..0] == [] && w == [w[0]];
    } else if |w| == 2 {
      var x, y := Record(w[0].inodeId, w[0].inodeBytes), Record(w[1].inodeId, w[1].inodeBytes);
      assert w[..1][..0] == [] && w == [w[0], w[1]];
      assert InodeImages(w[..1]) == [x];
      assert [x][1..] == [] && PutImage([], y) == [y];
      assert PutImage([x], y) == [x] + PutImage([x][1..], y) == [x, y];
    }
  }

  lemma {:induction false} PickPhase(ops: seq<MetadataOp>, phase: nat)
    ensures forall i :: 0 <= i < |Pick(ops, phase)| ==> Phase(Pick(ops, phase)[i]) == phase
  {
    if ops != [] { PickPhase(ops[..|ops| - 1], phase); }
  }

  /** When the fast check holds, coalescing (for any outcome of its sort) would change nothing. */
  lemma FastPathIsExact(ops: seq<MetadataOp>, sorted: seq<Run>)
    requires AlreadyCoalesced(ops) && SortOf(DataRuns(ops), sorted)
    ensures CoalesceWith(ops, sorted) == ops
  {
    hide Pick, ScanAll, DataShape, InodeShape, SortOf, DataRuns, MergedRuns, SliceMap, InodeImages, RunOps, SliceOps,
         ImageOps;
    if |ops| > 1 {
      ScanGroups(ops);
      var st := ScanAll(ops).value;
      GroupsOf(ops);
      SlicesOnly(ops);
      ImagesOnly(ops);
      PickPhase(ops, 3);
      DataUnchanged(Pick(ops, 2), st, DataRuns(ops), sorted);
      SliceUnchanged(Pick(ops, 3));
      ImagesUnchanged(Pick(ops, 4), st);
    }
  }

  lemma FastPathCoalesced(ops: seq<MetadataOp>)
    requires AlreadyCoalesced(ops)
    ensures Coalesced(ops) == ops
  {
    SortRunsSorts(DataRuns(ops));
    FastPathIsExact(ops, SortRuns(DataRuns(ops)));
  }

  // ---------------------------------------------------------------------------
  // Frames
  // ---------------------------------------------------------------------------

  const TX_HEADER_LEN := 20
  const TX_MAGIC: u32 := 0x5741_4C54
  const TX_COMMIT_MARKER: u32 := 0xDEAD_BEEF

  /** The checksum over sequence number, payload length and payload (CRC32C in the source); nothing
      below depends on which function it is. */
  type Checksum = (u64, u32, seq<byte>) -> u32

  datatype Transaction = Transaction(txSeq: u64, ops: seq<MetadataOp>)

  ghost function FrameOf(crc: Checksum, txSeq: u64, payload: seq<byte>): seq<byte> {
    var len: u32 := |payload| % 0x1_0000_0000;
    LE32(TX_MAGIC) + LE64(txSeq) + LE32(len) + LE32(crc(txSeq, len, payload)) + payload + LE32(TX_COMMIT_MARKER)
  }

  ghost function TargetOps(ops: seq<MetadataOp>): seq<MetadataOp> {
    if AlreadyCoalesced(ops) then ops else Coalesced(ops)
  }

  ghost function Frame(crc: Checksum, txSeq: u64, ops: seq<MetadataOp>): seq<byte> {
    FrameOf(crc, txSeq, EncodeOps(TargetOps(ops)))
  }

  method EncodeFrame(crc: Checksum, txSeq: u64, ops: seq<MetadataOp>) returns (frame: seq<byte>)
    ensures frame == Frame(crc, txSeq, ops)
    ensures frame == FrameOf(crc, txSeq, EncodeOps(Coalesced(ops)))
  {
    hide AlreadyCoalesced, Coalesced, EncodeOps;
    var target := ops;
    var fast := IsAlreadyCoalesced(ops);
    if fast {
      FastPathCoalesced(ops);
    } else {
      target := CoalesceOps(ops);
    }
    var payload := EncodeList(target);
    var len: u32 := |payload| % 0x1_0000_0000;
    var header := LE32(TX_MAGIC) + LE64(txSeq) + LE32(len) + LE32(crc(txSeq, len, payload));
    frame := header + payload + LE32(TX_COMMIT_MARKER);
  }

  lemma FrameIsCoalesced(crc: Checksum, txSeq: u64, ops: seq<MetadataOp>)
    ensures TargetOps(ops) == Coalesced(ops)
    ensures Frame(crc, txSeq, ops) == FrameOf(crc, txSeq, EncodeOps(Coalesced(ops)))
  {
    hide AlreadyCoalesced, Coalesced, EncodeOps, FrameOf;
    if AlreadyCoalesced(ops) { FastPathCoalesced(ops); }
  }

  /** Header, length, checksum, marker and payload are all checked before a frame is believed. */
  ghost function DecodeFrame(crc: Checksum, bytes: seq<byte>): (r: Option<(Transaction, nat)>)
    ensures r.Some? ==> TX_HEADER_LEN + 4 <= r.value.1 <= |bytes|
  {
    if |bytes| < TX_HEADER_LEN + 4 || From32(bytes[0..4]) != TX_MAGIC then None
    else
      var txSeq, len, stored := From64(bytes[4..12]), From32(bytes[12..16]), From32(bytes[16..20]);
      var total := TX_HEADER_LEN + len + 4;
      if |bytes| < total then None
      else
        var payload := bytes[TX_HEADER_LEN..TX_HEADER_LEN + len];
        if crc(txSeq, len, payload) != stored then None
        else if From32(bytes[TX_HEADER_LEN + len..total]) != TX_COMMIT_MARKER then None
        else match DecodeAll(payload)
          case None => None
          case Some(ops) => Some((Transaction(txSeq, ops), total))
  }

  method DecodeFrameAt(crc: Checksum, bytes: seq<byte>) returns (r: Option<(Transaction, nat)>)
    ensures r == DecodeFrame(crc, bytes)
  {
    hide DecodeAll, From32, From64;
    if |bytes| < TX_HEADER_LEN + 4 || From32(bytes[0..4]) != TX_MAGIC {
      return None;
    }
    var txSeq, len, stored := From64(bytes[4..12]), From32(bytes[12..16]), From32(bytes[16..20]);
    var total := TX_HEADER_LEN + len + 4;
    if |bytes| < total {
      return None;
    }
    var payload := bytes[TX_HEADER_LEN..TX_HEADER_LEN + len];
    if crc(txSeq, len, payload) != stored || From32(bytes[TX_HEADER_LEN + len..total]) != TX_COMMIT_MARKER {
      return None;
    }
    var ops := DecodeList(payload);
    match ops {
      case None => return None;
      case Some(list) => return Some((Transaction(txSeq, list), total));
    }
  }

  lemma FrameParts(crc: Checksum, txSeq: u64, payload: seq<byte>, rest: seq<byte>)
    requires |payload| < 0x1_0000_0000
    ensures var s := FrameOf(crc, txSeq, payload) + rest;
            && |FrameOf(crc, txSeq, payload)| == TX_HEADER_LEN + |payload| + 4
            && s[0..4] == LE32(TX_MAGIC) && s[4..12] == LE64(txSeq) && s[12..16] == LE32(|payload|)
            && s[16..20] == LE32(crc(txSeq, |payload|, payload))
            && s[TX_HEADER_LEN..TX_HEADER_LEN + |payload|] == payload
            && s[TX_HEADER_LEN + |payload|..TX_HEADER_LEN + |payload| + 4] == LE32(TX_COMMIT_MARKER)
  {
    hide LE;
  }

  /** A frame decodes to its own transaction and exact length, whatever follows it. */
  lemma FrameRoundTrip(crc: Checksum, txSeq: u64, ops: seq<MetadataOp>, rest: seq<byte>)
    requires |EncodeOps(Coalesced(ops))| < 0x1_0000_0000
    ensures DecodeFrame(crc, Frame(crc, txSeq, ops) + rest)
         == Some((Transaction(txSeq, Coalesced(ops)), |Frame(crc, txSeq, ops)|))
  {
    hide Coalesced, EncodeOps, FrameOf, From32, From64, LE32, LE64, Frame, DecodeAll;
    var target := Coalesced(ops);
    var payload := EncodeOps(target);
    FrameIsCoalesced(crc, txSeq, ops);
    FrameParts(crc, txSeq, payload, rest);
    RoundTrip32(TX_MAGIC); RoundTrip64(txSeq); RoundTrip32(|payload|);
    RoundTrip32(crc(txSeq, |payload|, payload)); RoundTrip32(TX_COMMIT_MARKER);
    PayloadEncodable(target);
    DecodeEncodeAll(target);
  }

  lemma {:induction false} PayloadEncodable(ops: seq<MetadataOp>)
    requires |EncodeOps(ops)| < 0x1_0000_0000
    ensures AllEncodable(ops)
  {
    hide Encode;
    if ops != [] {
      EncodeSize(ops[0]);
      PayloadEncodable(ops[1..]);
      assert ops == [ops[0]] + ops[1..];
    }
  }

  /** What is decoded depends on the frame's own bytes only. */
  lemma DecodeFramePrefix(crc: Checksum, a: seq<byte>, b: seq<byte>)
    requires DecodeFrame(crc, a).Some?
    requires DecodeFrame(crc, a).value.1 <= |b| && a[..DecodeFrame(crc, a).value.1] == b[..DecodeFrame(crc, a).value.1]
    ensures DecodeFrame(crc, b) == DecodeFrame(crc, a)
  {
    hide DecodeAll, From32, From64;
    var n := DecodeFrame(crc, a).value.1;
    var len := From32(a[12..16]);
    assert forall i, j :: 0 <= i <= j <= n ==> a[i..j] == a[..n][i..j] == b[..n][i..j] == b[i..j];
  }
}
