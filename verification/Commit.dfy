/** Crash safety of the metadata journal (src/disk.rs, `commit_journal_tx`, `apply_journal_ops`,
    `recover_journal`): what is on stable storage between two flushes, every way it can change, and
    what the next mount makes of it. */
module Commit {
  import opened Bytes
  import opened LastWins
  import opened MetadataOps
  import opened ImageModel
  import opened Coalesce
  import opened CoalesceMeaning
  import opened CoalesceTheorem
  import opened Frames
  import opened Ring
  import opened RingRuns

  /** Stable storage: the journal region and the rest of the image. */
  datatype Disk = Disk(ring: RingState, img: Image)

  ghost function OpsOf(txs: seq<Transaction>): seq<MetadataOp> {
    if txs == [] then [] else txs[0].ops + OpsOf(txs[1..])
  }

  /** Mount-time recovery: replay the ring, then redo every operation on the image. */
  ghost function Recovered(g: Geometry, crc: Checksum, d: Disk): Result<Image>
    requires |d.ring.buf| > 0
  {
    ApplyAll(g, d.img, OpsOf(Replay(crc, d.ring)))
  }

  method RecoverJournal(g: Geometry, crc: Checksum, ring: JournalRing, image: array<bool>)
    returns (ok: bool, count: nat)
    requires ring.Valid()
    modifies ring, image
    ensures ring.Valid() && ring.State() == old(ring.State()).(head := 0, tail := 0)
    ensures count == |Replay(crc, old(ring.State()))|
    ensures ok <==> Recovered(g, crc, old(Disk(ring.State(), image[..]))).Ok?
    ensures ok ==> Recovered(g, crc, old(Disk(ring.State(), image[..]))) == Ok(image[..])
  {
    hide Replay, ApplyAll;
    var txs := ring.Recover(crc);
    var ops := [];
    for i := 0 to |txs|
      invariant ops + OpsOf(txs[i..]) == OpsOf(txs)
    {
      assert txs[i..][1..] == txs[i + 1..];
      assert ops + (txs[i].ops + OpsOf(txs[i + 1..])) == ops + txs[i].ops + OpsOf(txs[i + 1..]);
      ops := ops + txs[i].ops;
    }
    assert OpsOf(txs[|txs|..]) == [] && ops == OpsOf(txs);
    ok := ApplyAllInPlace(g, image, ops);
    count := |txs|;
  }

  // ---------------------------------------------------------------------------
  // One transaction: coalesced and uncoalesced write the same bits
  // ---------------------------------------------------------------------------

  /** The operations of a transaction that may be logged: applicable, slices tidy, nothing freed
      after it was allocated. */
  ghost predicate Loggable(g: Geometry, ops: seq<MetadataOp>) {
    AllTarget(g, ops) && Tidy(AllSlices(ops)) && AllocatedLast(DataRuns(ops))
  }

  ghost predicate Mounted(g: Geometry, len: nat) {
    ValidGeometry(g, len) && g.blockCount - g.dataBlockStart < 0x1_0000_0000
  }

  lemma CoalescedWritesSame(g: Geometry, len: nat, ops: seq<MetadataOp>, p: nat)
    requires Mounted(g, len) && Loggable(g, ops) && p < len
    ensures AllTarget(g, Coalesced(ops)) && LastWrite(g, Coalesced(ops), p) == LastWrite(g, ops, p)
  {
    hide ValidGeometry, Tidy, AllSlices, AllocatedLast, LastWrite, CoalesceWith, SortOf, DataRuns, AllTarget;
    SortRunsSorts(DataRuns(ops));
    CoalescedTargets(g, ops, SortRuns(DataRuns(ops)));
    if |ops| <= 1 {
      ShortListUnchanged(ops, SortRuns(DataRuns(ops)));
    } else {
      BitsDecide(g, len, ops, SortRuns(DataRuns(ops)));
    }
  }

  // ---------------------------------------------------------------------------
  // Logs
  // ---------------------------------------------------------------------------

  ghost function LogOps(log: seq<Entry>): seq<MetadataOp> {
    if log == [] then [] else log[0].ops + LogOps(log[1..])
  }

  ghost predicate LoggableLog(g: Geometry, log: seq<Entry>) {
    forall i :: 0 <= i < |log| ==> Loggable(g, log[i].ops)
  }

  lemma {:induction false} LogOpsConcat(a: seq<Entry>, b: seq<Entry>)
    ensures LogOps(a + b) == LogOps(a) + LogOps(b)
  {
    if a == [] {
      assert a + b == b;
    } else {
      assert (a + b)[1..] == a[1..] + b;
      LogOpsConcat(a[1..], b);
      assert a[0].ops + (LogOps(a[1..]) + LogOps(b)) == a[0].ops + LogOps(a[1..]) + LogOps(b);
    }
  }

  lemma LastWriteConcat(g: Geometry, a: seq<MetadataOp>, b: seq<MetadataOp>, p: nat)
    ensures LastWrite(g, a + b, p) == if LastWrite(g, b, p).Some? then LastWrite(g, b, p) else LastWrite(g, a, p)
  {
    hide OpWrite;
    LastConcat(a, b, op => OpWrite(g, op, p));
  }

  lemma AllTargetConcat(g: Geometry, a: seq<MetadataOp>, b: seq<MetadataOp>)
    requires AllTarget(g, a) && AllTarget(g, b)
    ensures AllTarget(g, a + b)
  {
    hide Targets;
  }

  lemma {:induction false} LogTargets(g: Geometry, log: seq<Entry>)
    requires LoggableLog(g, log)
    ensures AllTarget(g, LogOps(log))
  {
    hide AllTarget;
    if log == [] {
      NothingTargets(g);
    } else {
      assert Loggable(g, log[0].ops);
      LogTargets(g, log[1..]);
      AllTargetConcat(g, log[0].ops, LogOps(log[1..]));
    }
  }

  lemma NothingTargets(g: Geometry)
    ensures AllTarget(g, [])
  {
  }

  /** Replaying the frames of a log writes the bits the log's own operations write. */
  lemma {:induction false} ReplayedWritesSame(g: Geometry, len: nat, log: seq<Entry>, p: nat)
    requires Mounted(g, len) && LoggableLog(g, log) && p < len
    ensures AllTarget(g, OpsOf(Transactions(log)))
    ensures LastWrite(g, OpsOf(Transactions(log)), p) == LastWrite(g, LogOps(log), p)
  {
    hide AllTarget, LastWrite, Coalesced, Mounted;
    if log == [] {
      NothingTargets(g);
    } else {
      assert Loggable(g, log[0].ops);
      var c, rest := Coalesced(log[0].ops), OpsOf(Transactions(log[1..]));
      assert Transactions(log)[1..] == Transactions(log[1..]);
      assert OpsOf(Transactions(log)) == c + rest;
      CoalescedWritesSame(g, len, log[0].ops, p);
      ReplayedWritesSame(g, len, log[1..], p);
      LastWriteConcat(g, c, rest, p);
      LastWriteConcat(g, log[0].ops, LogOps(log[1..]), p);
      AllTargetConcat(g, c, rest);
    }
  }

  // ---------------------------------------------------------------------------
  // The invariant of stable storage
  // ---------------------------------------------------------------------------

  /** `base` is the image with every retired transaction applied; stable storage may deviate from it
      only in bits the pending transactions write. */
  ghost predicate Durable(g: Geometry, crc: Checksum, d: Disk, base: Image, log: seq<Entry>) {
    && Mounted(g, |base|)
    && |d.ring.buf| < 0x1_0000_0000
    && Holds(crc, d.ring, log)
    && LoggableLog(g, log)
    && Disturbed(g, base, d.img, LogOps(log))
  }

  /** The image the file system has promised: the log on top of the base. */
  ghost function Promised(g: Geometry, base: Image, log: seq<Entry>): Result<Image> {
    ApplyAll(g, base, LogOps(log))
  }

  lemma PromiseSucceeds(g: Geometry, base: Image, log: seq<Entry>)
    requires Mounted(g, |base|) && LoggableLog(g, log)
    ensures Promised(g, base, log).Ok? && |Promised(g, base, log).value| == |base|
  {
    hide ApplyAll, AllFit, AllTarget, LoggableLog, LogOps, LastWrite;
    LogTargets(g, log);
    FitsAreTargets(g, |base|, LogOps(log));
    ApplyAllExact(g, base, LogOps(log));
  }

  /** Whatever part of the pending transactions reached their places, recovery delivers the promise. */
  lemma RecoveryKeepsPromise(g: Geometry, crc: Checksum, d: Disk, base: Image, log: seq<Entry>)
    requires Durable(g, crc, d, base, log)
    ensures |d.ring.buf| > 0 && Recovered(g, crc, d) == Promised(g, base, log)
  {
    hide ApplyAll, AllFit, AllTarget, LogOps, LastWrite, Transactions, OpsOf, Replay, SmallLog, FramesOf,
         ValidGeometry, Loggable;
    ReplayIsLog(crc, d.ring, log);
    var redo, ops, len := OpsOf(Transactions(log)), LogOps(log), |base|;
    PromiseSucceeds(g, base, log);
    SomeTargets(g, len, log);
    FitsAreTargets(g, len, redo);
    ApplyAllExact(g, d.img, redo);
    ApplyAllExact(g, base, ops);
    var a, b := ApplyAll(g, d.img, redo).value, ApplyAll(g, base, ops).value;
    forall p | 0 <= p < len ensures a[p] == b[p] {
      ReplayedWritesSame(g, len, log, p);
    }
    assert a == b;
  }

  lemma {:induction false} SomeTargets(g: Geometry, len: nat, log: seq<Entry>)
    requires Mounted(g, len) && LoggableLog(g, log)
    ensures AllTarget(g, OpsOf(Transactions(log)))
  {
    hide AllTarget, LastWrite, Coalesced, ValidGeometry, Tidy, AllocatedLast, AllSlices, DataRuns;
    if log == [] {
      NothingTargets(g);
    } else {
      assert Loggable(g, log[0].ops);
      var c := Coalesced(log[0].ops);
      assert Transactions(log)[1..] == Transactions(log[1..]);
      SomeTargets(g, len, log[1..]);
      CoalescedStaysTarget(g, len, log[0].ops);
      AllTargetConcat(g, c, OpsOf(Transactions(log[1..])));
    }
  }

  lemma CoalescedStaysTarget(g: Geometry, len: nat, ops: seq<MetadataOp>)
    requires Mounted(g, len) && Loggable(g, ops)
    ensures AllTarget(g, Coalesced(ops))
  {
    hide ValidGeometry, Tidy, AllSlices, AllocatedLast, CoalesceWith, SortOf, DataRuns, AllTarget;
    SortRunsSorts(DataRuns(ops));
    CoalescedTargets(g, ops, SortRuns(DataRuns(ops)));
  }

  // ---------------------------------------------------------------------------
  // Every change of stable storage
  // ---------------------------------------------------------------------------

  /** One change:
      TornFrame   any bytes outside tail..head change (a frame on its way to storage, in any part);
      Commit      the frame is complete and the header that covers it arrives;
      InPlace     any bits of pending transactions change, in any way;
      Retire      the first `count` transactions are durable in place and the tail passes them;
      Crash       the next mount recovers and empties the ring. */
  datatype Change =
    | TornFrame(buf: seq<byte>)
    | CommitTx(ops: seq<MetadataOp>, frameBuf: seq<byte>)
    | InPlace(img: Image)
    | RetireTx(count: nat)
    | Crash

  /** When the change can happen. A commit needs its frame below the ring end and on storage first;
      a retirement needs the retired transactions in place. */
  ghost predicate Enabled(g: Geometry, crc: Checksum, d: Disk, base: Image, log: seq<Entry>, c: Change) {
    match c
    case TornFrame(buf) =>
      && |buf| == |d.ring.buf|
      && d.ring.tail <= d.ring.head <= |buf| && buf[d.ring.tail..d.ring.head] == d.ring.buf[d.ring.tail..d.ring.head]
    case CommitTx(ops, frameBuf) =>
      var frame := EntryFrame(crc, NewEntry(d.ring, ops));
      && Loggable(g, ops)
      && d.ring.head + |frame| < |d.ring.buf|
      && d.ring.tail <= d.ring.head
      && frameBuf == Overwrite(d.ring.buf, d.ring.head, frame)
    case InPlace(img) =>
      Disturbed(g, d.img, img, LogOps(log))
    case RetireTx(count) =>
      && count <= |log|
      && Promised(g, base, log[..count]).Ok?
      && Disturbed(g, Promised(g, base, log[..count]).value, d.img, LogOps(log[count..]))
    case Crash => true
  }

  ghost function DiskAfter(g: Geometry, crc: Checksum, d: Disk, log: seq<Entry>, c: Change): Disk
    requires InBounds(d.ring)
  {
    match c
    case TornFrame(buf) => d.(ring := d.ring.(buf := buf))
    case CommitTx(ops, frameBuf) =>
      var head := d.ring.head + |EntryFrame(crc, NewEntry(d.ring, ops))|;
      d.(ring := RingState(frameBuf, head, d.ring.tail, NextSeq(d.ring.txSeq)))
    case InPlace(img) => d.(img := img)
    case RetireTx(count) =>
      if count <= |log| then d.(ring := CheckpointTo(d.ring, d.ring.tail + |FramesOf(crc, log[..count])|)) else d
    case Crash =>
      match Recovered(g, crc, d)
      case Err => d
      case Ok(img) => Disk(d.ring.(head := 0, tail := 0), img)
  }

  ghost function BaseAfter(g: Geometry, base: Image, log: seq<Entry>, c: Change): Image {
    match c
    case RetireTx(count) =>
      if count <= |log| && Promised(g, base, log[..count]).Ok? then Promised(g, base, log[..count]).value else base
    case Crash => (match Promised(g, base, log) case Err => base case Ok(img) => img)
    case _ => base
  }

  ghost function PendingAfter(d: Disk, log: seq<Entry>, c: Change): seq<Entry> {
    match c
    case CommitTx(ops, _) => log + [NewEntry(d.ring, ops)]
    case RetireTx(count) => if count <= |log| then log[count..] else log
    case Crash => []
    case _ => log
  }

  /** The commit step is what `append` does when the frame ends below the ring end. */
  lemma CommitIsAppend(crc: Checksum, st: RingState, ops: seq<MetadataOp>)
    requires 0 <= st.tail <= st.head < |st.buf|
    requires st.head + |EntryFrame(crc, NewEntry(st, ops))| < |st.buf|
    ensures var frame := EntryFrame(crc, NewEntry(st, ops));
            Append(crc, st, ops)
            == Some(RingState(Overwrite(st.buf, st.head, frame), st.head + |frame|, st.tail, NextSeq(st.txSeq)))
  {
    hide Frame, Overwrite, Turn, Place;
    FrameLength(crc, NewEntry(st, ops));
    PlaceCases(st, EntryFrame(crc, NewEntry(st, ops)));
  }

  // ---------------------------------------------------------------------------
  // Preservation
  // ---------------------------------------------------------------------------

  lemma TornFrameKeeps(g: Geometry, crc: Checksum, d: Disk, base: Image, log: seq<Entry>, c: Change)
    requires Durable(g, crc, d, base, log) && c.TornFrame? && Enabled(g, crc, d, base, log, c)
    ensures Durable(g, crc, DiskAfter(g, crc, d, log, c), base, log)
  {
    hide Mounted, FramesOf, SmallLog, LoggableLog, Disturbed;
  }

  lemma CommitKeeps(g: Geometry, crc: Checksum, d: Disk, base: Image, log: seq<Entry>, c: Change)
    requires Durable(g, crc, d, base, log) && c.CommitTx? && Enabled(g, crc, d, base, log, c)
    ensures Durable(g, crc, DiskAfter(g, crc, d, log, c), base, log + [NewEntry(d.ring, c.ops)])
    ensures Promised(g, base, log).Ok?
    ensures Promised(g, base, log + [NewEntry(d.ring, c.ops)]) == ApplyAll(g, Promised(g, base, log).value, c.ops)
  {
    hide Mounted, FramesOf, SmallLog, Loggable, LogOps, ApplyAll, Frame, Append, Overwrite, LastWrite, EntryFrame;
    var e := NewEntry(d.ring, c.ops);
    CommitIsAppend(crc, d.ring, c.ops);
    AppendGrowsLog(crc, d.ring, log, c.ops, DiskAfter(g, crc, d, log, c).ring);
    LogOpsConcat(log, [e]);
    OneEntry(e);
    WiderFootprint(g, base, d.img, LogOps(log), c.ops);
    PromiseSucceeds(g, base, log);
    ApplyAllConcat(g, base, LogOps(log), c.ops);
  }

  lemma OneEntry(e: Entry)
    ensures LogOps([e]) == e.ops
  {
    assert [e][1..] == [];
    assert e.ops + [] == e.ops;
  }

  lemma WiderFootprint(g: Geometry, base: Image, img: Image, a: seq<MetadataOp>, b: seq<MetadataOp>)
    requires Disturbed(g, base, img, a)
    ensures Disturbed(g, base, img, a + b)
  {
    hide LastWrite;
    forall p | 0 <= p < |base| && LastWrite(g, a + b, p).None? ensures img[p] == base[p] {
      LastWriteConcat(g, a, b, p);
    }
  }

  lemma InPlaceKeeps(g: Geometry, crc: Checksum, d: Disk, base: Image, log: seq<Entry>, c: Change)
    requires Durable(g, crc, d, base, log) && c.InPlace? && Enabled(g, crc, d, base, log, c)
    ensures Durable(g, crc, DiskAfter(g, crc, d, log, c), base, log)
  {
    hide Mounted, Holds, LoggableLog, LogOps, LastWrite;
  }

  lemma RetireKeeps(g: Geometry, crc: Checksum, d: Disk, base: Image, log: seq<Entry>, c: Change)
    requires Durable(g, crc, d, base, log) && c.RetireTx? && Enabled(g, crc, d, base, log, c)
    ensures Durable(g, crc, DiskAfter(g, crc, d, log, c), BaseAfter(g, base, log, c), log[c.count..])
    ensures Promised(g, BaseAfter(g, base, log, c), log[c.count..]) == Promised(g, base, log)
  {
    hide Mounted, FramesOf, SmallLog, Loggable, LogOps, ApplyAll, LastWrite, CheckpointTo, Disturbed;
    var k := c.count;
    assert log == log[..k] + log[k..];
    CheckpointDropsPrefix(crc, d.ring, log, k);
    SameBuffer(d.ring, d.ring.tail + |FramesOf(crc, log[..k])|);
    LogOpsConcat(log[..k], log[k..]);
    PromiseSucceeds(g, base, log[..k]);
    ApplyAllConcat(g, base, LogOps(log[..k]), LogOps(log[k..]));
  }

  lemma SameBuffer(st: RingState, cursor: nat)
    requires |st.buf| > 0
    ensures CheckpointTo(st, cursor).buf == st.buf
  {
  }

  lemma CrashKeeps(g: Geometry, crc: Checksum, d: Disk, base: Image, log: seq<Entry>)
    requires Durable(g, crc, d, base, log)
    ensures Durable(g, crc, DiskAfter(g, crc, d, log, Crash), BaseAfter(g, base, log, Crash), [])
    ensures Promised(g, BaseAfter(g, base, log, Crash), []) == Promised(g, base, log)
  {
    hide FramesOf, SmallLog, Loggable, LogOps, ApplyAll, LastWrite, ValidGeometry, Recovered, Promised;
    RecoveryKeepsPromise(g, crc, d, base, log);
    PromiseSucceeds(g, base, log);
    EmptyLog(crc);
    EmptyPromise(g, Promised(g, base, log).value);
  }

  lemma EmptyPromise(g: Geometry, img: Image)
    ensures Promised(g, img, []) == Ok(img) && LogOps([]) == [] && LoggableLog(g, []) && SmallLog([])
  {
  }

  /** What a change adds to the promise: a commit its transaction, everything else nothing. */
  ghost function Adds(c: Change): seq<MetadataOp> {
    if c.CommitTx? then c.ops else []
  }

  /** Every change keeps the invariant, and only a commit changes what recovery will deliver. */
  lemma ChangeKeepsPromise(g: Geometry, crc: Checksum, d: Disk, base: Image, log: seq<Entry>, c: Change)
    requires Durable(g, crc, d, base, log) && Enabled(g, crc, d, base, log, c)
    ensures InBounds(d.ring)
    ensures Durable(g, crc, DiskAfter(g, crc, d, log, c), BaseAfter(g, base, log, c), PendingAfter(d, log, c))
    ensures Promised(g, base, log).Ok?
    ensures Promised(g, BaseAfter(g, base, log, c), PendingAfter(d, log, c))
         == ApplyAll(g, Promised(g, base, log).value, Adds(c))
  {
    assert InBounds(d.ring) by { hide Mounted, FramesOf, LoggableLog, Disturbed; }
    hide Mounted, Holds, LoggableLog, Disturbed, Enabled, Promised, DiskAfter, LogOps;
    DurablePromise(g, crc, d, base, log);
    match c
    case TornFrame(_) => TornFrameKeeps(g, crc, d, base, log, c);
    case CommitTx(_, _) => CommitKeeps(g, crc, d, base, log, c);
    case InPlace(_) => InPlaceKeeps(g, crc, d, base, log, c);
    case RetireTx(_) => RetireEnabled(g, crc, d, base, log, c); RetireKeeps(g, crc, d, base, log, c);
    case Crash => CrashKeeps(g, crc, d, base, log);
  }

  lemma DurablePromise(g: Geometry, crc: Checksum, d: Disk, base: Image, log: seq<Entry>)
    requires Durable(g, crc, d, base, log)
    ensures Promised(g, base, log).Ok? && |d.ring.buf| > 0
  {
    hide Mounted, FramesOf, SmallLog, LoggableLog, Disturbed, Promised;
    PromiseSucceeds(g, base, log);
  }

  lemma RetireEnabled(g: Geometry, crc: Checksum, d: Disk, base: Image, log: seq<Entry>, c: Change)
    requires c.RetireTx? && Enabled(g, crc, d, base, log, c)
    ensures c.count <= |log|
  {
  }

  // ---------------------------------------------------------------------------
  // Runs and commits
  // ---------------------------------------------------------------------------

  /** A point of a run: stable storage, and the book-keeping of what it stands for. */
  datatype Point = Point(disk: Disk, base: Image, log: seq<Entry>)

  ghost predicate Possible(g: Geometry, crc: Checksum, x: Point, run: seq<Change>)
    decreases |run|
  {
    run == [] ||
    (&& InBounds(x.disk.ring) && Enabled(g, crc, x.disk, x.base, x.log, run[0])
     && Possible(g, crc, After(g, crc, x, run[0]), run[1..]))
  }

  ghost function After(g: Geometry, crc: Checksum, x: Point, c: Change): Point
    requires InBounds(x.disk.ring)
  {
    Point(DiskAfter(g, crc, x.disk, x.log, c), BaseAfter(g, x.base, x.log, c), PendingAfter(x.disk, x.log, c))
  }

  ghost function AfterAll(g: Geometry, crc: Checksum, x: Point, run: seq<Change>): Point
    requires Possible(g, crc, x, run)
    decreases |run|
  {
    if run == [] then x else AfterAll(g, crc, After(g, crc, x, run[0]), run[1..])
  }

  /** The operations committed by a run, in order. */
  ghost function Committed(run: seq<Change>): seq<MetadataOp> {
    if run == [] then [] else Adds(run[0]) + Committed(run[1..])
  }

  lemma {:induction false} RunKeepsPromise(g: Geometry, crc: Checksum, x: Point, run: seq<Change>)
    requires Durable(g, crc, x.disk, x.base, x.log) && Possible(g, crc, x, run)
    ensures var y := AfterAll(g, crc, x, run);
            && Durable(g, crc, y.disk, y.base, y.log)
            && Promised(g, x.base, x.log).Ok?
            && Promised(g, y.base, y.log) == ApplyAll(g, Promised(g, x.base, x.log).value, Committed(run))
    decreases |run|
  {
    hide Durable, Enabled, Promised, ApplyAll, DiskAfter, BaseAfter, PendingAfter, Adds;
    DurablePromise(g, crc, x.disk, x.base, x.log);
    var start := Promised(g, x.base, x.log).value;
    if run == [] {
      ApplyNothing(g, start);
    } else {
      ChangeKeepsPromise(g, crc, x.disk, x.base, x.log, run[0]);
      var y := After(g, crc, x, run[0]);
      DurablePromise(g, crc, y.disk, y.base, y.log);
      RunKeepsPromise(g, crc, y, run[1..]);
      ApplyAllConcat(g, start, Adds(run[0]), Committed(run[1..]));
    }
  }

  lemma ApplyNothing(g: Geometry, img: Image)
    ensures ApplyAll(g, img, []) == Ok(img)
  {
  }

  /** Crash safety of the journal. Start from an image and an empty ring. After any run of torn frame
      writes, commits, partial in-place writes, retirements and crashes with recovery, the next
      mount delivers the initial image with exactly the committed transactions applied, in order. */
  lemma CrashSafety(g: Geometry, crc: Checksum, img: Image, ringSize: nat, run: seq<Change>)
    requires Mounted(g, |img|) && 0 < ringSize < 0x1_0000_0000
    requires Possible(g, crc, Point(Disk(FreshRing(ringSize), img), img, []), run)
    ensures var y := AfterAll(g, crc, Point(Disk(FreshRing(ringSize), img), img, []), run);
            && |y.disk.ring.buf| > 0 && Recovered(g, crc, y.disk).Ok?
            && Recovered(g, crc, y.disk) == ApplyAll(g, img, Committed(run))
  {
    var x := Point(Disk(FreshRing(ringSize), img), img, []);
    EmptyPromise(g, img);
    EmptyLog(crc);
    assert Durable(g, crc, x.disk, img, []);
    RunKeepsPromise(g, crc, x, run);
    var y := AfterAll(g, crc, x, run);
    RecoveryKeepsPromise(g, crc, y.disk, y.base, y.log);
    DurablePromise(g, crc, y.disk, y.base, y.log);
  }

  /** One strict commit, crash by crash: before the header arrives the transaction is not there
      (however much of its frame is), afterwards it is there whole (however little was applied). */
  lemma StrictCommitIsAtomic(g: Geometry, crc: Checksum, d: Disk, base: Image, log: seq<Entry>, ops: seq<MetadataOp>,
                             torn: seq<byte>, img: Image)
    requires Durable(g, crc, d, base, log) && Loggable(g, ops)
    requires d.ring.head + |EntryFrame(crc, NewEntry(d.ring, ops))| < |d.ring.buf|
    requires |torn| == |d.ring.buf| && torn[d.ring.tail..d.ring.head] == d.ring.buf[d.ring.tail..d.ring.head]
    requires Disturbed(g, d.img, img, LogOps(log) + ops)
    ensures Promised(g, base, log).Ok?
    ensures Recovered(g, crc, d.(ring := d.ring.(buf := torn))) == Promised(g, base, log)
    ensures var frame := EntryFrame(crc, NewEntry(d.ring, ops));
            var buf := Overwrite(d.ring.buf, d.ring.head, frame);
            var ring := RingState(buf, d.ring.head + |frame|, d.ring.tail, NextSeq(d.ring.txSeq));
            Recovered(g, crc, Disk(ring, img)) == ApplyAll(g, Promised(g, base, log).value, ops)
  {
    hide Mounted, LoggableLog, Disturbed, FramesOf, SmallLog, LogOps, ApplyAll, Recovered, Promised, Frame, Overwrite,
         Loggable;
    var frame := EntryFrame(crc, NewEntry(d.ring, ops));
    var t := TornFrame(torn);
    TornFrameKeeps(g, crc, d, base, log, t);
    RecoveryKeepsPromise(g, crc, DiskAfter(g, crc, d, log, t), base, log);
    var c := CommitTx(ops, Overwrite(d.ring.buf, d.ring.head, frame));
    CommitKeeps(g, crc, d, base, log, c);
    var d', log' := DiskAfter(g, crc, d, log, c), log + [NewEntry(d.ring, ops)];
    LogOpsConcat(log, [NewEntry(d.ring, ops)]);
    OneEntry(NewEntry(d.ring, ops));
    InPlaceKeeps(g, crc, d', base, log', InPlace(img));
    RecoveryKeepsPromise(g, crc, d'.(img := img), base, log');
  }
}
