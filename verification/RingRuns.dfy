/** Whole runs of the transaction log, and the object that performs them. */
module RingRuns {
  import opened Bytes
  import opened LastWins
  import opened MetadataOps
  import opened Coalesce
  import opened Frames
  import opened Ring

  // ---------------------------------------------------------------------------
  // Checkpoints
  // ---------------------------------------------------------------------------

  lemma TurnDistance(head: nat, x: nat, ring: nat)
    requires x <= head < ring
    ensures Turn(head + ring - x, ring) == head - x
  {
    assert head + ring - x == (head - x) + ring;
    assert ((head - x) + ring) % ring == head - x;
  }

  /** Retiring up to a frame boundary drops exactly the transactions before it. */
  lemma CheckpointDropsPrefix(crc: Checksum, st: RingState, log: seq<Entry>, k: nat)
    requires Holds(crc, st, log) && k <= |log|
    ensures Holds(crc, CheckpointTo(st, st.tail + |FramesOf(crc, log[..k])|), log[k..])
  {
    hide FramesOf, SmallEntry, Turn;
    var cut := |FramesOf(crc, log[..k])|;
    assert log == log[..k] + log[k..];
    FramesConcat(crc, log[..k], log[k..]);
    var piece := st.buf[st.tail..st.head];
    assert piece[cut..] == FramesOf(crc, log[k..]);
    assert piece[cut..] == st.buf[st.tail + cut..st.head];
    TurnInside(st.head, |st.buf|); TurnInside(st.tail, |st.buf|); TurnInside(st.tail + cut, |st.buf|);
    TurnDistance(st.head, st.tail, |st.buf|);
    TurnDistance(st.head, st.tail + cut, |st.buf|);
  }

  /** A cursor that, taken modulo the ring, is not past the tail or is past the head. */
  predicate OutsideLog(st: RingState, cursor: nat)
    requires |st.buf| > 0
  {
    Turn(cursor, |st.buf|) <= st.tail || Turn(cursor, |st.buf|) > st.head
  }

  /** Such a cursor is ignored, and any other one becomes the tail. */
  lemma StaleCheckpointIgnored(st: RingState, cursor: nat)
    requires st.tail <= st.head < |st.buf|
    ensures CheckpointTo(st, cursor) == if OutsideLog(st, cursor) then st else st.(tail := Turn(cursor, |st.buf|))
  {
    hide Turn;
    var target := Turn(cursor, |st.buf|);
    TurnInside(st.head, |st.buf|); TurnInside(st.tail, |st.buf|);
    TurnDistance(st.head, st.tail, |st.buf|);
    if target <= st.head {
      TurnDistance(st.head, target, |st.buf|);
    } else {
      TurnInside(st.head + |st.buf| - target, |st.buf|);
    }
  }

  // ---------------------------------------------------------------------------
  // Runs
  // ---------------------------------------------------------------------------

  /** One action on the journal: append a transaction, retire the first `count` pending ones, retire
      to a cursor outside the log, reopen from the header, or recover. */
  datatype Event =
    | AppendTx(ops: seq<MetadataOp>)
    | Retire(count: nat)
    | RetireStale(cursor: nat)
    | Reopen
    | RecoverAll

  ghost function Exec(crc: Checksum, st: RingState, log: seq<Entry>, ev: Event): RingState
    requires InBounds(st) && |st.buf| < 0x1_0000_0000
  {
    match ev
    case AppendTx(ops) => (match Append(crc, st, ops) case None => st case Some(st') => st')
    case Retire(count) => if count <= |log| then CheckpointTo(st, st.tail + |FramesOf(crc, log[..count])|) else st
    case RetireStale(cursor) => CheckpointTo(st, cursor)
    case Reopen =>
      (match DecodeHeader(EncodeHeader(Header(st.head, st.tail, st.txSeq, false)))
       case None => st
       case Some(h) => RingState(st.buf, h.head, h.tail, h.txSeq))
    case RecoverAll => st.(head := 0, tail := 0)
  }

  /** The transactions still to be replayed, as the caller would keep book. */
  ghost function LogAfter(crc: Checksum, st: RingState, log: seq<Entry>, ev: Event): seq<Entry>
    requires InBounds(st)
  {
    match ev
    case AppendTx(ops) => if Append(crc, st, ops).None? then log else log + [NewEntry(st, ops)]
    case Retire(count) => if count <= |log| then log[count..] else log
    case RetireStale(_) => log
    case Reopen => log
    case RecoverAll => []
  }

  /** Appended frames are refused, end below the ring end, or start an empty log anew at 0; stale cursors
      are really stale. */
  ghost predicate Allowed(crc: Checksum, st: RingState, ev: Event)
    requires |st.buf| > 0
  {
    match ev
    case AppendTx(ops) =>
      var n := |EntryFrame(crc, NewEntry(st, ops))|;
      n > |st.buf| || (KeepsLog(st, n) && st.head + n != |st.buf|)
    case RetireStale(cursor) => OutsideLog(st, cursor)
    case _ => true
  }

  lemma StepHolds(crc: Checksum, st: RingState, log: seq<Entry>, ev: Event)
    requires Holds(crc, st, log) && |st.buf| < 0x1_0000_0000 && Allowed(crc, st, ev)
    ensures var st' := Exec(crc, st, log, ev); |st'.buf| == |st.buf| && Holds(crc, st', LogAfter(crc, st, log, ev))
  {
    hide FramesOf, SmallEntry, Turn, Frame, Place, Overwrite;
    match ev
    case AppendTx(ops) =>
      if Append(crc, st, ops).Some? {
        var st' := Append(crc, st, ops).value;
        if st.head + |EntryFrame(crc, NewEntry(st, ops))| < |st.buf| {
          AppendGrowsLog(crc, st, log, ops, st');
        } else {
          LogEmptyAt(crc, st, log);
          AppendRestartsLog(crc, st, log, ops, st');
          assert log + [NewEntry(st, ops)] == [NewEntry(st, ops)];
        }
        SameSizeAfter(st, EntryFrame(crc, NewEntry(st, ops)));
      }
    case Retire(count) => if count <= |log| { CheckpointDropsPrefix(crc, st, log, count); }
    case RetireStale(cursor) => StaleCheckpointIgnored(st, cursor);
    case Reopen =>
      var h := Header(st.head, st.tail, st.txSeq, false);
      HeaderRoundTrip(h, []);
      assert EncodeHeader(h) + [] == EncodeHeader(h);
    case RecoverAll => EmptyLog(crc);
  }

  lemma SameSizeAfter(st: RingState, frame: seq<byte>)
    requires InBounds(st) && |frame| <= |st.buf|
    ensures |Place(st, frame).buf| == |st.buf|
  {
    hide Used, Turn;
  }

  ghost predicate AllowedRun(crc: Checksum, st: RingState, log: seq<Entry>, run: seq<Event>)
    decreases |run|
  {
    run == [] ||
    (InBounds(st) && |st.buf| < 0x1_0000_0000 && Allowed(crc, st, run[0])
     && AllowedRun(crc, Exec(crc, st, log, run[0]), LogAfter(crc, st, log, run[0]), run[1..]))
  }

  ghost function ExecRun(crc: Checksum, st: RingState, log: seq<Entry>, run: seq<Event>): (RingState, seq<Entry>)
    requires AllowedRun(crc, st, log, run)
    decreases |run|
  {
    if run == [] then (st, log)
    else ExecRun(crc, Exec(crc, st, log, run[0]), LogAfter(crc, st, log, run[0]), run[1..])
  }

  ghost function FreshRing(size: nat): RingState {
    RingState(seq(size, _ => 0), 0, 0, 0)
  }

  lemma {:induction false} RunHolds(crc: Checksum, st: RingState, log: seq<Entry>, run: seq<Event>)
    requires Holds(crc, st, log) && |st.buf| < 0x1_0000_0000 && AllowedRun(crc, st, log, run)
    ensures var (st', log') := ExecRun(crc, st, log, run); Holds(crc, st', log')
    decreases |run|
  {
    hide Holds, Exec, LogAfter, Allowed;
    if run != [] {
      StepHolds(crc, st, log, run[0]);
      RunHolds(crc, Exec(crc, st, log, run[0]), LogAfter(crc, st, log, run[0]), run[1..]);
    }
  }

  /** From a fresh ring, after any run of allowed steps, the bytes tail..head are the
      frames of the unretired transactions and recovery replays exactly those, in order. */
  lemma EveryRunReplaysItsLog(crc: Checksum, size: nat, run: seq<Event>)
    requires 0 < size < 0x1_0000_0000 && AllowedRun(crc, FreshRing(size), [], run)
    ensures var (st, log) := ExecRun(crc, FreshRing(size), [], run);
            Holds(crc, st, log) && Replay(crc, st) == Transactions(log)
  {
    EmptyLog(crc);
    assert Holds(crc, FreshRing(size), []);
    RunHolds(crc, FreshRing(size), [], run);
    var (st, log) := ExecRun(crc, FreshRing(size), [], run);
    ReplayIsLog(crc, st, log);
  }

  // ---------------------------------------------------------------------------
  // Transaction numbers
  // ---------------------------------------------------------------------------

  const NUMBERS := 0x1_0000_0000_0000_0000

  /** How many appends of a run were not refused. */
  ghost function Accepted(crc: Checksum, st: RingState, log: seq<Entry>, run: seq<Event>): nat
    requires AllowedRun(crc, st, log, run)
    decreases |run|
  {
    if run == [] then 0
    else
      (if run[0].AppendTx? && Append(crc, st, run[0].ops).Some? then 1 else 0)
      + Accepted(crc, Exec(crc, st, log, run[0]), LogAfter(crc, st, log, run[0]), run[1..])
  }

  /** The last entries of the log carry the last numbers given out, in order. */
  ghost predicate Numbered(st: RingState, log: seq<Entry>) {
    forall i :: 0 <= i < |log| ==> (log[i].txSeq + (|log| - 1 - i)) % NUMBERS == st.txSeq
  }

  lemma StepNumbers(crc: Checksum, st: RingState, log: seq<Entry>, ev: Event)
    requires InBounds(st) && |st.buf| < 0x1_0000_0000 && Numbered(st, log)
    ensures var st' := Exec(crc, st, log, ev);
            && Numbered(st', LogAfter(crc, st, log, ev))
            && st'.txSeq == if ev.AppendTx? && Append(crc, st, ev.ops).Some? then (st.txSeq + 1) % NUMBERS else st.txSeq
  {
    hide Frame, Place, Overwrite, Turn;
    match ev
    case AppendTx(ops) =>
      if Append(crc, st, ops).Some? {
        AppendNumber(crc, st, ops);
        var all, last := log + [NewEntry(st, ops)], (st.txSeq + 1) % NUMBERS;
        forall i | 0 <= i < |all| ensures (all[i].txSeq + (|all| - 1 - i)) % NUMBERS == last {
          if i < |log| { NextNumber(log[i].txSeq + (|log| - 1 - i), st.txSeq); }
        }
      }
    case Retire(count) =>
    case RetireStale(_) =>
    case Reopen =>
      var h := Header(st.head, st.tail, st.txSeq, false);
      HeaderRoundTrip(h, []);
      assert EncodeHeader(h) + [] == EncodeHeader(h);
    case RecoverAll =>
  }

  lemma NextNumber(x: nat, y: nat)
    requires x % NUMBERS == y
    ensures (x + 1) % NUMBERS == (y + 1) % NUMBERS
  {
  }

  /** An accepted append takes the next number, for its frame and as the last one given out. */
  lemma AppendNumber(crc: Checksum, st: RingState, ops: seq<MetadataOp>)
    requires InBounds(st)
    ensures NewEntry(st, ops).txSeq == (st.txSeq + 1) % NUMBERS
    ensures Append(crc, st, ops).Some? ==> Append(crc, st, ops).value.txSeq == (st.txSeq + 1) % NUMBERS
  {
    hide Frame, Overwrite, Turn, Used;
  }

  /** After a run the last number is the first one plus the number of accepted appends; nothing but an append
      moves it. */
  lemma {:induction false} RunNumbers(crc: Checksum, st: RingState, log: seq<Entry>, run: seq<Event>)
    requires AllowedRun(crc, st, log, run) && Numbered(st, log)
    ensures var (st', log') := ExecRun(crc, st, log, run);
            Numbered(st', log') && st'.txSeq == (st.txSeq + Accepted(crc, st, log, run)) % NUMBERS
    decreases |run|
  {
    hide Exec, LogAfter, Allowed, Numbered, Append;
    if run != [] {
      StepNumbers(crc, st, log, run[0]);
      RunNumbers(crc, Exec(crc, st, log, run[0]), LogAfter(crc, st, log, run[0]), run[1..]);
    }
  }

  /** The run up to event `k`. */
  lemma {:induction false} RunPrefix(crc: Checksum, st: RingState, log: seq<Entry>, run: seq<Event>, k: nat)
    requires AllowedRun(crc, st, log, run) && k <= |run|
    ensures AllowedRun(crc, st, log, run[..k])
    ensures k < |run| ==> InBounds(ExecRun(crc, st, log, run[..k]).0)
    decreases k
  {
    hide Exec, LogAfter, Allowed;
    if k > 0 {
      assert run[..k][1..] == run[1..][..k - 1];
      RunPrefix(crc, Exec(crc, st, log, run[0]), LogAfter(crc, st, log, run[0]), run[1..], k - 1);
    }
  }

  /** From a fresh ring the i-th append that is accepted gets number i (modulo 2^64), whatever was retired,
      reopened or recovered in between. */
  lemma AppendsAreNumbered(crc: Checksum, size: nat, run: seq<Event>, k: nat)
    requires 0 < size < 0x1_0000_0000 && AllowedRun(crc, FreshRing(size), [], run)
    requires k < |run| && run[k].AppendTx?
    ensures AllowedRun(crc, FreshRing(size), [], run[..k]) && InBounds(ExecRun(crc, FreshRing(size), [], run[..k]).0)
    ensures var st := ExecRun(crc, FreshRing(size), [], run[..k]).0; var r := Append(crc, st, run[k].ops);
            r.Some? ==> r.value.txSeq == (Accepted(crc, FreshRing(size), [], run[..k]) + 1) % NUMBERS
  {
    hide AllowedRun, ExecRun, Append, Accepted;
    RunPrefix(crc, FreshRing(size), [], run, k);
    assert Numbered(FreshRing(size), []);
    RunNumbers(crc, FreshRing(size), [], run[..k]);
    var st, n := ExecRun(crc, FreshRing(size), [], run[..k]).0, Accepted(crc, FreshRing(size), [], run[..k]);
    AppendNumber(crc, st, run[k].ops);
    NextNumber(n, n % NUMBERS);
  }

  /** As long as the numbers last, recovery replays the last ones given out, one after the other. */
  lemma ReplayIsNumbered(crc: Checksum, size: nat, run: seq<Event>)
    requires 0 < size < 0x1_0000_0000 && AllowedRun(crc, FreshRing(size), [], run)
    requires Accepted(crc, FreshRing(size), [], run) < NUMBERS
    ensures var st := ExecRun(crc, FreshRing(size), [], run).0; |st.buf| > 0
    ensures var st := ExecRun(crc, FreshRing(size), [], run).0; var txs := Replay(crc, st);
            var n := Accepted(crc, FreshRing(size), [], run);
            |txs| <= n && forall i :: 0 <= i < |txs| ==> txs[i].txSeq == n - |txs| + 1 + i
  {
    hide AllowedRun, ExecRun, Accepted, Replay, Holds;
    assert Numbered(FreshRing(size), []);
    RunNumbers(crc, FreshRing(size), [], run);
    EveryRunReplaysItsLog(crc, size, run);
    FewPending(crc, FreshRing(size), [], run);
    var (st, log) := ExecRun(crc, FreshRing(size), [], run);
    var n := Accepted(crc, FreshRing(size), [], run);
    assert InBounds(st) by { HoldsInBounds(crc, st, log); }
    TransactionsAre(log);
    forall i | 0 <= i < |log| ensures log[i].txSeq == n - |log| + 1 + i { SmallNumber(log[i].txSeq, |log| - 1 - i, n); }
  }

  lemma {:induction false} TransactionsAre(log: seq<Entry>)
    ensures |Transactions(log)| == |log|
    ensures forall i :: 0 <= i < |log| ==> Transactions(log)[i].txSeq == log[i].txSeq
  {
    hide Coalesced;
    if log != [] { TransactionsAre(log[1..]); }
  }

  lemma SmallNumber(x: u64, back: nat, n: nat)
    requires (x + back) % NUMBERS == n && back < n < NUMBERS
    ensures x == n - back
  {
  }

  lemma HoldsInBounds(crc: Checksum, st: RingState, log: seq<Entry>)
    requires Holds(crc, st, log)
    ensures InBounds(st)
  {
  }

  /** What is pending was accepted. */
  lemma {:induction false} FewPending(crc: Checksum, st: RingState, log: seq<Entry>, run: seq<Event>)
    requires AllowedRun(crc, st, log, run)
    ensures |ExecRun(crc, st, log, run).1| <= |log| + Accepted(crc, st, log, run)
    decreases |run|
  {
    hide Exec, Allowed, Append;
    if run != [] {
      FewPending(crc, Exec(crc, st, log, run[0]), LogAfter(crc, st, log, run[0]), run[1..]);
    }
  }

  // ---------------------------------------------------------------------------
  // A wrap that loses a transaction
  // ---------------------------------------------------------------------------

  /** Commit and checkpoint, `m` times, as a strictly durable image does. */
  ghost function Cycles(ops: seq<MetadataOp>, m: nat): seq<Event> {
    if m == 0 then [] else [AppendTx(ops), Retire(1)] + Cycles(ops, m - 1)
  }

  /** An empty log at `head`, and nothing but zeros after it. */
  ghost predicate CleanFrom(st: RingState, head: nat) {
    st.head == st.tail == head < |st.buf| && st.buf[head..] == Zeros(|st.buf| - head)
  }

  lemma OneCycle(crc: Checksum, st: RingState, ops: seq<MetadataOp>, head: nat)
    requires CleanFrom(st, head) && |st.buf| < 0x1_0000_0000
    requires head + |EntryFrame(crc, NewEntry(st, ops))| < |st.buf|
    ensures var n := |EntryFrame(crc, NewEntry(st, ops))|; var e := NewEntry(st, ops);
            var st1 := Exec(crc, st, [], AppendTx(ops));
            && InBounds(st1) && |st1.buf| == |st.buf| && LogAfter(crc, st, [], AppendTx(ops)) == [e]
            && var st2 := Exec(crc, st1, [e], Retire(1));
            && |st2.buf| == |st.buf| && CleanFrom(st2, head + n) && LogAfter(crc, st1, [e], Retire(1)) == []
  {
    hide Frame, FramesOf, Place, Overwrite, EntryFrame, Turn, Append, CheckpointTo;
    var e := NewEntry(st, ops);
    var frame := EntryFrame(crc, e);
    AppendIsPlace(crc, st, ops);
    PlacedAtEnd(crc, st, ops, head);
    var st1 := Place(st, frame);
    assert [] + [e] == [e] && [e][..1] == [e] && [e][1..] == [];
    OneFrame(crc, e);
    StaleCheckpointIgnored(st1, st1.tail + |frame|);
    TurnInside(st1.tail + |frame|, |st.buf|);
    ZerosAfter(st.buf, head, frame);
  }

  lemma PlacedAtEnd(crc: Checksum, st: RingState, ops: seq<MetadataOp>, head: nat)
    requires CleanFrom(st, head) && head + |EntryFrame(crc, NewEntry(st, ops))| < |st.buf|
    ensures var frame := EntryFrame(crc, NewEntry(st, ops)); var st1 := Place(st, frame);
            && 24 <= |frame| && st1.head == head + |frame| && st1.tail == head
            && st1.buf == Overwrite(st.buf, head, frame)
  {
    hide Frame, Place, Overwrite, EntryFrame;
    SizeIs(crc, NewEntry(st, ops));
    PlaceCases(st, EntryFrame(crc, NewEntry(st, ops)));
  }

  lemma AppendIsPlace(crc: Checksum, st: RingState, ops: seq<MetadataOp>)
    requires InBounds(st) && |EntryFrame(crc, NewEntry(st, ops))| <= |st.buf|
    ensures Append(crc, st, ops) == Some(Place(st, EntryFrame(crc, NewEntry(st, ops))))
  {
    hide Frame, Place;
  }

  lemma ZerosAfter(buf: seq<byte>, head: nat, frame: seq<byte>)
    requires head + |frame| <= |buf| && buf[head..] == Zeros(|buf| - head)
    ensures Overwrite(buf, head, frame)[head + |frame|..] == Zeros(|buf| - (head + |frame|))
  {
    assert buf[head + |frame|..] == buf[head..][|frame|..];
  }

  /** A frame has one length, whatever its number and wherever it goes. */
  ghost function FrameSize(ops: seq<MetadataOp>): (n: nat)
    ensures n >= 24
  {
    TX_HEADER_LEN + |EncodeOps(Coalesced(ops))| + 4
  }

  lemma {:induction false} CyclesClimb(crc: Checksum, st: RingState, ops: seq<MetadataOp>, head: nat, m: nat)
    requires CleanFrom(st, head) && |st.buf| < 0x1_0000_0000 && head + Times(m, FrameSize(ops)) < |st.buf|
    ensures AllowedRun(crc, st, [], Cycles(ops, m))
    ensures var (st', log) := ExecRun(crc, st, [], Cycles(ops, m));
            log == [] && |st'.buf| == |st.buf| && CleanFrom(st', head + Times(m, FrameSize(ops)))
    decreases m
  {
    hide CleanFrom, Exec, LogAfter, FrameSize, EntryFrame, Times, Allowed, AllowedRun, ExecRun;
    var n := FrameSize(ops);
    CleanCursors(st, head);
    if m == 0 {
      NoEvents(crc, st);
      assert Times(0, n) == 0 by { TimesStep(0, n); }
    } else {
      var e := NewEntry(st, ops);
      assert |EntryFrame(crc, e)| == n by { SizeIs(crc, e); }
      TimesStep(m, n);
      OneCycle(crc, st, ops, head);
      var st1 := Exec(crc, st, [], AppendTx(ops));
      var st2 := Exec(crc, st1, [e], Retire(1));
      CyclesClimb(crc, st2, ops, head + n, m - 1);
      var rest := Cycles(ops, m - 1);
      assert Allowed(crc, st, AppendTx(ops)) by { AllowedAppend(crc, st, ops); }
      assert Allowed(crc, st1, Retire(1)) by { AllowedRetire(crc, st1); }
      FirstEvent(crc, st1, [e], Retire(1), rest);
      FirstEvent(crc, st, [], AppendTx(ops), [Retire(1)] + rest);
      assert Cycles(ops, m) == [AppendTx(ops)] + ([Retire(1)] + rest);
    }
  }

  ghost function Times(m: nat, n: nat): nat {
    m * n
  }

  lemma TimesStep(m: nat, n: nat)
    ensures Times(m, n) == if m == 0 then 0 else n + Times(m - 1, n)
  {
  }

  lemma NoEvents(crc: Checksum, st: RingState)
    ensures AllowedRun(crc, st, [], []) && ExecRun(crc, st, [], []) == (st, [])
  {
  }

  lemma AllowedAppend(crc: Checksum, st: RingState, ops: seq<MetadataOp>)
    requires st.head + |EntryFrame(crc, NewEntry(st, ops))| < |st.buf|
    ensures Allowed(crc, st, AppendTx(ops))
  {
    hide EntryFrame;
  }

  lemma AllowedRetire(crc: Checksum, st: RingState)
    requires |st.buf| > 0
    ensures Allowed(crc, st, Retire(1))
  {
  }

  lemma FirstEvent(crc: Checksum, st: RingState, log: seq<Entry>, ev: Event, rest: seq<Event>)
    requires InBounds(st) && |st.buf| < 0x1_0000_0000 && Allowed(crc, st, ev)
    requires AllowedRun(crc, Exec(crc, st, log, ev), LogAfter(crc, st, log, ev), rest)
    ensures AllowedRun(crc, st, log, [ev] + rest)
    ensures ExecRun(crc, st, log, [ev] + rest) == ExecRun(crc, Exec(crc, st, log, ev), LogAfter(crc, st, log, ev), rest)
  {
    hide Exec, LogAfter, Allowed;
    assert ([ev] + rest)[1..] == rest;
  }

  lemma SizeIs(crc: Checksum, e: Entry)
    ensures |EntryFrame(crc, e)| == FrameSize(e.ops)
  {
    hide Coalesced, EncodeOps, EntryFrame;
    FrameLength(crc, e);
  }

  lemma CleanCursors(st: RingState, head: nat)
    requires CleanFrom(st, head)
    ensures st.head == st.tail == head < |st.buf|
  {
  }

  /** Committing and checkpointing the same transaction over and over from a fresh ring: unless frames
      fill the ring without a rest, the first commit that wraps is not replayed. */
  lemma WrapLosesTransaction(crc: Checksum, size: nat, ops: seq<MetadataOp>)
    requires FrameSize(ops) < size < 0x1_0000_0000 && size % FrameSize(ops) != 0
    ensures var run := Cycles(ops, size / FrameSize(ops));
            && AllowedRun(crc, FreshRing(size), [], run)
            && var (st, log) := ExecRun(crc, FreshRing(size), [], run);
            && log == [] && InBounds(st) && Append(crc, st, ops).Some?
            && !KeepsLog(st, FrameSize(ops))
            && |Append(crc, st, ops).value.buf| > 0 && Replay(crc, Append(crc, st, ops).value) == []
  {
    hide Frame, FramesOf, SmallEntry, Place, Overwrite, EntryFrame, Turn, FrameSize, CleanFrom, Append, DecodeFrame,
         ExecRun, AllowedRun, Cycles, Times;
    var n := FrameSize(ops);
    var m := size / n;
    RoundsBelow(size, n);
    assert CleanFrom(FreshRing(size), 0) by { FreshIsClean(size); }
    CyclesClimb(crc, FreshRing(size), ops, 0, m);
    var (st, log) := ExecRun(crc, FreshRing(size), [], Cycles(ops, m));
    CleanCursors(st, Times(m, n));
    LostAt(crc, st, ops, Times(m, n));
  }

  lemma RoundsBelow(size: nat, n: nat)
    requires 0 < n < size && size % n != 0
    ensures n <= Times(size / n, n) < size < Times(size / n, n) + n
  {
    assert size == (size / n) * n + size % n;
  }

  /** On a ring of 32 blocks of 4096 bytes, with a transaction of one bit: the 3856th commit is lost. */
  lemma OneBitIsLost(crc: Checksum)
    ensures var ops := [SetDataBitmap(0, true)]; var run := Cycles(ops, 3855);
            && AllowedRun(crc, FreshRing(131072), [], run)
            && var st := ExecRun(crc, FreshRing(131072), [], run).0;
            && InBounds(st) && Append(crc, st, ops).Some?
            && |Append(crc, st, ops).value.buf| > 0 && Replay(crc, Append(crc, st, ops).value) == []
  {
    hide AllowedRun, ExecRun, Cycles, Append, Replay, FreshRing, KeepsLog;
    var ops := [SetDataBitmap(0, true)];
    OneBitFrame();
    WrapLosesTransaction(crc, 131072, ops);
  }

  lemma OneBitFrame()
    ensures FrameSize([SetDataBitmap(0, true)]) == 34
  {
    hide LE;
    var ops := [SetDataBitmap(0, true)];
    assert EncodeOps(ops[1..]) == [];
  }

  lemma FreshIsClean(size: nat)
    requires size > 0
    ensures CleanFrom(FreshRing(size), 0)
  {
    assert FreshRing(size).buf[0..] == Zeros(size);
  }

  /** The wrapping append itself. */
  lemma LostAt(crc: Checksum, st: RingState, ops: seq<MetadataOp>, head: nat)
    requires CleanFrom(st, head) && |st.buf| < 0x1_0000_0000
    requires FrameSize(ops) <= head && head + FrameSize(ops) > |st.buf|
    ensures Append(crc, st, ops).Some?
    ensures |Append(crc, st, ops).value.buf| > 0 && Replay(crc, Append(crc, st, ops).value) == []
  {
    hide Frame, FramesOf, SmallEntry, Place, Overwrite, EntryFrame, Turn, FrameSize, DecodeFrame, Append;
    SizeIs(crc, NewEntry(st, ops));
    AppendIsPlace(crc, st, ops);
    EmptyLog(crc);
    assert st.buf[st.tail..st.head] == [];
    var st' := Append(crc, st, ops).value;
    AppendHidesNewest(crc, st, [], ops, st');
    assert st'.buf[head..] == Zeros(|st.buf| - head);
    ZerosAreNoFrame(crc, |st.buf| - head);
  }

  lemma ZerosAreNoFrame(crc: Checksum, n: nat)
    ensures DecodeFrame(crc, Zeros(n)).None?
  {
    hide LE;
    if n >= 4 {
      assert Zeros(n)[..4] == Zeros(4) == LE(0, 4) by { ZeroLE(4); }
      RoundTrip32(0);
    }
  }

  // ---------------------------------------------------------------------------
  // The ring object
  // ---------------------------------------------------------------------------

  class JournalRing {
    var region: array<byte>
    var header: seq<byte>
    var head: nat
    var tail: nat
    var txSeq: u64
    var clean: bool

    ghost predicate Valid()
      reads this
    {
      && 0 < region.Length < 0x1_0000_0000
      && head < region.Length && tail < region.Length
      && header == EncodeHeader(Header(head, tail, txSeq, clean))
    }

    ghost function State(): RingState
      reads this, region
    {
      RingState(region[..], head, tail, txSeq)
    }

    constructor Create(blockSize: nat)
      requires 0 < 32 * blockSize < 0x1_0000_0000
      ensures Valid() && fresh(region) && State() == FreshRing(32 * blockSize) && !clean
    {
      region := new byte[32 * blockSize](_ => 0);
      head, tail, txSeq, clean := 0, 0, 0, false;
      header := EncodeHeader(Header(0, 0, 0, false));
      new;
      assert region[..] == FreshRing(32 * blockSize).buf;
    }

    method Persist()
      requires 0 < region.Length < 0x1_0000_0000 && head < region.Length && tail < region.Length
      modifies this`header
      ensures Valid() && State() == old(State())
    {
      header := EncodeHeader(Header(head, tail, txSeq, clean));
    }

    /** Attaching again reads back the cursors the header holds; a header that does not decode is refused. */
    method Open() returns (ok: bool)
      modifies this`head, this`tail, this`txSeq, this`clean
      ensures match DecodeHeader(header)
              case None => !ok && State() == old(State()) && clean == old(clean)
              case Some(h) => ok && State() == RingState(region[..], h.head, h.tail, h.txSeq) && clean == h.clean
      ensures old(Valid()) ==> ok && Valid() && State() == old(State())
    {
      hide EncodeHeader, DecodeHeader;
      HeaderRoundTrip(Header(head % 0x1_0000_0000_0000_0000, tail % 0x1_0000_0000_0000_0000, txSeq, clean), []);
      assert header + [] == header;
      match DecodeHeader(header) {
        case None => ok := false;
        case Some(h) =>
          head, tail, txSeq, clean := h.head, h.tail, h.txSeq, h.clean;
          ok := true;
      }
    }

    method AppendTx(crc: Checksum, ops: seq<MetadataOp>) returns (seqNo: Option<u64>)
      requires Valid()
      modifies this, region
      ensures Valid() && region == old(region)
      ensures match Append(crc, old(State()), ops)
              case None => seqNo == None && State() == old(State())
              case Some(st) => seqNo == Some(st.txSeq) && State() == st
      ensures seqNo.Some? ==> seqNo.value == txSeq == (old(txSeq) + 1) % NUMBERS
      ensures seqNo.None? ==> txSeq == old(txSeq)
      ensures clean == (seqNo.None? && old(clean))
    {
      hide Frame, FrameOf, Coalesced, EncodeOps, Turn, EncodeHeader, Overwrite;
      ghost var st0 := State();
      var next := NextSeq(txSeq);
      var frame := EncodeFrame(crc, next, ops);
      if |frame| > region.Length {
        return None;
      }
      var at := if head + |frame| > region.Length then 0 else head;
      var used := Turn(at + region.Length - tail, region.Length);
      if used + |frame| > region.Length {
        tail := at;
      }
      CopyInto(region, at, frame);
      head := Turn(at + |frame|, region.Length);
      txSeq := next;
      clean := false;
      Persist();
      seqNo := Some(next);
      assert State() == Place(st0, frame);
    }

    method Retire(cursor: nat)
      requires Valid()
      modifies this`tail, this`header
      ensures Valid() && State() == CheckpointTo(old(State()), cursor)
    {
      hide Turn, EncodeHeader;
      var ring := region.Length;
      var h, t, target := Turn(head, ring), Turn(tail, ring), Turn(cursor, ring);
      if target != t && Turn(h + ring - target, ring) <= Turn(h + ring - t, ring) {
        tail := target;
        Persist();
      }
    }

    /** Replays the pending transactions and empties the ring. */
    method Recover(crc: Checksum) returns (txs: seq<Transaction>)
      requires Valid()
      modifies this`head, this`tail, this`clean, this`header
      ensures txs == Replay(crc, old(State()))
      ensures Valid() && clean && State() == old(State()).(head := 0, tail := 0)
    {
      hide Turn, DecodeFrame, EncodeHeader;
      var ring, stop := region.Length, Turn(head, region.Length);
      var cursor: nat := Turn(tail, ring);
      var turned: nat := 0;
      var all := region[..];
      txs := [];
      while cursor != stop && turned < ring && cursor < ring
        invariant Replay(crc, old(State())) == txs + ReplayFrom(crc, all, cursor, stop, turned)
        decreases ring - turned
      {
        var d := DecodeFrameAt(crc, all[cursor..]);
        match d {
          case None => break;
          case Some((tx, total)) =>
            txs := txs + [tx];
            cursor := Turn(cursor + total, ring);
            turned := turned + total;
        }
      }
      head, tail, clean := 0, 0, true;
      Persist();
    }
  }

  method CopyInto(a: array<byte>, at: nat, data: seq<byte>)
    requires at + |data| <= a.Length
    modifies a
    ensures a[..] == Overwrite(old(a[..]), at, data)
  {
    for i := 0 to |data|
      invariant forall p :: 0 <= p < a.Length ==> a[p] == if at <= p < at + i then data[p - at] else old(a[p])
    {
      a[at + i] := data[i];
    }
  }
}
