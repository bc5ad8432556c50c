/** The circular transaction log (src/journal.rs, `JournalState` and `JournalRing`), as functions of
    its buffer and cursors. */
module Ring {
  import opened Bytes
  import opened LastWins
  import opened MetadataOps
  import opened Coalesce
  import opened Frames

  // ---------------------------------------------------------------------------
  // The persistent header
  // ---------------------------------------------------------------------------

  const JOURNAL_HEADER_MAGIC: u32 := 0x4A52_4E4C
  const JOURNAL_FORMAT_VERSION: u32 := 1
  const JOURNAL_RING_BLOCKS: u32 := 32
  const JOURNAL_HEADER_LEN := 40

  datatype Header = Header(head: u64, tail: u64, txSeq: u64, clean: bool)

  function EncodeHeader(h: Header): (r: seq<byte>)
    ensures |r| == JOURNAL_HEADER_LEN
  {
    LE32(JOURNAL_HEADER_MAGIC) + LE32(JOURNAL_FORMAT_VERSION) + LE32(JOURNAL_RING_BLOCKS)
    + LE64(h.head) + LE64(h.tail) + LE64(h.txSeq) + [Flag(h.clean)] + [0, 0, 0]
  }

  function DecodeHeader(bytes: seq<byte>): Option<Header> {
    if |bytes| < JOURNAL_HEADER_LEN then None
    else if From32(bytes[0..4]) != JOURNAL_HEADER_MAGIC then None
    else if From32(bytes[4..8]) != JOURNAL_FORMAT_VERSION then None
    else if From32(bytes[8..12]) != JOURNAL_RING_BLOCKS then None
    else Some(Header(From64(bytes[12..20]), From64(bytes[20..28]), From64(bytes[28..36]), bytes[36] != 0))
  }

  lemma HeaderRoundTrip(h: Header, rest: seq<byte>)
    ensures DecodeHeader(EncodeHeader(h) + rest) == Some(h)
  {
    hide From32, From64, LE;
    var s := EncodeHeader(h) + rest;
    RoundTrip32(JOURNAL_HEADER_MAGIC); RoundTrip32(JOURNAL_FORMAT_VERSION); RoundTrip32(JOURNAL_RING_BLOCKS);
    RoundTrip64(h.head); RoundTrip64(h.tail); RoundTrip64(h.txSeq);
    assert s[0..4] == LE32(JOURNAL_HEADER_MAGIC) && s[4..8] == LE32(JOURNAL_FORMAT_VERSION)
        && s[8..12] == LE32(JOURNAL_RING_BLOCKS);
    assert s[12..20] == LE64(h.head) && s[20..28] == LE64(h.tail);
    assert s[28..36] == LE64(h.txSeq) && s[36] == Flag(h.clean);
  }

  // ---------------------------------------------------------------------------
  // Ring operations
  // ---------------------------------------------------------------------------

  /** The record ring and its cursors. */
  datatype RingState = RingState(buf: seq<byte>, head: nat, tail: nat, txSeq: u64)

  function Used(st: RingState): nat
    requires |st.buf| > 0 && st.tail <= st.head + |st.buf|
  {
    Turn(st.head + |st.buf| - st.tail, |st.buf|)
  }

  function NextSeq(s: u64): u64 {
    if s == 0xFFFF_FFFF_FFFF_FFFF then 0 else s + 1
  }

  ghost predicate InBounds(st: RingState) {
    st.head < |st.buf| && st.tail < |st.buf|
  }

  function Overwrite(buf: seq<byte>, at: nat, data: seq<byte>): (r: seq<byte>)
    requires at + |data| <= |buf|
    ensures |r| == |buf| && r[at..at + |data|] == data && r[..at] == buf[..at] && r[at + |data|..] == buf[at + |data|..]
  {
    buf[..at] + data + buf[at + |data|..]
  }

  /** Placing a frame of given bytes: wrap so that it stays contiguous, drop what it overwrites. */
  function Place(st: RingState, frame: seq<byte>): RingState
    requires InBounds(st) && |frame| <= |st.buf|
  {
    var head := if st.head + |frame| > |st.buf| then 0 else st.head;
    var tail := if Used(st.(head := head)) + |frame| > |st.buf| then head else st.tail;
    RingState(Overwrite(st.buf, head, frame), Turn(head + |frame|, |st.buf|), tail, NextSeq(st.txSeq))
  }

  /** `None` when the transaction is larger than the ring. */
  ghost function Append(crc: Checksum, st: RingState, ops: seq<MetadataOp>): Option<RingState>
    requires InBounds(st)
  {
    var frame := Frame(crc, NextSeq(st.txSeq), ops);
    if |frame| > |st.buf| then None else Some(Place(st, frame))
  }

  /** Cursors are taken modulo the ring. */
  function Turn(x: nat, n: nat): (r: nat)
    requires n > 0
    ensures r < n
  {
    x % n
  }

  lemma TurnInside(x: nat, n: nat)
    requires x < n
    ensures Turn(x, n) == x && Turn(n, n) == 0
  {
  }

  /** The transactions `recover` replays: frame by frame from `cursor`, until the head, a frame that
      does not validate, or a full turn. */
  ghost function ReplayFrom(crc: Checksum, buf: seq<byte>, cursor: nat, head: nat, turned: nat): seq<Transaction>
    decreases |buf| - turned
  {
    if cursor == head || turned >= |buf| || cursor >= |buf| then []
    else match DecodeFrame(crc, buf[cursor..])
      case None => []
      case Some((tx, total)) => [tx] + ReplayFrom(crc, buf, Turn(cursor + total, |buf|), head, turned + total)
  }

  ghost function Replay(crc: Checksum, st: RingState): seq<Transaction>
    requires |st.buf| > 0
  {
    ReplayFrom(crc, st.buf, Turn(st.tail, |st.buf|), Turn(st.head, |st.buf|), 0)
  }

  /** `checkpoint_to`: the tail only moves forward, and never past the head. */
  function CheckpointTo(st: RingState, cursor: nat): RingState
    requires |st.buf| > 0
  {
    var ring := |st.buf|;
    var head, tail, target := Turn(st.head, ring), Turn(st.tail, ring), Turn(cursor, ring);
    if target == tail then st
    else if Turn(head + ring - target, ring) <= Turn(head + ring - tail, ring) then st.(tail := target)
    else st
  }

  // ---------------------------------------------------------------------------
  // The log in the ring
  // ---------------------------------------------------------------------------

  /** A transaction as it was appended. */
  datatype Entry = Entry(txSeq: u64, ops: seq<MetadataOp>)

  ghost function EntryFrame(crc: Checksum, e: Entry): seq<byte> {
    Frame(crc, e.txSeq, e.ops)
  }

  ghost function FramesOf(crc: Checksum, log: seq<Entry>): seq<byte> {
    if log == [] then [] else EntryFrame(crc, log[0]) + FramesOf(crc, log[1..])
  }

  /** What replaying the log means: each transaction in its coalesced form, in order. */
  ghost function Transactions(log: seq<Entry>): seq<Transaction> {
    if log == [] then [] else [Transaction(log[0].txSeq, Coalesced(log[0].ops))] + Transactions(log[1..])
  }

  ghost predicate SmallEntry(e: Entry) {
    |EncodeOps(Coalesced(e.ops))| < 0x1_0000_0000
  }

  ghost predicate SmallLog(log: seq<Entry>) {
    forall i :: 0 <= i < |log| ==> SmallEntry(log[i])
  }

  /** The bytes tail..head are exactly the frames of `log`. */
  ghost predicate Holds(crc: Checksum, st: RingState, log: seq<Entry>) {
    && 0 <= st.tail <= st.head < |st.buf|
    && SmallLog(log)
    && st.buf[st.tail..st.head] == FramesOf(crc, log)
  }

  lemma {:induction false} FramesConcat(crc: Checksum, a: seq<Entry>, b: seq<Entry>)
    ensures FramesOf(crc, a + b) == FramesOf(crc, a) + FramesOf(crc, b)
  {
    hide EntryFrame;
    if a == [] {
      assert a + b == b;
    } else {
      assert (a + b)[1..] == a[1..] + b;
      FramesConcat(crc, a[1..], b);
    }
  }

  lemma {:induction false} TransactionsConcat(a: seq<Entry>, b: seq<Entry>)
    ensures Transactions(a + b) == Transactions(a) + Transactions(b)
  {
    hide Coalesced;
    if a == [] {
      assert a + b == b;
    } else {
      assert (a + b)[1..] == a[1..] + b;
      TransactionsConcat(a[1..], b);
    }
  }

  lemma EntryDecodes(crc: Checksum, e: Entry, rest: seq<byte>)
    requires SmallEntry(e)
    ensures DecodeFrame(crc, EntryFrame(crc, e) + rest)
         == Some((Transaction(e.txSeq, Coalesced(e.ops)), |EntryFrame(crc, e)|))
    ensures |EntryFrame(crc, e)| >= 24
  {
    hide DecodeFrame, Frame, Coalesced;
    FrameRoundTrip(crc, e.txSeq, e.ops, rest);
    FrameLength(crc, e);
  }

  lemma FrameLength(crc: Checksum, e: Entry)
    ensures |EntryFrame(crc, e)| == TX_HEADER_LEN + |EncodeOps(Coalesced(e.ops))| + 4
  {
    hide Coalesced, EncodeOps, LE;
    FrameIsCoalesced(crc, e.txSeq, e.ops);
  }

  lemma ReplayStep(crc: Checksum, buf: seq<byte>, e: Entry, cursor: nat, head: nat, turned: nat)
    requires SmallEntry(e) && cursor != head && turned < |buf|
    requires cursor + |EntryFrame(crc, e)| <= |buf| && buf[cursor..cursor + |EntryFrame(crc, e)|] == EntryFrame(crc, e)
    ensures var n := |EntryFrame(crc, e)|;
            && n >= 24
            && ReplayFrom(crc, buf, cursor, head, turned)
            == [Transaction(e.txSeq, Coalesced(e.ops))]
               + ReplayFrom(crc, buf, Turn(cursor + n, |buf|), head, turned + n)
  {
    hide EntryFrame, Coalesced, SmallEntry, DecodeFrame, Turn;
    var frame := EntryFrame(crc, e);
    var rest := buf[cursor + |frame|..];
    assert buf[cursor..] == frame + rest;
    EntryDecodes(crc, e, rest);
  }

  /** Replay walks through the frames laid out from `cursor` to `stop` and continues from there. */
  lemma {:induction false} ReplayWalk(crc: Checksum, buf: seq<byte>, log: seq<Entry>, cursor: nat, stop: nat,
                                      head: nat, turned: nat)
    requires log != [] && SmallLog(log) && cursor <= stop <= |buf| && turned + (stop - cursor) <= |buf|
    requires buf[cursor..stop] == FramesOf(crc, log)
    requires head < cursor || stop <= head
    ensures cursor < stop
    ensures ReplayFrom(crc, buf, cursor, head, turned)
         == Transactions(log) + ReplayFrom(crc, buf, Turn(stop, |buf|), head, turned + (stop - cursor))
    decreases |log|
  {
    hide EntryFrame, Coalesced, SmallEntry, ReplayFrom, Turn;
    var frame, rest := EntryFrame(crc, log[0]), FramesOf(crc, log[1..]);
    var n, tx := |frame|, Transaction(log[0].txSeq, Coalesced(log[0].ops));
    var piece := buf[cursor..stop];
    assert piece == frame + rest;
    FrameLength(crc, log[0]);
    assert piece[..n] == buf[cursor..cursor + n] && piece[n..] == buf[cursor + n..stop];
    ReplayStep(crc, buf, log[0], cursor, head, turned);
    var end := ReplayFrom(crc, buf, Turn(stop, |buf|), head, turned + (stop - cursor));
    if log[1..] == [] {
      EmptyLog(crc);
      assert cursor + n == stop && Transactions(log) == [tx];
    } else {
      FramesNonEmpty(crc, log[1..]);
      TurnInside(cursor + n, |buf|);
      ReplayWalk(crc, buf, log[1..], cursor + n, stop, head, turned + n);
      assert turned + n + (stop - (cursor + n)) == turned + (stop - cursor);
      assert [tx] + (Transactions(log[1..]) + end) == [tx] + Transactions(log[1..]) + end;
    }
  }

  lemma FramesNonEmpty(crc: Checksum, log: seq<Entry>)
    requires log != []
    ensures |FramesOf(crc, log)| >= 24
  {
    hide Coalesced, EntryFrame;
    FrameLength(crc, log[0]);
  }

  /** Recovery replays exactly the transactions of the log, in order. */
  lemma ReplayIsLog(crc: Checksum, st: RingState, log: seq<Entry>)
    requires Holds(crc, st, log)
    ensures Replay(crc, st) == Transactions(log)
  {
    hide Transactions, FramesOf, SmallLog, DecodeFrame, Turn;
    EmptyLog(crc);
    TurnInside(st.head, |st.buf|);
    TurnInside(st.tail, |st.buf|);
    if log != [] {
      ReplayWalk(crc, st.buf, log, st.tail, st.head, st.head, 0);
    }
  }

  lemma EmptyLog(crc: Checksum)
    ensures FramesOf(crc, []) == [] && Transactions([]) == []
  {
  }

  // ---------------------------------------------------------------------------
  // Every outcome of an append
  // ---------------------------------------------------------------------------

  ghost function NewEntry(st: RingState, ops: seq<MetadataOp>): Entry {
    Entry(NextSeq(st.txSeq), ops)
  }

  lemma UsedValue(st: RingState)
    requires InBounds(st)
    ensures Used(st) == if st.tail <= st.head then st.head - st.tail else st.head + |st.buf| - st.tail
  {
    var n := |st.buf|;
    if st.tail <= st.head {
      assert st.head + n - st.tail == (st.head - st.tail) + n;
      assert ((st.head - st.tail) + n) % n == st.head - st.tail;
    }
  }

  lemma NewEntrySmall(crc: Checksum, st: RingState, ops: seq<MetadataOp>)
    requires |st.buf| < 0x1_0000_0000 && |EntryFrame(crc, NewEntry(st, ops))| <= |st.buf|
    ensures SmallEntry(NewEntry(st, ops))
  {
    hide Coalesced, EncodeOps, EntryFrame;
    FrameLength(crc, NewEntry(st, ops));
  }

  /** The frame and its effect on the cursors, for a log that lies in one piece. */
  lemma PlaceCases(st: RingState, frame: seq<byte>)
    requires 0 <= st.tail <= st.head < |st.buf| && 0 < |frame| <= |st.buf|
    ensures var st', n, ring := Place(st, frame), |frame|, |st.buf|;
            && |st'.buf| == ring && st'.txSeq == NextSeq(st.txSeq)
            && (if st.head + n <= ring then
                  && st'.buf == Overwrite(st.buf, st.head, frame)
                  && st'.head == (if st.head + n == ring then 0 else st.head + n)
                  && st'.tail == st.tail
                else
                  && st'.buf == Overwrite(st.buf, 0, frame)
                  && st'.head == (if n == ring then 0 else n)
                  && st'.tail == (if st.tail == 0 || n > st.tail then 0 else st.tail))
  {
    hide Overwrite, Used, Turn;
    var n, ring := |frame|, |st.buf|;
    var head := if st.head + n > ring then 0 else st.head;
    UsedValue(st.(head := head));
    if head + n < ring { TurnInside(head + n, ring); } else { TurnInside(0, ring); }
  }

  ghost predicate Appended(crc: Checksum, st: RingState, ops: seq<MetadataOp>, st': RingState) {
    InBounds(st) && Append(crc, st, ops) == Some(st')
  }

  /** Room below the end of the ring: the log grows by exactly the new transaction. */
  lemma AppendGrowsLog(crc: Checksum, st: RingState, log: seq<Entry>, ops: seq<MetadataOp>, st': RingState)
    requires Holds(crc, st, log) && |st.buf| < 0x1_0000_0000
    requires Appended(crc, st, ops, st')
    requires st.head + |EntryFrame(crc, NewEntry(st, ops))| < |st.buf|
    ensures Holds(crc, st', log + [NewEntry(st, ops)])
  {
    hide Frame, FramesOf, SmallEntry, Place, Overwrite;
    var e := NewEntry(st, ops);
    var frame := EntryFrame(crc, e);
    NewEntrySmall(crc, st, ops);
    FrameLength(crc, e);
    PlaceCases(st, frame);
    FramesConcat(crc, log, [e]);
    OneFrame(crc, e);
    GrownBytes(st.buf, st.tail, st.head, frame);
  }

  lemma OneFrame(crc: Checksum, e: Entry)
    ensures FramesOf(crc, [e]) == EntryFrame(crc, e) && Transactions([e]) == [Transaction(e.txSeq, Coalesced(e.ops))]
  {
    hide EntryFrame, Coalesced;
    assert [e][1..] == [];
  }

  lemma GrownBytes(buf: seq<byte>, tail: nat, head: nat, frame: seq<byte>)
    requires tail <= head && head + |frame| <= |buf|
    ensures Overwrite(buf, head, frame)[tail..head + |frame|] == buf[tail..head] + frame
  {
    var b := Overwrite(buf, head, frame);
    assert b[tail..head] == b[..head][tail..] == buf[..head][tail..] == buf[tail..head];
    assert b[tail..head + |frame|] == b[tail..head] + b[head..head + |frame|];
  }

  /** A frame that ends exactly at the ring end: fine if something below the tail is free, but with
      the tail at 0 the full ring looks empty. */
  lemma AppendFillsRing(crc: Checksum, st: RingState, log: seq<Entry>, ops: seq<MetadataOp>, st': RingState)
    requires Holds(crc, st, log) && |st.buf| < 0x1_0000_0000
    requires Appended(crc, st, ops, st')
    requires st.head + |EntryFrame(crc, NewEntry(st, ops))| == |st.buf|
    ensures Replay(crc, st') == if st.tail > 0 then Transactions(log + [NewEntry(st, ops)]) else []
  {
    hide Frame, FramesOf, SmallEntry, Place, Overwrite, Turn, DecodeFrame, Transactions;
    var e := NewEntry(st, ops);
    var frame, all := EntryFrame(crc, e), log + [e];
    NewEntrySmall(crc, st, ops);
    FrameLength(crc, e);
    PlaceCases(st, frame);
    FramesConcat(crc, log, [e]);
    OneFrame(crc, e);
    GrownBytes(st.buf, st.tail, st.head, frame);
    TurnInside(0, |st.buf|);
    TurnInside(st.tail, |st.buf|);
    if st.tail > 0 {
      ReplayWalk(crc, st'.buf, all, st.tail, |st.buf|, 0, 0);
    }
  }

  /** A wrap that drops the old log, or overwrites it from 0: only the newest transaction is left,
      and not even that one when it fills the whole ring. */
  lemma AppendRestartsLog(crc: Checksum, st: RingState, log: seq<Entry>, ops: seq<MetadataOp>, st': RingState)
    requires Holds(crc, st, log) && |st.buf| < 0x1_0000_0000
    requires Appended(crc, st, ops, st')
    requires var n := |EntryFrame(crc, NewEntry(st, ops))|;
             st.head + n > |st.buf| && (st.tail == 0 || n > st.tail)
    ensures |EntryFrame(crc, NewEntry(st, ops))| < |st.buf| ==> Holds(crc, st', [NewEntry(st, ops)])
    ensures Replay(crc, st') ==
              if |EntryFrame(crc, NewEntry(st, ops))| < |st.buf| then Transactions([NewEntry(st, ops)]) else []
  {
    hide Frame, FramesOf, SmallEntry, Place, Turn, DecodeFrame, Transactions;
    var e := NewEntry(st, ops);
    var frame := EntryFrame(crc, e);
    NewEntrySmall(crc, st, ops);
    FrameLength(crc, e);
    PlaceCases(st, frame);
    OneFrame(crc, e);
    TurnInside(0, |st.buf|);
    if |frame| < |st.buf| {
      assert st'.buf[0..|frame|] == frame;
      assert Holds(crc, st', [e]);
      ReplayIsLog(crc, st', [e]);
    }
  }

  /** A wrap that fits below the tail leaves no marker at the old head, so replay runs into whatever
      bytes lie there: the newest transaction is out of its sight. When the frame ends exactly at
      the tail the ring even looks empty. */
  lemma AppendHidesNewest(crc: Checksum, st: RingState, log: seq<Entry>, ops: seq<MetadataOp>, st': RingState)
    requires Holds(crc, st, log) && |st.buf| < 0x1_0000_0000
    requires Appended(crc, st, ops, st')
    requires var n := |EntryFrame(crc, NewEntry(st, ops))|;
             st.head + n > |st.buf| && n <= st.tail
    ensures var n := |EntryFrame(crc, NewEntry(st, ops))|;
            && |st'.buf| == |st.buf| && st'.buf[st.head..] == st.buf[st.head..]
            && Replay(crc, st') ==
               if n == st.tail then []
               else Transactions(log) + ReplayFrom(crc, st'.buf, st.head, n, st.head - st.tail)
  {
    hide Frame, FramesOf, SmallEntry, Place, Turn, DecodeFrame, Transactions, ReplayFrom, Overwrite, EntryFrame,
         Appended;
    var frame, ring := EntryFrame(crc, NewEntry(st, ops)), |st.buf|;
    WrapBelowTail(crc, st, ops, st');
    EmptyLog(crc);
    BytesAbove(st.buf, frame, st.tail, st.head);
    TurnInside(|frame|, ring); TurnInside(st.tail, ring); TurnInside(st.head, ring);
    if |frame| == st.tail {
      NothingToReplay(crc, st'.buf, st.tail, 0);
    } else if log != [] {
      ReplayWalk(crc, st'.buf, log, st.tail, st.head, |frame|, 0);
    } else {
      assert Transactions(log) == [];
    }
  }

  /** The ring after a wrap that fits below the tail. */
  lemma WrapBelowTail(crc: Checksum, st: RingState, ops: seq<MetadataOp>, st': RingState)
    requires 0 <= st.tail <= st.head < |st.buf| && Appended(crc, st, ops, st')
    requires var n := |EntryFrame(crc, NewEntry(st, ops))|; st.head + n > |st.buf| && n <= st.tail
    ensures var frame := EntryFrame(crc, NewEntry(st, ops));
            && st'.buf == Overwrite(st.buf, 0, frame) && |st'.buf| == |st.buf|
            && st'.head == |frame| && st'.tail == st.tail
  {
    hide Frame, Place, Overwrite;
    FrameLength(crc, NewEntry(st, ops));
    PlaceCases(st, EntryFrame(crc, NewEntry(st, ops)));
  }

  lemma NothingToReplay(crc: Checksum, buf: seq<byte>, cursor: nat, turned: nat)
    ensures ReplayFrom(crc, buf, cursor, cursor, turned) == []
  {
  }

  lemma BytesAbove(buf: seq<byte>, frame: seq<byte>, tail: nat, head: nat)
    requires |frame| <= tail <= head <= |buf|
    ensures var b := Overwrite(buf, 0, frame); b[tail..head] == buf[tail..head] && b[head..] == buf[head..]
  {
    var b := Overwrite(buf, 0, frame);
    assert b[head..] == b[|frame|..][head - |frame|..];
    assert b[tail..head] == b[|frame|..][tail - |frame|..head - |frame|];
  }

  /** The numeric test a caller could make before appending a frame of `n` bytes. */
  predicate KeepsLog(st: RingState, n: nat) {
    || st.head + n < |st.buf|
    || (st.head + n == |st.buf| && st.tail > 0)
    || (st.head + n > |st.buf| && n < |st.buf| && st.head == st.tail && (st.tail == 0 || st.tail < n))
  }

  lemma {:induction false} TransactionsLength(log: seq<Entry>)
    ensures |Transactions(log)| == |log|
  {
    hide Coalesced;
    if log != [] { TransactionsLength(log[1..]); }
  }

  lemma LogEmptyAt(crc: Checksum, st: RingState, log: seq<Entry>)
    requires Holds(crc, st, log)
    ensures st.head == st.tail <==> log == []
  {
    hide FramesOf;
    EmptyLog(crc);
    if log != [] { FramesNonEmpty(crc, log); }
  }

  /** After an append, replay yields the old log followed by the new transaction exactly when the
      numeric test holds (given that the bytes after the head do not pass for that transaction). */
  lemma AppendKeepsLogExactly(crc: Checksum, st: RingState, log: seq<Entry>, ops: seq<MetadataOp>, st': RingState)
    requires Holds(crc, st, log) && |st.buf| < 0x1_0000_0000
    requires Appended(crc, st, ops, st')
    requires DecodeFrame(crc, st.buf[st.head..]).Some? ==>
               DecodeFrame(crc, st.buf[st.head..]).value.0.txSeq != NextSeq(st.txSeq)
    ensures Replay(crc, st') == Transactions(log + [NewEntry(st, ops)]) <==>
            KeepsLog(st, |EntryFrame(crc, NewEntry(st, ops))|)
  {
    hide Frame, FramesOf, SmallEntry, Place, Turn, DecodeFrame, Coalesced, EntryFrame, Append, SmallLog;
    var e := NewEntry(st, ops);
    var n := |EntryFrame(crc, e)|;
    FrameLength(crc, e);
    AppendFits(crc, st, ops, st');
    TransactionsLength(log + [e]);
    TransactionsConcat(log, [e]);
    OneFrame(crc, e);
    LogEmptyAt(crc, st, log);
    if st.head + n < |st.buf| {
      AppendGrowsLog(crc, st, log, ops, st');
      ReplayIsLog(crc, st', log + [e]);
    } else if st.head + n == |st.buf| {
      AppendFillsRing(crc, st, log, ops, st');
    } else if st.tail == 0 || n > st.tail {
      AppendRestartsLog(crc, st, log, ops, st');
      if n < |st.buf| && log == [] { assert log + [e] == [e]; }
    } else {
      AppendHidesNewest(crc, st, log, ops, st');
      var tx, stale := Transaction(e.txSeq, Coalesced(ops)), ReplayFrom(crc, st'.buf, st.head, n, st.head - st.tail);
      HiddenDiffers(crc, st'.buf, st.buf, st.head, n, st.head - st.tail, tx);
      var kept := Transactions(log);
      assert (kept + stale)[|kept|..] == stale && (kept + [tx])[|kept|..] == [tx];
    }
  }

  lemma AppendFits(crc: Checksum, st: RingState, ops: seq<MetadataOp>, st': RingState)
    requires Appended(crc, st, ops, st')
    ensures |EntryFrame(crc, NewEntry(st, ops))| <= |st.buf|
  {
    hide Frame, Place;
  }

  lemma HiddenDiffers(crc: Checksum, buf: seq<byte>, buf0: seq<byte>, cursor: nat, head: nat, turned: nat,
                      tx: Transaction)
    requires cursor <= |buf| == |buf0| && buf[cursor..] == buf0[cursor..]
    requires DecodeFrame(crc, buf0[cursor..]).Some? ==> DecodeFrame(crc, buf0[cursor..]).value.0.txSeq != tx.txSeq
    ensures ReplayFrom(crc, buf, cursor, head, turned) != [tx]
  {
    hide DecodeFrame;
    var r := ReplayFrom(crc, buf, cursor, head, turned);
    if r != [] {
      assert r[0].txSeq != tx.txSeq;
    }
  }
}
