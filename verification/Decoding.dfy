/** What the decoders of the journal believe (src/journal.rs): an operation, a list, a frame or a header
    is read exactly where its own encoding stands, except that a flag may be any byte but 0. */
module Decoding {
  import opened Bytes
  import opened LastWins
  import opened MetadataOps
  import opened Frames
  import opened Ring

  /** `bytes` begin with `code`, the flag at `flag` aside. */
  predicate Reads(bytes: seq<byte>, code: seq<byte>, flag: int) {
    && |code| <= |bytes|
    && forall i :: 0 <= i < |code| ==> bytes[i] == code[i] || (i == flag && code[i] == 1 && bytes[i] != 0)
  }

  function FlagAt(op: MetadataOp): int {
    match op
    case SetInodeBitmap(_, _) => 9
    case SetDataBitmap(_, _) => 9
    case SetDataBitmapRange(_, _, _) => 13
    case _ => -1
  }

  lemma Back64(s: seq<byte>)
    requires |s| == 8
    ensures LE64(From64(s)) == s
  {
    FromLERoundTrip(s);
  }

  lemma Back32(s: seq<byte>)
    requires |s| == 4
    ensures LE32(From32(s)) == s
  {
    FromLERoundTrip(s);
  }

  /** A field is read exactly where its code stands. */
  lemma Field64(s: seq<byte>, v: u64)
    requires |s| == 8
    ensures From64(s) == v <==> s == LE64(v)
  {
    hide From64, LE64;
    Back64(s);
    RoundTrip64(v);
  }

  lemma Field32(s: seq<byte>, v: u32)
    requires |s| == 4
    ensures From32(s) == v <==> s == LE32(v)
  {
    hide From32, LE32;
    Back32(s);
    RoundTrip32(v);
  }

  // ---------------------------------------------------------------------------
  // Operations
  // ---------------------------------------------------------------------------

  lemma OpDecodesExactly(bytes: seq<byte>, op: MetadataOp)
    ensures Decode(bytes) == Some((op, |Encode(op)|)) <==> Encodable(op) && Reads(bytes, Encode(op), FlagAt(op))
  {
    hide Encode, Decode;
    match op
    case SetInodeBitmap(id, a) => InodeBitExactly(bytes, id, a);
    case SetDataBitmap(id, a) => DataBitExactly(bytes, id, a);
    case SetDataBitmapRange(start, count, a) => RangeExactly(bytes, start, count, a);
    case WriteInode(id, data) => InodeExactly(bytes, id, data);
    case WriteBlockSlice(id, off, data) => SliceExactly(bytes, id, off, data);
  }

  lemma InodeBitExactly(bytes: seq<byte>, id: u64, a: bool)
    ensures Decode(bytes) == Some((SetInodeBitmap(id, a), |Encode(SetInodeBitmap(id, a))|)) <==>
            Reads(bytes, Encode(SetInodeBitmap(id, a)), 9)
  {
    hide LE, From64;
    var code := Encode(SetInodeBitmap(id, a));
    if |bytes| >= 10 {
      Field64(bytes[1..9], id);
      assert code[1..9] == LE64(id);
      SameWindow(bytes, code, 9, 1, 9);
    }
  }

  lemma DataBitExactly(bytes: seq<byte>, id: u64, a: bool)
    ensures Decode(bytes) == Some((SetDataBitmap(id, a), |Encode(SetDataBitmap(id, a))|)) <==>
            Reads(bytes, Encode(SetDataBitmap(id, a)), 9)
  {
    hide LE, From64;
    var code := Encode(SetDataBitmap(id, a));
    if |bytes| >= 10 {
      Field64(bytes[1..9], id);
      assert code[1..9] == LE64(id);
      SameWindow(bytes, code, 9, 1, 9);
    }
  }

  lemma RangeExactly(bytes: seq<byte>, start: u64, count: u32, a: bool)
    ensures Decode(bytes) == Some((SetDataBitmapRange(start, count, a), |Encode(SetDataBitmapRange(start, count, a))|))
            <==> Reads(bytes, Encode(SetDataBitmapRange(start, count, a)), 13)
  {
    hide LE, From64, From32;
    var code := Encode(SetDataBitmapRange(start, count, a));
    if |bytes| >= 14 {
      Field64(bytes[1..9], start);
      Field32(bytes[9..13], count);
      assert code[1..9] == LE64(start) && code[9..13] == LE32(count);
      SameWindow(bytes, code, 13, 1, 9);
      SameWindow(bytes, code, 13, 9, 13);
    }
  }

  lemma InodeExactly(bytes: seq<byte>, id: u64, data: InodeBytes)
    ensures Decode(bytes) == Some((WriteInode(id, data), |Encode(WriteInode(id, data))|)) <==>
            Reads(bytes, Encode(WriteInode(id, data)), -1)
  {
    hide LE, From64;
    var code := Encode(WriteInode(id, data));
    var n := 9 + INODE_BYTES;
    if |bytes| >= n {
      Field64(bytes[1..9], id);
      assert code[1..9] == LE64(id) && code[9..n] == data;
      SameWindow(bytes, code, -1, 1, 9);
      SameWindow(bytes, code, -1, 9, n);
    }
  }

  lemma SliceExactly(bytes: seq<byte>, id: u64, off: u32, data: seq<byte>)
    ensures Decode(bytes) == Some((WriteBlockSlice(id, off, data), |Encode(WriteBlockSlice(id, off, data))|)) <==>
            |data| < 0x1_0000_0000 && Reads(bytes, Encode(WriteBlockSlice(id, off, data)), -1)
  {
    hide LE, From64, From32;
    var code, n := Encode(WriteBlockSlice(id, off, data)), 17 + |data|;
    if |bytes| >= n {
      Field64(bytes[1..9], id);
      Field32(bytes[9..13], off);
      Field32(bytes[13..17], |data| % 0x1_0000_0000);
      assert code[1..9] == LE64(id) && code[9..13] == LE32(off) && code[13..17] == LE32(|data| % 0x1_0000_0000);
      assert code[17..n] == data;
      SameWindow(bytes, code, -1, 1, 9);
      SameWindow(bytes, code, -1, 9, 13);
      SameWindow(bytes, code, -1, 13, 17);
      SameWindow(bytes, code, -1, 17, n);
    }
  }

  /** Away from the flag, reading is equality. */
  lemma SameWindow(bytes: seq<byte>, code: seq<byte>, flag: int, lo: nat, hi: nat)
    requires lo <= hi <= |code| <= |bytes| && !(lo <= flag < hi)
    ensures bytes[lo..hi] == code[lo..hi] <==> forall i :: lo <= i < hi ==> bytes[i] == code[i]
    ensures Reads(bytes, code, flag) ==> bytes[lo..hi] == code[lo..hi]
  {
    forall i | lo <= i < hi ensures bytes[i] == bytes[lo..hi][i - lo] && code[i] == code[lo..hi][i - lo] {}
  }

  /** The codes of the operations, one after the other, and nothing else. */
  ghost predicate ReadsAll(bytes: seq<byte>, ops: seq<MetadataOp>)
    decreases |ops|
  {
    if ops == [] then bytes == []
    else
      && Encodable(ops[0]) && Reads(bytes, Encode(ops[0]), FlagAt(ops[0]))
      && ReadsAll(bytes[|Encode(ops[0])|..], ops[1..])
  }

  lemma {:induction false} ListDecodesExactly(bytes: seq<byte>, ops: seq<MetadataOp>)
    ensures DecodeAll(bytes) == Some(ops) <==> ReadsAll(bytes, ops)
    decreases |bytes|
  {
    hide Encode, Decode, Reads, FlagAt;
    if bytes == [] {
      if ops != [] { NotNothing(ops[0], FlagAt(ops[0])); }
    } else if ops != [] {
      OpDecodesExactly(bytes, ops[0]);
      EncodeSize(ops[0]);
      if Decode(bytes) == Some((ops[0], |Encode(ops[0])|)) {
        ListDecodesExactly(bytes[|Encode(ops[0])|..], ops[1..]);
        assert [ops[0]] + ops[1..] == ops;
      }
    }
  }

  lemma NotNothing(op: MetadataOp, flag: int)
    ensures !Reads([], Encode(op), flag)
  {
    EncodeSize(op);
  }

  // ---------------------------------------------------------------------------
  // Frames
  // ---------------------------------------------------------------------------

  /** The first `n` bytes are the frame of `payload`, checksum and marker included. */
  ghost predicate BeginsFrame(crc: Checksum, bytes: seq<byte>, txSeq: u64, payload: seq<byte>, n: nat) {
    && |payload| < 0x1_0000_0000 && n == TX_HEADER_LEN + |payload| + 4 <= |bytes|
    && bytes[..n] == FrameOf(crc, txSeq, payload)
  }

  /** A frame is believed exactly if it is one, and its payload a list of operations. */
  lemma FrameDecodesExactly(crc: Checksum, bytes: seq<byte>, txSeq: u64, ops: seq<MetadataOp>, n: nat)
    ensures DecodeFrame(crc, bytes) == Some((Transaction(txSeq, ops), n)) <==>
            exists payload :: BeginsFrame(crc, bytes, txSeq, payload, n) && ReadsAll(payload, ops)
  {
    hide DecodeAll, From32, From64, FrameOf, ReadsAll;
    if DecodeFrame(crc, bytes) == Some((Transaction(txSeq, ops), n)) {
      var payload := bytes[TX_HEADER_LEN..n - 4];
      assert payload == bytes[TX_HEADER_LEN..TX_HEADER_LEN + From32(bytes[12..16])];
      ListDecodesExactly(payload, ops);
      FieldsAreFrame(crc, bytes, txSeq, payload);
    }
    if payload :| BeginsFrame(crc, bytes, txSeq, payload, n) && ReadsAll(payload, ops) {
      ListDecodesExactly(payload, ops);
      FrameParts(crc, txSeq, payload, bytes[n..]);
      assert FrameOf(crc, txSeq, payload) + bytes[n..] == bytes;
      RoundTrip32(TX_MAGIC); RoundTrip64(txSeq); RoundTrip32(|payload|);
      RoundTrip32(crc(txSeq, |payload|, payload)); RoundTrip32(TX_COMMIT_MARKER);
    }
  }

  lemma FieldsAreFrame(crc: Checksum, bytes: seq<byte>, txSeq: u64, payload: seq<byte>)
    requires |payload| < 0x1_0000_0000 && TX_HEADER_LEN + |payload| + 4 <= |bytes|
    requires From32(bytes[0..4]) == TX_MAGIC && From64(bytes[4..12]) == txSeq && From32(bytes[12..16]) == |payload|
    requires From32(bytes[16..20]) == crc(txSeq, |payload|, payload)
    requires var n := TX_HEADER_LEN + |payload|;
             bytes[TX_HEADER_LEN..n] == payload && From32(bytes[n..n + 4]) == TX_COMMIT_MARKER
    ensures bytes[..TX_HEADER_LEN + |payload| + 4] == FrameOf(crc, txSeq, payload)
  {
    hide LE, From32, From64;
    var n := TX_HEADER_LEN + |payload|;
    Field32(bytes[0..4], TX_MAGIC);
    Field64(bytes[4..12], txSeq);
    Field32(bytes[12..16], |payload|);
    Field32(bytes[16..20], crc(txSeq, |payload|, payload));
    Field32(bytes[n..n + 4], TX_COMMIT_MARKER);
    assert bytes[..n + 4] ==
           bytes[0..4] + bytes[4..12] + bytes[12..16] + bytes[16..20] + bytes[TX_HEADER_LEN..n] + bytes[n..n + 4];
  }

  // ---------------------------------------------------------------------------
  // The header
  // ---------------------------------------------------------------------------

  /** A header is read exactly where its code stands; its last three bytes are padding. */
  lemma HeaderDecodesExactly(bytes: seq<byte>, h: Header)
    ensures DecodeHeader(bytes) == Some(h) <==>
            |bytes| >= JOURNAL_HEADER_LEN && Reads(bytes, EncodeHeader(h)[..37], 36)
  {
    hide LE, From32, From64;
    var code := EncodeHeader(h)[..37];
    if |bytes| >= JOURNAL_HEADER_LEN {
      Field32(bytes[0..4], JOURNAL_HEADER_MAGIC);
      Field32(bytes[4..8], JOURNAL_FORMAT_VERSION);
      Field32(bytes[8..12], JOURNAL_RING_BLOCKS);
      Field64(bytes[12..20], h.head);
      Field64(bytes[20..28], h.tail);
      Field64(bytes[28..36], h.txSeq);
      assert code[0..4] == LE32(JOURNAL_HEADER_MAGIC) && code[4..8] == LE32(JOURNAL_FORMAT_VERSION);
      assert code[8..12] == LE32(JOURNAL_RING_BLOCKS) && code[12..20] == LE64(h.head);
      assert code[20..28] == LE64(h.tail) && code[28..36] == LE64(h.txSeq) && code[36] == Flag(h.clean);
      SameWindow(bytes, code, 36, 0, 4);
      SameWindow(bytes, code, 36, 4, 8);
      SameWindow(bytes, code, 36, 8, 12);
      SameWindow(bytes, code, 36, 12, 20);
      SameWindow(bytes, code, 36, 20, 28);
      SameWindow(bytes, code, 36, 28, 36);
    }
  }
}
