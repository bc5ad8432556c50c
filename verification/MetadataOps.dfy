/** Journal operations and their wire format (src/journal.rs, `MetadataOp`). */
module MetadataOps {
  import opened Bytes
  import opened LastWins

  const INODE_BYTES := 256

  type InodeBytes = s: seq<byte> | |s| == INODE_BYTES witness seq(INODE_BYTES, _ => 0)

  /** One absolute post-image write. */
  datatype MetadataOp =
    | SetInodeBitmap(inodeId: u64, used: bool)
    | SetDataBitmap(blockId: u64, used: bool)
    | SetDataBitmapRange(startBlock: u64, count: u32, used: bool)
    | WriteInode(inodeId: u64, inodeBytes: InodeBytes)
    | WriteBlockSlice(blockId: u64, offset: u32, data: seq<byte>)

  const OP_SET_INODE_BITMAP: byte := 1
  const OP_SET_DATA_BITMAP: byte := 2
  const OP_WRITE_INODE: byte := 3
  const OP_WRITE_BLOCK_SLICE: byte := 4
  const OP_SET_DATA_BITMAP_RANGE: byte := 5

  function Flag(b: bool): byte { if b then 1 else 0 }

  /** The slice length field is the low 32 bits of the length. */
  function Encode(op: MetadataOp): seq<byte> {
    match op
    case SetInodeBitmap(id, a) => [OP_SET_INODE_BITMAP] + LE64(id) + [Flag(a)]
    case SetDataBitmap(id, a) => [OP_SET_DATA_BITMAP] + LE64(id) + [Flag(a)]
    case SetDataBitmapRange(start, count, a) => [OP_SET_DATA_BITMAP_RANGE] + LE64(start) + LE32(count) + [Flag(a)]
    case WriteInode(id, bytes) => [OP_WRITE_INODE] + LE64(id) + bytes
    case WriteBlockSlice(id, off, data) =>
      [OP_WRITE_BLOCK_SLICE] + LE64(id) + LE32(off) + LE32(|data| % 0x1_0000_0000) + data
  }

  function EncodedSize(op: MetadataOp): nat {
    match op
    case SetInodeBitmap(_, _) => 10
    case SetDataBitmap(_, _) => 10
    case SetDataBitmapRange(_, _, _) => 14
    case WriteInode(_, _) => 9 + INODE_BYTES
    case WriteBlockSlice(_, _, data) => 17 + |data|
  }

  /** Decodes one operation and tells how many bytes it took. */
  function Decode(bytes: seq<byte>): (r: Option<(MetadataOp, nat)>)
    ensures r.Some? ==> 0 < r.value.1 <= |bytes| && r.value.1 == EncodedSize(r.value.0)
  {
    if bytes == [] then None
    else if bytes[0] == OP_SET_INODE_BITMAP then
      if |bytes| < 10 then None else Some((SetInodeBitmap(From64(bytes[1..9]), bytes[9] != 0), 10))
    else if bytes[0] == OP_SET_DATA_BITMAP then
      if |bytes| < 10 then None else Some((SetDataBitmap(From64(bytes[1..9]), bytes[9] != 0), 10))
    else if bytes[0] == OP_SET_DATA_BITMAP_RANGE then
      if |bytes| < 14 then None
      else Some((SetDataBitmapRange(From64(bytes[1..9]), From32(bytes[9..13]), bytes[13] != 0), 14))
    else if bytes[0] == OP_WRITE_INODE then
      if |bytes| < 9 + INODE_BYTES then None
      else Some((WriteInode(From64(bytes[1..9]), bytes[9..9 + INODE_BYTES]), 9 + INODE_BYTES))
    else if bytes[0] == OP_WRITE_BLOCK_SLICE then
      if |bytes| < 17 then None
      else
        var len := From32(bytes[13..17]);
        if |bytes| < 17 + len then None
        else Some((WriteBlockSlice(From64(bytes[1..9]), From32(bytes[9..13]), bytes[17..17 + len]), 17 + len))
    else None
  }

  /** The length field of a slice can hold its length. */
  predicate Encodable(op: MetadataOp) {
    op.WriteBlockSlice? ==> |op.data| < 0x1_0000_0000
  }

  lemma EncodeSize(op: MetadataOp)
    ensures |Encode(op)| == EncodedSize(op)
  {
    hide LE, From64, From32;
  }

  /** An encoded operation decodes to itself whatever follows it. */
  lemma DecodeEncode(op: MetadataOp, rest: seq<byte>)
    requires Encodable(op)
    ensures Decode(Encode(op) + rest) == Some((op, |Encode(op)|))
  {
    hide LE64, LE32, From64, From32;
    match op
    case SetInodeBitmap(id, a) => DecodeInodeBit(id, a, rest);
    case SetDataBitmap(id, a) => DecodeDataBit(id, a, rest);
    case SetDataBitmapRange(start, count, a) => DecodeRange(start, count, a, rest);
    case WriteInode(id, data) => DecodeInode(id, data, rest);
    case WriteBlockSlice(id, off, data) => DecodeSlice(id, off, data, rest);
  }

  lemma DecodeInodeBit(id: u64, a: bool, rest: seq<byte>)
    ensures Decode(Encode(SetInodeBitmap(id, a)) + rest) == Some((SetInodeBitmap(id, a), 10))
    ensures |Encode(SetInodeBitmap(id, a))| == 10
  {
    hide LE64, From64;
    RoundTrip64(id);
    var s := Encode(SetInodeBitmap(id, a)) + rest;
    assert s[0] == OP_SET_INODE_BITMAP && s[1..9] == LE64(id) && s[9] == Flag(a);
  }

  lemma DecodeDataBit(id: u64, a: bool, rest: seq<byte>)
    ensures Decode(Encode(SetDataBitmap(id, a)) + rest) == Some((SetDataBitmap(id, a), 10))
    ensures |Encode(SetDataBitmap(id, a))| == 10
  {
    hide LE64, From64;
    RoundTrip64(id);
    var s := Encode(SetDataBitmap(id, a)) + rest;
    assert s[0] == OP_SET_DATA_BITMAP && s[1..9] == LE64(id) && s[9] == Flag(a);
  }

  lemma DecodeRange(start: u64, count: u32, a: bool, rest: seq<byte>)
    ensures Decode(Encode(SetDataBitmapRange(start, count, a)) + rest) ==
            Some((SetDataBitmapRange(start, count, a), 14))
    ensures |Encode(SetDataBitmapRange(start, count, a))| == 14
  {
    hide LE64, LE32, From64, From32;
    RoundTrip64(start);
    RoundTrip32(count);
    var s := Encode(SetDataBitmapRange(start, count, a)) + rest;
    assert s[0] == OP_SET_DATA_BITMAP_RANGE && s[1..9] == LE64(start) && s[9..13] == LE32(count) && s[13] == Flag(a);
  }

  lemma DecodeInode(id: u64, data: InodeBytes, rest: seq<byte>)
    ensures Decode(Encode(WriteInode(id, data)) + rest) == Some((WriteInode(id, data), 9 + INODE_BYTES))
    ensures |Encode(WriteInode(id, data))| == 9 + INODE_BYTES
  {
    hide LE64, From64;
    RoundTrip64(id);
    var s := Encode(WriteInode(id, data)) + rest;
    assert s[0] == OP_WRITE_INODE && s[1..9] == LE64(id) && s[9..9 + INODE_BYTES] == data;
  }

  lemma DecodeSlice(id: u64, off: u32, data: seq<byte>, rest: seq<byte>)
    requires |data| < 0x1_0000_0000
    ensures Decode(Encode(WriteBlockSlice(id, off, data)) + rest) == Some((WriteBlockSlice(id, off, data), 17 + |data|))
    ensures |Encode(WriteBlockSlice(id, off, data))| == 17 + |data|
  {
    hide LE64, LE32, From64, From32;
    RoundTrip64(id);
    RoundTrip32(off);
    RoundTrip32(|data|);
    var s := Encode(WriteBlockSlice(id, off, data)) + rest;
    assert s[0] == OP_WRITE_BLOCK_SLICE && s[1..9] == LE64(id) && s[9..13] == LE32(off) && s[13..17] == LE32(|data|)
        && s[17..17 + |data|] == data;
  }

  // ---------------------------------------------------------------------------
  // Operation lists
  // ---------------------------------------------------------------------------

  ghost function EncodeOps(ops: seq<MetadataOp>): seq<byte> {
    if ops == [] then [] else Encode(ops[0]) + EncodeOps(ops[1..])
  }

  ghost function DecodeAll(bytes: seq<byte>): Option<seq<MetadataOp>>
    decreases |bytes|
  {
    if bytes == [] then Some([])
    else match Decode(bytes)
      case None => None
      case Some((op, n)) =>
        match DecodeAll(bytes[n..])
        case None => None
        case Some(ops) => Some([op] + ops)
  }

  ghost predicate AllEncodable(ops: seq<MetadataOp>) {
    forall i :: 0 <= i < |ops| ==> Encodable(ops[i])
  }

  lemma {:induction false} DecodeEncodeAll(ops: seq<MetadataOp>)
    requires AllEncodable(ops)
    ensures DecodeAll(EncodeOps(ops)) == Some(ops)
  {
    hide Encode, Decode;
    if ops != [] {
      var s, rest := EncodeOps(ops), EncodeOps(ops[1..]);
      DecodeEncode(ops[0], rest);
      EncodeSize(ops[0]);
      assert s[|Encode(ops[0])|..] == rest;
      DecodeEncodeAll(ops[1..]);
      assert [ops[0]] + ops[1..] == ops;
      SizePositive(ops[0]);
    }
  }

  lemma SizePositive(op: MetadataOp)
    ensures EncodedSize(op) > 0
  {
  }

  lemma {:induction false} EncodeOpsSnoc(ops: seq<MetadataOp>, op: MetadataOp)
    ensures EncodeOps(ops + [op]) == EncodeOps(ops) + Encode(op)
  {
    hide Encode;
    if ops == [] {
      assert [op][1..] == [];
    } else {
      assert (ops + [op])[1..] == ops[1..] + [op];
      EncodeOpsSnoc(ops[1..], op);
    }
  }

  method EncodeList(ops: seq<MetadataOp>) returns (out: seq<byte>)
    ensures out == EncodeOps(ops)
  {
    out := [];
    for i := 0 to |ops|
      invariant out == EncodeOps(ops[..i])
    {
      assert ops[..i + 1] == ops[..i] + [ops[i]];
      EncodeOpsSnoc(ops[..i], ops[i]);
      out := out + Encode(ops[i]);
    }
    assert ops[..|ops|] == ops;
  }

  /** `decode_all`: consumes the whole payload or fails. */
  method DecodeList(bytes: seq<byte>) returns (r: Option<seq<MetadataOp>>)
    ensures r == DecodeAll(bytes)
  {
    hide Decode;
    var rest: seq<byte>, ops: seq<MetadataOp> := bytes, [];
    assert DecodeAll(bytes).Some? ==> [] + DecodeAll(bytes).value == DecodeAll(bytes).value;
    while rest != []
      invariant DecodeAll(bytes) == match DecodeAll(rest) { case None => None case Some(tail) => Some(ops + tail) }
      decreases |rest|
    {
      match Decode(rest) {
        case None => return None;
        case Some((op, n)) =>
          ghost var tail := DecodeAll(rest[n..]);
          assert tail.Some? ==> ops + ([op] + tail.value) == ops + [op] + tail.value;
          rest := rest[n..];
          ops := ops + [op];
      }
    }
    assert ops + [] == ops;
    return Some(ops);
  }
}
