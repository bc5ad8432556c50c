/** Chunk payloads (src/disk.rs, `prepare_chunk_payload`, `read_single_chunk_decompressed`), without
    encryption. */
module ChunkCodec {
  import opened Sizes
  import opened Bytes
  import opened LastWins
  import opened PointerTree
  import opened ChunkTree
  import opened ChunkStore

  const CHUNK_SIZE := 65536

  /** The compressor, as two functions. */
  datatype Codec = Codec(compress: seq<byte> -> seq<byte>, decompress: seq<byte> -> Option<seq<byte>>)

  ghost predicate Lawful(c: Codec) {
    forall x :: |x| <= CHUNK_SIZE ==> |c.compress(x)| > 0 && c.decompress(c.compress(x)) == Some(x)
  }

  /** `resize`/`truncate`: cut, or filled up with zeros. */
  function Resize(s: seq<byte>, n: nat): (r: seq<byte>)
    ensures |r| == n && forall i :: 0 <= i < n ==> r[i] == if i < |s| then s[i] else 0
  {
    if n <= |s| then s[..n] else s + Zeros(n - |s|)
  }

  /** The bytes of `n` consecutive blocks. */
  function RunBytes(blocks: Blocks, start: nat, n: nat): (r: seq<byte>)
    requires start + n <= |blocks|
    ensures |r| == BLOCK_SIZE * n
  {
    if n == 0 then [] else RunBytes(blocks, start, n - 1) + blocks[start + n - 1]
  }

  lemma {:induction false} RunBytesAt(blocks: Blocks, start: nat, n: nat, i: nat)
    requires start + n <= |blocks| && i < BLOCK_SIZE * n
    ensures RunBytes(blocks, start, n)[i] == blocks[start + i / BLOCK_SIZE][i % BLOCK_SIZE]
  {
    if i < BLOCK_SIZE * (n - 1) {
      RunBytesAt(blocks, start, n - 1, i);
    } else {
      assert i / BLOCK_SIZE == n - 1 && i % BLOCK_SIZE == i - BLOCK_SIZE * (n - 1);
    }
  }

  lemma RunPrefix(blocks: Blocks, start: nat, m: nat, n: nat)
    requires m <= n && start + n <= |blocks|
    ensures RunBytes(blocks, start, m) == RunBytes(blocks, start, n)[..BLOCK_SIZE * m]
  {
    hide RunBytes;
    forall i | 0 <= i < BLOCK_SIZE * m ensures RunBytes(blocks, start, m)[i] == RunBytes(blocks, start, n)[i] {
      RunBytesAt(blocks, start, m, i);
      RunBytesAt(blocks, start, n, i);
    }
  }

  lemma {:induction false} SameRun(blocks: Blocks, blocks': Blocks, start: nat, n: nat)
    requires start + n <= |blocks| == |blocks'| && forall b :: start <= b < start + n ==> blocks'[b] == blocks[b]
    ensures RunBytes(blocks', start, n) == RunBytes(blocks, start, n)
  {
    if n > 0 { SameRun(blocks, blocks', start, n - 1); }
  }

  // ---------------------------------------------------------------------------
  // Reading
  // ---------------------------------------------------------------------------

  function Copied(blocks: Blocks, start: nat, len: nat): Option<seq<byte>> {
    if start + DivCeil(len) <= |blocks| then Some(RunBytes(blocks, start, DivCeil(len))[..len]) else None
  }

  /** `read_single_chunk_decompressed`: the first `valid` bytes of the chunk with entry `e`. */
  function ReadEntry(c: Codec, blocks: Blocks, e: nat, valid: nat): (r: Option<seq<byte>>)
    ensures r.Some? ==> |r.value| == valid
  {
    if EntryIsEmpty(e) then Some(Zeros(valid))
    else if EntryFlags(e) == FLAG_RAW then
      (match Copied(blocks, EntryStart(e), Min(valid, EntryCount(e) * BLOCK_SIZE))
       case None => None
       case Some(bytes) => Some(Resize(bytes, valid)))
    else if EntryFlags(e) == FLAG_COMPRESSED then
      (match Copied(blocks, EntryStart(e), Min(EntryLen(e), EntryCount(e) * BLOCK_SIZE))
       case None => None
       case Some(frame) =>
         match c.decompress(frame)
         case None => None
         case Some(bytes) => Some(Resize(bytes, valid)))
    else Some(Zeros(valid))
  }

  predicate Readable(c: Codec, blocks: Blocks, e: nat) {
    ReadEntry(c, blocks, e, CHUNK_SIZE).Some?
  }

  /** The whole chunk: its stored bytes, then zeros. */
  function Whole(c: Codec, blocks: Blocks, e: nat): (r: seq<byte>)
    requires Readable(c, blocks, e)
    ensures |r| == CHUNK_SIZE
  {
    ReadEntry(c, blocks, e, CHUNK_SIZE).value
  }

  /** A shorter read is a prefix of the whole chunk. */
  lemma ReadIsPrefix(c: Codec, blocks: Blocks, e: nat, valid: nat)
    requires Readable(c, blocks, e) && valid <= CHUNK_SIZE
    ensures ReadEntry(c, blocks, e, valid) == Some(Whole(c, blocks, e)[..valid])
  {
    hide RunBytes;
    if !EntryIsEmpty(e) && EntryFlags(e) == FLAG_RAW {
      var size := EntryCount(e) * BLOCK_SIZE;
      var a, b := Min(valid, size), Min(CHUNK_SIZE, size);
      DivCeilMono(a, b);
      RunPrefix(blocks, EntryStart(e), DivCeil(a), DivCeil(b));
      assert Copied(blocks, EntryStart(e), a).value == Copied(blocks, EntryStart(e), b).value[..a];
      assert Resize(Copied(blocks, EntryStart(e), a).value, valid) ==
             Resize(Copied(blocks, EntryStart(e), b).value, CHUNK_SIZE)[..valid];
    } else if !EntryIsEmpty(e) && EntryFlags(e) == FLAG_COMPRESSED {
      var len := Min(EntryLen(e), EntryCount(e) * BLOCK_SIZE);
      var bytes := c.decompress(Copied(blocks, EntryStart(e), len).value).value;
      assert Resize(bytes, valid) == Resize(bytes, CHUNK_SIZE)[..valid];
    } else {
      assert Zeros(valid) == Zeros(CHUNK_SIZE)[..valid];
    }
  }

  lemma DivCeilMono(a: nat, b: nat)
    requires a <= b
    ensures DivCeil(a) <= DivCeil(b) && b <= DivCeil(b) * BLOCK_SIZE
  {
  }

  /** A chunk's content depends only on the blocks of its run. */
  lemma SameWhole(c: Codec, blocks: Blocks, blocks': Blocks, e: nat)
    requires |blocks'| == |blocks| && Readable(c, blocks, e)
    requires forall b: nat :: EntryHas(e, b) && b < |blocks| ==> blocks'[b] == blocks[b]
    ensures Readable(c, blocks', e) && Whole(c, blocks', e) == Whole(c, blocks, e)
  {
    hide RunBytes;
    if !EntryIsEmpty(e) {
      var start, size := EntryStart(e), EntryCount(e) * BLOCK_SIZE;
      if EntryFlags(e) == FLAG_RAW {
        SameCopied(blocks, blocks', e, Min(CHUNK_SIZE, size));
      } else if EntryFlags(e) == FLAG_COMPRESSED {
        SameCopied(blocks, blocks', e, Min(EntryLen(e), size));
      }
    }
  }

  lemma SameCopied(blocks: Blocks, blocks': Blocks, e: nat, len: nat)
    requires |blocks'| == |blocks| && !EntryIsEmpty(e) && len <= EntryCount(e) * BLOCK_SIZE
    requires forall b: nat :: EntryHas(e, b) && b < |blocks| ==> blocks'[b] == blocks[b]
    ensures Copied(blocks', EntryStart(e), len) == Copied(blocks, EntryStart(e), len)
  {
    hide RunBytes, EntryStart, EntryCount, EntryIsEmpty;
    if EntryStart(e) + DivCeil(len) <= |blocks| {
      DivCeilMono(len, EntryCount(e) * BLOCK_SIZE);
      SameRun(blocks, blocks', EntryStart(e), DivCeil(len));
    }
  }

  // ---------------------------------------------------------------------------
  // Writing
  // ---------------------------------------------------------------------------

  datatype Prepared = Prepared(payload: seq<byte>, flag: nat, len: nat, count: nat)

  /** `prepare_chunk_payload`: compressed if that is shorter, else as it is; the length field keeps 16
      bits, so a raw chunk of 65536 bytes has length 0. */
  function Prepare(c: Codec, buf: seq<byte>): (p: Prepared)
    requires 0 < |buf| <= CHUNK_SIZE
    ensures p.flag < 256 && p.len < 0x1_0000
  {
    var z := c.compress(buf);
    if |z| < |buf| && |z| < 65536 then Prepared(z, FLAG_COMPRESSED, |z|, DivCeil(|z|))
    else Prepared(buf, FLAG_RAW, |buf| % 0x1_0000, DivCeil(|buf|))
  }

  /** The payload is the shorter of the chunk and its compressed form, the chunk if they are equally long, in
      as few blocks as it takes. */
  lemma PreparedIsShorter(c: Codec, buf: seq<byte>)
    requires 0 < |buf| <= CHUNK_SIZE
    ensures var p, z := Prepare(c, buf), c.compress(buf);
            && |p.payload| == Min(|z|, |buf|) && p.len == |p.payload| % 0x1_0000
            && (p.count - 1) * BLOCK_SIZE < |p.payload| <= p.count * BLOCK_SIZE
            && (if |z| < |buf| then p.payload == z && p.flag == FLAG_COMPRESSED
                else p.payload == buf && p.flag == FLAG_RAW)
  {
  }

  /** A payload that fills its run up to the last block, with fields that fit an entry. */
  predicate Fits(p: Prepared) {
    && 0 < p.count <= 16 && (p.count - 1) * BLOCK_SIZE < |p.payload| <= p.count * BLOCK_SIZE
    && (p.flag == FLAG_RAW || p.flag == FLAG_COMPRESSED) && p.len < 0x1_0000
  }

  lemma PreparedFits(c: Codec, buf: seq<byte>)
    requires Lawful(c) && 0 < |buf| <= CHUNK_SIZE
    ensures Fits(Prepare(c, buf))
  {
  }

  /** The entry for the payload `p` at `start`. */
  function EntryFor(start: nat, p: Prepared): u64
    requires start < MAX_BLOCKS && Fits(p)
  {
    PackIsU64(start, p.count, p.flag, p.len);
    PackEntry(start, p.count, p.flag, p.len)
  }

  lemma PackIsU64(start: nat, count: nat, flags: nat, len: nat)
    requires start < MAX_BLOCKS && count < 256 && flags < 256 && len < 0x1_0000
    ensures PackEntry(start, count, flags, len) < 0x1_0000_0000_0000_0000
  {
  }

  lemma EntryForIs(start: nat, p: Prepared)
    requires start < MAX_BLOCKS && Fits(p)
    ensures var e := EntryFor(start, p);
            && EntryStart(e) == start && EntryCount(e) == p.count && EntryFlags(e) == p.flag && EntryLen(e) == p.len
            && !EntryIsEmpty(e)
  {
    hide PackEntry, EntryStart, EntryCount, EntryLen, EntryFlags, EntryIsEmpty;
    EntryRoundTrip(start, p.count, p.flag, p.len);
  }

  /** The run of `p` at `start` holds the payload and then zeros. */
  ghost predicate Laid(blocks: Blocks, start: nat, p: Prepared) {
    && start + p.count <= |blocks| && |p.payload| <= BLOCK_SIZE * p.count
    && RunBytes(blocks, start, p.count) == p.payload + Zeros(BLOCK_SIZE * p.count - |p.payload|)
  }

  /** What was prepared from `buf` reads back as `buf`, filled up with zeros. */
  lemma PreparedReadsBack(c: Codec, buf: seq<byte>, blocks: Blocks, start: nat)
    requires Lawful(c) && 0 < |buf| <= CHUNK_SIZE && start < MAX_BLOCKS && Laid(blocks, start, Prepare(c, buf))
    requires Fits(Prepare(c, buf))
    ensures var e := EntryFor(start, Prepare(c, buf));
            Readable(c, blocks, e) && Whole(c, blocks, e) == Resize(buf, CHUNK_SIZE)
  {
    hide RunBytes, EntryFor, EntryStart, EntryCount, EntryLen, EntryFlags, EntryIsEmpty;
    var p := Prepare(c, buf);
    EntryForIs(start, p);
    if p.flag == FLAG_RAW {
      RawReadsBack(blocks, start, p);
    } else {
      CompressedReadsBack(blocks, start, p);
    }
  }

  /** An entry whose run leaves the image does not read, whatever the blocks hold. */
  lemma OutsideUnreadable(c: Codec, buf: seq<byte>, blocks: Blocks, start: nat)
    requires 0 < |buf| <= CHUNK_SIZE && start < MAX_BLOCKS && Fits(Prepare(c, buf))
    requires start + Prepare(c, buf).count > |blocks|
    ensures forall valid :: valid >= |buf| ==> ReadEntry(c, blocks, EntryFor(start, Prepare(c, buf)), valid).None?
  {
    hide RunBytes, EntryFor, EntryStart, EntryCount, EntryLen, EntryFlags, EntryIsEmpty;
    var p := Prepare(c, buf);
    EntryForIs(start, p);
    if p.flag == FLAG_RAW {
      assert forall valid :: valid >= |buf| ==> DivCeil(Min(valid, p.count * BLOCK_SIZE)) == p.count;
    } else {
      assert Min(p.len, p.count * BLOCK_SIZE) == p.len && DivCeil(p.len) == p.count;
    }
  }

  lemma RawReadsBack(blocks: Blocks, start: nat, p: Prepared)
    requires Laid(blocks, start, p) && 0 < p.count <= 16 && |p.payload| <= CHUNK_SIZE
    ensures var bytes := Copied(blocks, start, Min(CHUNK_SIZE, p.count * BLOCK_SIZE));
            bytes.Some? && Resize(bytes.value, CHUNK_SIZE) == Resize(p.payload, CHUNK_SIZE)
  {
    hide RunBytes;
    assert DivCeil(p.count * BLOCK_SIZE) == p.count;
    var bytes := Copied(blocks, start, p.count * BLOCK_SIZE).value;
    assert bytes == p.payload + Zeros(BLOCK_SIZE * p.count - |p.payload|);
  }

  lemma CompressedReadsBack(blocks: Blocks, start: nat, p: Prepared)
    requires Laid(blocks, start, p) && p.count == DivCeil(|p.payload|)
    ensures Copied(blocks, start, Min(|p.payload|, p.count * BLOCK_SIZE)) == Some(p.payload)
  {
    hide RunBytes;
    DivCeilMono(|p.payload|, |p.payload|);
  }
}
