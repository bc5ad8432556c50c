/** Seekable 64 KiB chunked files (src/disk.rs): whole and positional reads, and writes as splices. */
module ChunkFile {
  import opened Sizes
  import opened Bytes
  import opened LastWins
  import opened PointerTree
  import opened TreePositions
  import opened ChunkTree
  import opened ChunkStore
  import opened ChunkEntries
  import opened ChunkCodec
  import opened ChunkCommit
  import opened ChunkRuns

  function NumChunks(size: nat): nat {
    (size + CHUNK_SIZE - 1) / CHUNK_SIZE
  }

  function AtLeastZero(x: int): nat {
    if x < 0 then 0 else x
  }

  /** Byte `p` of the file, zero where nothing was written. */
  ghost function ByteAt(c: Codec, blocks: Blocks, ino: Inode, p: nat): byte
    requires AllReadable(c, blocks, ino)
  {
    if p / CHUNK_SIZE < MAX_LOGICAL_BLOCKS then WholeOf(c, blocks, ino, p / CHUNK_SIZE)[p % CHUNK_SIZE] else 0
  }

  ghost function Content(c: Codec, blocks: Blocks, ino: Inode): (r: seq<byte>)
    requires AllReadable(c, blocks, ino)
    ensures |r| == ino.size && forall p :: 0 <= p < ino.size ==> r[p] == ByteAt(c, blocks, ino, p)
  {
    seq(ino.size, p requires 0 <= p => ByteAt(c, blocks, ino, p))
  }

  /** Sum of the stored lengths of the first `n` entries. */
  ghost function Total(blocks: Blocks, ino: Inode, n: nat): nat
    requires n <= MAX_LOGICAL_BLOCKS
  {
    if n == 0 then 0 else Total(blocks, ino, n - 1) + StoredLen(EntryAt(blocks, ino, n - 1))
  }

  ghost predicate ZeroPast(c: Codec, blocks: Blocks, ino: Inode, size: nat)
    requires AllReadable(c, blocks, ino)
  {
    forall p: nat :: p >= size ==> ByteAt(c, blocks, ino, p) == 0
  }

  ghost predicate EmptyPast(blocks: Blocks, ino: Inode, size: nat) {
    forall k :: NumChunks(size) <= k < MAX_LOGICAL_BLOCKS ==> StoredLen(EntryAt(blocks, ino, k)) == 0
  }

  /** A seekable file in order: every chunk reads, nothing but zeros lies past the end, and the size
      total of a seekable file is the sum over its entries. */
  ghost predicate FileState(c: Codec, st: Store, ino: Inode, total: nat) {
    && FileReadable(c, st, ino) && ino.size <= MAX_LOGICAL_BLOCKS * CHUNK_SIZE
    && ZeroPast(c, st.blocks, ino, ino.size) && EmptyPast(st.blocks, ino, ino.size)
    && (ino.seekable ==> total == Total(st.blocks, ino, NumChunks(ino.size)))
  }

  lemma StateReads(c: Codec, st: Store, ino: Inode, total: nat)
    requires FileState(c, st, ino, total)
    ensures FileReadable(c, st, ino)
  {
  }

  // ---------------------------------------------------------------------------
  // Reading
  // ---------------------------------------------------------------------------

  /** Reading the first `valid` bytes of chunk `k`. */
  lemma ChunkReads(c: Codec, blocks: Blocks, ino: Inode, k: nat, valid: nat)
    requires AllReadable(c, blocks, ino) && valid <= CHUNK_SIZE
    ensures var r := ReadEntry(c, blocks, EntryOf(blocks, ino, k), valid);
            r.Some? && forall q :: 0 <= q < valid ==> r.value[q] == ByteAt(c, blocks, ino, CHUNK_SIZE * k + q)
  {
    hide EntryAt, EntryOf, ReadEntry, Whole, Readable;
    EntryOfIs(blocks, ino, k);
    if k < MAX_LOGICAL_BLOCKS {
      ReadIsPrefix(c, blocks, EntryAt(blocks, ino, k), valid);
    } else {
      EmptyReads(c, blocks, valid);
    }
    var bytes := ReadEntry(c, blocks, EntryOf(blocks, ino, k), valid).value;
    forall q | 0 <= q < valid ensures bytes[q] == ByteAt(c, blocks, ino, CHUNK_SIZE * k + q) {
      assert (CHUNK_SIZE * k + q) / CHUNK_SIZE == k && (CHUNK_SIZE * k + q) % CHUNK_SIZE == q;
    }
  }

  lemma EmptyReads(c: Codec, blocks: Blocks, valid: nat)
    ensures ReadEntry(c, blocks, 0, valid) == Some(Zeros(valid))
  {
  }

  /** `read_chunked_64k_internal`. */
  method ReadAll(c: Codec, blocks: Blocks, ino: Inode) returns (r: Option<seq<byte>>)
    requires AllReadable(c, blocks, ino)
    ensures r == Some(Content(c, blocks, ino))
  {
    hide ReadEntry, AllReadable, ByteAt, EntryOf;
    var out: seq<byte> := [];
    var n := NumChunks(ino.size);
    for k := 0 to n
      invariant |out| == Min(CHUNK_SIZE * k, ino.size)
      invariant forall p :: 0 <= p < |out| ==> out[p] == ByteAt(c, blocks, ino, p)
    {
      var valid := Min(ino.size - CHUNK_SIZE * k, CHUNK_SIZE);
      var bytes := ReadEntry(c, blocks, EntryOf(blocks, ino, k), valid);
      ChunkReads(c, blocks, ino, k, valid);
      if bytes.None? {
        return None;
      }
      assert forall p :: |out| <= p < |out| + valid ==> (out + bytes.value)[p] == bytes.value[p - CHUNK_SIZE * k];
      out := out + bytes.value;
    }
    assert out == Content(c, blocks, ino);
    return Some(out);
  }

  /** `read_at_chunked_64k`: up to `len` bytes from `offset` on. */
  method ReadAt(c: Codec, blocks: Blocks, ino: Inode, offset: nat, len: nat) returns (r: Option<seq<byte>>)
    requires AllReadable(c, blocks, ino)
    ensures var lo := Min(offset, ino.size); var hi := Min(offset + len, ino.size);
            r == Some(Content(c, blocks, ino)[lo..Max(lo, hi)])
  {
    hide ReadEntry, AllReadable, ByteAt, EntryOf;
    ghost var lo := Min(offset, ino.size);
    ghost var hi := Max(lo, Min(offset + len, ino.size));
    if offset >= ino.size || len == 0 {
      assert Content(c, blocks, ino)[lo..hi] == [];
      return Some([]);
    }
    var toRead := Min(len, ino.size - offset);
    var out: seq<byte> := [];
    while |out| < toRead
      invariant |out| <= toRead
      invariant forall i :: 0 <= i < |out| ==> out[i] == ByteAt(c, blocks, ino, offset + i)
    {
      var at := offset + |out|;
      var k, q := at / CHUNK_SIZE, at % CHUNK_SIZE;
      var valid := Min(ino.size - CHUNK_SIZE * k, CHUNK_SIZE);
      var n := Min(toRead - |out|, valid - q);
      var bytes := ReadEntry(c, blocks, EntryOf(blocks, ino, k), valid);
      ChunkReads(c, blocks, ino, k, valid);
      if bytes.None? {
        return None;
      }
      var piece := bytes.value[q..q + n];
      forall i | |out| <= i < |out| + n ensures (out + piece)[i] == ByteAt(c, blocks, ino, offset + i) {
        assert (out + piece)[i] == bytes.value[q + (i - |out|)];
        assert CHUNK_SIZE * k + (q + (i - |out|)) == offset + i;
      }
      out := out + piece;
    }
    assert out == Content(c, blocks, ino)[lo..hi];
    return Some(out);
  }

  // ---------------------------------------------------------------------------
  // Preparing
  // ---------------------------------------------------------------------------

  /** The file after the write, byte by byte. */
  ghost function NewByte(c: Codec, blocks: Blocks, ino: Inode, offset: nat, data: seq<byte>, p: nat): byte
    requires AllReadable(c, blocks, ino)
  {
    if offset <= p < offset + |data| then data[p - offset] else ByteAt(c, blocks, ino, p)
  }

  ghost predicate IsNewChunk(c: Codec, blocks: Blocks, ino: Inode, offset: nat, data: seq<byte>, k: nat, buf: seq<byte>)
    requires AllReadable(c, blocks, ino)
  {
    var size := Max(ino.size, offset + |data|);
    && CHUNK_SIZE * k < size && |buf| == Min(size - CHUNK_SIZE * k, CHUNK_SIZE)
    && forall q :: 0 <= q < |buf| ==> buf[q] == NewByte(c, blocks, ino, offset, data, CHUNK_SIZE * k + q)
  }

  ghost function NewChunk(c: Codec, blocks: Blocks, ino: Inode, offset: nat, data: seq<byte>, k: nat): (r: seq<byte>)
    requires AllReadable(c, blocks, ino)
  {
    var size := Max(ino.size, offset + |data|);
    var n := if size <= CHUNK_SIZE * k then 0 else Min(size - CHUNK_SIZE * k, CHUNK_SIZE);
    seq<byte>(n, q requires 0 <= q => NewByte(c, blocks, ino, offset, data, CHUNK_SIZE * k + q))
  }

  lemma NewChunkIs(c: Codec, blocks: Blocks, ino: Inode, offset: nat, data: seq<byte>, k: nat, buf: seq<byte>)
    requires AllReadable(c, blocks, ino) && IsNewChunk(c, blocks, ino, offset, data, k, buf)
    ensures buf == NewChunk(c, blocks, ino, offset, data, k)
  {
    hide NewByte, AllReadable;
  }

  lemma NewChunkIsNew(c: Codec, blocks: Blocks, ino: Inode, offset: nat, data: seq<byte>, k: nat)
    requires AllReadable(c, blocks, ino) && CHUNK_SIZE * k < offset + |data|
    ensures IsNewChunk(c, blocks, ino, offset, data, k, NewChunk(c, blocks, ino, offset, data, k))
  {
    hide NewByte, AllReadable;
  }

  lemma NewChunksAre(c: Codec, blocks: Blocks, ino: Inode, offset: nat, data: seq<byte>, i: nat)
    requires AllReadable(c, blocks, ino) && i < TouchedCount(offset, |data|)
    ensures var bufs := NewChunks(c, blocks, ino, offset, data);
            IsNewChunk(c, blocks, ino, offset, data, offset / CHUNK_SIZE + i, bufs[i])
  {
    hide NewChunk, AllReadable, IsNewChunk;
    NewChunkIsNew(c, blocks, ino, offset, data, offset / CHUNK_SIZE + i);
  }

  /** Where a write meets chunk `k`: the bounds inside the chunk. */
  function WriteFrom(offset: nat, k: nat): nat {
    Max(offset, CHUNK_SIZE * k) - CHUNK_SIZE * k
  }

  function WriteTo(offset: nat, len: nat, k: nat): int {
    Min(offset + len, CHUNK_SIZE * k + CHUNK_SIZE) - CHUNK_SIZE * k
  }

  predicate Touched(offset: nat, len: nat, k: nat) {
    len > 0 && offset / CHUNK_SIZE <= k <= (offset + len - 1) / CHUNK_SIZE
  }

  lemma TouchedBounds(offset: nat, len: nat, k: nat)
    requires Touched(offset, len, k)
    ensures WriteFrom(offset, k) < WriteTo(offset, len, k) <= CHUNK_SIZE
    ensures offset <= CHUNK_SIZE * k + WriteFrom(offset, k) && CHUNK_SIZE * k + WriteTo(offset, len, k) <= offset + len
  {
  }

  lemma TouchedAt(offset: nat, len: nat, k: nat, q: nat)
    requires Touched(offset, len, k) && q < CHUNK_SIZE
    ensures WriteFrom(offset, k) <= q < WriteTo(offset, len, k) <==> offset <= CHUNK_SIZE * k + q < offset + len
  {
  }

  /** Overwriting the touched part of a chunk's old bytes gives its new bytes. */
  lemma SplicedChunk(c: Codec, blocks: Blocks, ino: Inode, offset: nat, data: seq<byte>, k: nat, buf: seq<byte>,
                     valid: nat)
    requires AllReadable(c, blocks, ino) && Touched(offset, |data|, k)
    requires valid == Min(Max(ino.size, offset + |data|) - CHUNK_SIZE * k, CHUNK_SIZE) && |buf| == valid
    requires forall q :: 0 <= q < valid && !(WriteFrom(offset, k) <= q < WriteTo(offset, |data|, k)) ==>
               buf[q] == ByteAt(c, blocks, ino, CHUNK_SIZE * k + q)
    ensures WriteFrom(offset, k) <= WriteTo(offset, |data|, k) <= valid
    ensures offset <= CHUNK_SIZE * k + WriteFrom(offset, k)
    ensures CHUNK_SIZE * k + WriteTo(offset, |data|, k) <= offset + |data|
    ensures var lo := WriteFrom(offset, k); var hi := WriteTo(offset, |data|, k); var base := CHUNK_SIZE * k - offset;
            IsNewChunk(c, blocks, ino, offset, data, k, buf[..lo] + data[base + lo..base + hi] + buf[hi..])
  {
    hide ByteAt, WriteFrom, WriteTo, AllReadable;
    TouchedBounds(offset, |data|, k);
    var lo, hi, base := WriteFrom(offset, k), WriteTo(offset, |data|, k), CHUNK_SIZE * k - offset;
    assert hi <= valid;
    var out := buf[..lo] + data[base + lo..base + hi] + buf[hi..];
    forall q | 0 <= q < |out| ensures out[q] == NewByte(c, blocks, ino, offset, data, CHUNK_SIZE * k + q) {
      TouchedAt(offset, |data|, k, q);
      if lo <= q < hi {
        assert out[q] == data[base + q];
      } else {
        assert out[q] == buf[q];
      }
    }
  }

  /** What the old bytes of a chunk, filled up with zeros, are. */
  lemma OldBytes(c: Codec, blocks: Blocks, ino: Inode, k: nat, old': seq<byte>, valid: nat)
    requires AllReadable(c, blocks, ino) && ZeroPast(c, blocks, ino, ino.size) && |old'| <= valid <= CHUNK_SIZE
    requires |old'| == (if CHUNK_SIZE * k < ino.size then Min(ino.size - CHUNK_SIZE * k, CHUNK_SIZE) else 0)
    requires forall q :: 0 <= q < |old'| ==> old'[q] == ByteAt(c, blocks, ino, CHUNK_SIZE * k + q)
    ensures forall q :: 0 <= q < valid ==> Resize(old', valid)[q] == ByteAt(c, blocks, ino, CHUNK_SIZE * k + q)
  {
    hide ByteAt, AllReadable;
  }

  /** The old bytes of a chunk, filled up with zeros. */
  method OldChunk(c: Codec, blocks: Blocks, ino: Inode, k: nat, valid: nat) returns (r: Option<seq<byte>>)
    requires AllReadable(c, blocks, ino) && ZeroPast(c, blocks, ino, ino.size)
    requires valid <= CHUNK_SIZE && (CHUNK_SIZE * k < ino.size ==> Min(ino.size - CHUNK_SIZE * k, CHUNK_SIZE) <= valid)
    ensures r.Some? && |r.value| == valid
    ensures forall q :: 0 <= q < valid ==> r.value[q] == ByteAt(c, blocks, ino, CHUNK_SIZE * k + q)
  {
    hide ReadEntry, AllReadable, ByteAt, EntryOf, ZeroPast;
    var start := CHUNK_SIZE * k;
    var oldValid := if start < ino.size then Min(ino.size - start, CHUNK_SIZE) else 0;
    var buf: seq<byte> := [];
    if oldValid > 0 {
      var bytes := ReadEntry(c, blocks, EntryOf(blocks, ino, k), oldValid);
      ChunkReads(c, blocks, ino, k, oldValid);
      if bytes.None? {
        return None;
      }
      buf := bytes.value;
    }
    OldBytes(c, blocks, ino, k, buf, valid);
    return Some(Resize(buf, valid));
  }

  /** The new content of one chunk the write touches. */
  method BuildChunk(c: Codec, blocks: Blocks, ino: Inode, offset: nat, data: seq<byte>, k: nat)
    returns (r: Option<seq<byte>>)
    requires AllReadable(c, blocks, ino) && ZeroPast(c, blocks, ino, ino.size) && Touched(offset, |data|, k)
    ensures r == Some(NewChunk(c, blocks, ino, offset, data, k))
  {
    hide AllReadable, ByteAt, IsNewChunk, ZeroPast, NewChunk, Touched, WriteFrom, WriteTo;
    var start := CHUNK_SIZE * k;
    var lo, hi := WriteFrom(offset, k), WriteTo(offset, |data|, k);
    TouchedBounds(offset, |data|, k);
    var valid := Min(Max(ino.size, offset + |data|) - start, CHUNK_SIZE);
    var piece := data[start - offset + lo..start - offset + hi];
    if lo == 0 && hi >= valid {
      var buf := Zeros(valid);
      SplicedChunk(c, blocks, ino, offset, data, k, buf, valid);
      assert buf[..0] + piece + buf[hi..] == Resize(piece, valid);
      NewChunkIs(c, blocks, ino, offset, data, k, Resize(piece, valid));
      return Some(Resize(piece, valid));
    }
    var old' := OldChunk(c, blocks, ino, k, valid);
    if old'.None? {
      return None;
    }
    SplicedChunk(c, blocks, ino, offset, data, k, old'.value, valid);
    var buf := old'.value[..lo] + piece + old'.value[hi..];
    NewChunkIs(c, blocks, ino, offset, data, k, buf);
    return Some(buf);
  }

  /** The chunks a write leaves, in order. */
  ghost function NewChunks(c: Codec, blocks: Blocks, ino: Inode, offset: nat, data: seq<byte>): (r: seq<seq<byte>>)
    requires AllReadable(c, blocks, ino)
    ensures |r| == TouchedCount(offset, |data|)
  {
    seq(TouchedCount(offset, |data|), i requires 0 <= i =>
      NewChunk(c, blocks, ino, offset, data, offset / CHUNK_SIZE + i))
  }

  function TouchedCount(offset: nat, len: nat): nat {
    if len == 0 then 0 else (offset + len - 1) / CHUNK_SIZE + 1 - offset / CHUNK_SIZE
  }

  method BuildChunks(c: Codec, blocks: Blocks, ino: Inode, offset: nat, data: seq<byte>)
    returns (r: Option<seq<seq<byte>>>)
    requires AllReadable(c, blocks, ino) && ZeroPast(c, blocks, ino, ino.size) && |data| > 0
    ensures r == Some(NewChunks(c, blocks, ino, offset, data))
  {
    hide NewChunk, AllReadable, ZeroPast;
    var first, last := offset / CHUNK_SIZE, (offset + |data| - 1) / CHUNK_SIZE;
    var bufs: seq<seq<byte>> := [];
    for k := first to last + 1
      invariant |bufs| == k - first
      invariant forall i :: 0 <= i < |bufs| ==> bufs[i] == NewChunk(c, blocks, ino, offset, data, first + i)
    {
      var buf := BuildChunk(c, blocks, ino, offset, data, k);
      if buf.None? {
        return None;
      }
      bufs := bufs + [buf.value];
    }
    assert bufs == NewChunks(c, blocks, ino, offset, data);
    return Some(bufs);
  }

  // ---------------------------------------------------------------------------
  // Committing
  // ---------------------------------------------------------------------------

  /** One entry changed: so did the sum. */
  lemma {:induction false} TotalChange(blocks: Blocks, ino: Inode, blocks': Blocks, ino': Inode, k: nat, n: nat)
    requires n <= MAX_LOGICAL_BLOCKS && k < MAX_LOGICAL_BLOCKS
    requires forall j :: 0 <= j < MAX_LOGICAL_BLOCKS && j != k ==> EntryAt(blocks', ino', j) == EntryAt(blocks, ino, j)
    ensures Total(blocks', ino', n) ==
            Total(blocks, ino, n)
            + if k < n then StoredLen(EntryAt(blocks', ino', k)) - StoredLen(EntryAt(blocks, ino, k)) else 0
  {
    hide EntryAt, StoredLen;
    if n > 0 { TotalChange(blocks, ino, blocks', ino', k, n - 1); }
  }

  lemma {:induction false} TotalPast(blocks: Blocks, ino: Inode, size: nat, n: nat)
    requires NumChunks(size) <= n <= MAX_LOGICAL_BLOCKS && EmptyPast(blocks, ino, size)
    ensures Total(blocks, ino, n) == Total(blocks, ino, NumChunks(size))
    decreases n
  {
    hide EntryAt, StoredLen;
    if NumChunks(size) < n { TotalPast(blocks, ino, size, n - 1); }
  }

  /** The commit loop: it stops at the first chunk that cannot be stored, with what it has done so far.
      The size change it reports is that of the sum over the entries. */
  method CommitAll(c: Codec, st0: Store, ino0: Inode, first: nat, bufs: seq<seq<byte>>, ghost n: nat)
    returns (ok: bool, st: Store, ino: Inode, delta: int)
    requires Lawful(c) && FileOk(st0, ino0) && AllChunks(bufs) && first + |bufs| <= n
    ensures var r := CommitMany(c, st0, ino0, first, bufs, |bufs|);
            ok == r.ok && st == r.st && ino == r.ino
    ensures ok && n <= MAX_LOGICAL_BLOCKS ==> Total(st.blocks, ino, n) == Total(st0.blocks, ino0, n) + delta
  {
    hide FileOk, Prepare, EntryAt, Total, Lawful, ChunkPlaced, ChunkStored, StoredLen, CommitStep, Stored, Keeps,
         RunFits;
    OkStore(st0, ino0);
    st, ino, delta := st0, ino0, 0;
    for i := 0 to |bufs|
      invariant CommitMany(c, st0, ino0, first, bufs, i) == Outcome(true, st, ino, i)
      invariant n <= MAX_LOGICAL_BLOCKS ==> Total(st.blocks, ino, n) == Total(st0.blocks, ino0, n) + delta
    {
      var p := Prepare(c, bufs[i]);
      PreparedFits(c, bufs[i]);
      ManyStores(c, st0, ino0, first, bufs, i);
      StoredOk(c, st0, ino0, first, bufs, i, st, ino);
      var s, oldLen := CommitChunk(c, st, ino, first + i, p, bufs[i]);
      if !s.ok {
        StaysStopped(c, st0, ino0, first, bufs, i + 1, |bufs|);
        return false, s.st, s.ino, delta;
      }
      OkStore(st, ino);
      if n <= MAX_LOGICAL_BLOCKS { PlacedTotal(c, st, ino, first + i, p, s.st, s.ino, n); }
      delta := delta + p.len - oldLen;
      st, ino := s.st, s.ino;
    }
    ok := true;
  }

  lemma PlacedTotal(c: Codec, st: Store, ino: Inode, k: nat, p: Prepared, st': Store, ino': Inode, n: nat)
    requires k < n <= MAX_LOGICAL_BLOCKS && StoreOk(st) && Fits(p) && ChunkPlaced(c, st, ino, k, p, st', ino')
    ensures Total(st'.blocks, ino', n) == Total(st.blocks, ino, n) + p.len - StoredLen(EntryAt(st.blocks, ino, k))
  {
    hide EntryAt, FileOk, Spares, SameChunk, EntryFor, EntryLen, EntryIsEmpty, EntryStart, EntryCount, EntryFlags;
    EntryForIs(GrabRun(st, p.count).value.1, p);
    TotalChange(st.blocks, ino, st'.blocks, ino', k, n);
  }

  // ---------------------------------------------------------------------------
  // The whole write
  // ---------------------------------------------------------------------------

  /** The old bytes, filled up with zeros and overwritten at `offset`. */
  ghost function Spliced(old': seq<byte>, offset: nat, data: seq<byte>): (r: seq<byte>) {
    seq(Max(|old'|, offset + |data|), p requires 0 <= p =>
      if offset <= p < offset + |data| then data[p - offset] else if p < |old'| then old'[p] else 0)
  }

  /** Every run the write takes ends inside the image. */
  ghost predicate WriteFits(c: Codec, st: Store, ino: Inode, offset: nat, data: seq<byte>)
    requires Lawful(c) && StoreOk(st) && AllReadable(c, st.blocks, ino)
  {
    var bufs := NewChunks(c, st.blocks, ino, offset, data);
    NewChunksFit(c, st.blocks, ino, offset, data);
    forall i :: 0 <= i < |bufs| ==> RunInside(c, st, ino, offset / CHUNK_SIZE, bufs, i)
  }

  /** What the write leaves. */
  ghost function WriteOutcome(c: Codec, st: Store, ino: Inode, offset: nat, data: seq<byte>): Outcome
    requires Lawful(c) && StoreOk(st) && AllReadable(c, st.blocks, ino)
  {
    var bufs := NewChunks(c, st.blocks, ino, offset, data);
    NewChunksFit(c, st.blocks, ino, offset, data);
    CommitMany(c, st, ino, offset / CHUNK_SIZE, bufs, |bufs|)
  }

  /** The chunks a write touches can be addressed, and so many blocks are free ahead of the hint. */
  ghost predicate RoomFor(st: Store, offset: nat, len: nat) {
    && offset / CHUNK_SIZE + TouchedCount(offset, len) <= MAX_LOGICAL_BLOCKS
    && RoomAhead(st, PER_CHUNK * TouchedCount(offset, len))
  }

  /** The write went through, and every run it took ends inside the image. */
  ghost predicate WroteInside(c: Codec, st0: Store, ino0: Inode, offset: nat, data: seq<byte>, st: Store, ino: Inode) {
    && Lawful(c) && FileReadable(c, st0, ino0) && |data| > 0 && ZeroPast(c, st0.blocks, ino0, ino0.size)
    && offset / CHUNK_SIZE + TouchedCount(offset, |data|) <= MAX_LOGICAL_BLOCKS
    && WriteFits(c, st0, ino0, offset, data)
    && AllChunks(NewChunks(c, st0.blocks, ino0, offset, data))
    && LeaksNothing(st0, ino0, st, ino) && AllReadable(c, st.blocks, ino)
    && var bufs := NewChunks(c, st0.blocks, ino0, offset, data);
    Stored(c, st0, ino0, offset / CHUNK_SIZE, bufs, |bufs|, st, ino)
  }

  lemma NewChunksFit(c: Codec, blocks: Blocks, ino: Inode, offset: nat, data: seq<byte>)
    requires AllReadable(c, blocks, ino)
    ensures AllChunks(NewChunks(c, blocks, ino, offset, data))
  {
    hide ByteAt, AllReadable, NewChunks, NewByte;
    var bufs := NewChunks(c, blocks, ino, offset, data);
    forall i | 0 <= i < |bufs| ensures 0 < |bufs[i]| <= CHUNK_SIZE { NewChunksAre(c, blocks, ino, offset, data, i); }
  }

  /** One chunk after the write. */
  lemma WholeAfter(c: Codec, st0: Store, ino0: Inode, offset: nat, data: seq<byte>, st: Store, ino: Inode, k: nat)
    requires WroteInside(c, st0, ino0, offset, data, st, ino) && k < MAX_LOGICAL_BLOCKS
    ensures var first := offset / CHUNK_SIZE; var bufs := NewChunks(c, st0.blocks, ino0, offset, data);
            WholeOf(c, st.blocks, ino, k) ==
            if first <= k < first + |bufs| then Resize(bufs[k - first], CHUNK_SIZE) else WholeOf(c, st0.blocks, ino0, k)
  {
    hide FileOk, EntryAt, Readable, Whole, SparesOthers, LeaksNothing, NewChunks, RunEntry, RunInside, Resize,
         EntryHas, Lawful;
    var bufs := NewChunks(c, st0.blocks, ino0, offset, data);
    assert StoreOk(st0) by { OkStore(st0, ino0); }
    assert ChunkAfter(c, st0, ino0, offset / CHUNK_SIZE, bufs, |bufs|, st, ino, k);
  }

  /** A byte of a chunk the write touched. */
  lemma TouchedByte(c: Codec, blocks: Blocks, ino: Inode, offset: nat, data: seq<byte>, k: nat, buf: seq<byte>, q: nat)
    requires AllReadable(c, blocks, ino) && ZeroPast(c, blocks, ino, ino.size) && q < CHUNK_SIZE
    requires IsNewChunk(c, blocks, ino, offset, data, k, buf)
    ensures Resize(buf, CHUNK_SIZE)[q] == NewByte(c, blocks, ino, offset, data, CHUNK_SIZE * k + q)
  {
    hide ByteAt, AllReadable;
    if q >= |buf| {
      assert CHUNK_SIZE * k + q >= Max(ino.size, offset + |data|);
    }
  }

  /** After the commit the file reads, byte by byte, as the write says. */
  lemma BytesAfter(c: Codec, st0: Store, ino0: Inode, offset: nat, data: seq<byte>, st: Store, ino: Inode, p: nat)
    requires WroteInside(c, st0, ino0, offset, data, st, ino)
    ensures ByteAt(c, st.blocks, ino, p) == NewByte(c, st0.blocks, ino0, offset, data, p)
  {
    hide FileOk, AllReadable, SparesOthers, LeaksNothing, WholeOf, NewChunks, Stored, Lawful, WriteFits, IsNewChunk,
         ZeroPast, Resize, AllChunks;
    var first, k, q := offset / CHUNK_SIZE, p / CHUNK_SIZE, p % CHUNK_SIZE;
    var bufs := NewChunks(c, st0.blocks, ino0, offset, data);
    assert p == CHUNK_SIZE * k + q;
    if k < MAX_LOGICAL_BLOCKS {
      WholeAfter(c, st0, ino0, offset, data, st, ino, k);
    }
    if first <= k < first + |bufs| {
      NewChunksAre(c, st0.blocks, ino0, offset, data, k - first);
      TouchedByte(c, st0.blocks, ino0, offset, data, k, bufs[k - first], q);
    } else {
      Untouched(offset, |data|, p);
    }
  }

  lemma Untouched(offset: nat, len: nat, p: nat)
    requires len > 0 && !(offset / CHUNK_SIZE <= p / CHUNK_SIZE < (offset + len - 1) / CHUNK_SIZE + 1)
    ensures !(offset <= p < offset + len)
  {
  }

  /** The file after a write all of whose runs end inside the image. */
  lemma Written(c: Codec, st0: Store, ino0: Inode, offset: nat, data: seq<byte>, st: Store, ino: Inode, ino': Inode)
    requires WroteInside(c, st0, ino0, offset, data, st, ino) && EmptyPast(st0.blocks, ino0, ino0.size)
    requires ino0.size <= MAX_LOGICAL_BLOCKS * CHUNK_SIZE
    requires ino' == ino.(size := Max(ino0.size, offset + |data|), seekable := true)
    ensures FileReadable(c, st, ino') && ino'.size <= MAX_LOGICAL_BLOCKS * CHUNK_SIZE
    ensures ZeroPast(c, st.blocks, ino', ino'.size) && EmptyPast(st.blocks, ino', ino'.size)
    ensures Content(c, st.blocks, ino') == Spliced(Content(c, st0.blocks, ino0), offset, data)
  {
    hide FileOk, EntryAt, Readable, Whole, Spares, WholeOf, Stored, ByteAt, NewChunks, Total, AllReadable, Lawful,
         WriteFits, LeaksNothing;
    var first, bufs := offset / CHUNK_SIZE, NewChunks(c, st0.blocks, ino0, offset, data);
    OkStore(st0, ino0);
    StoredOk(c, st0, ino0, first, bufs, |bufs|, st, ino);
    Relabelled(c, st, ino, ino');
    var size := ino'.size;
    forall p: nat ensures ByteAt(c, st.blocks, ino', p) == NewByte(c, st0.blocks, ino0, offset, data, p) {
      BytesAfter(c, st0, ino0, offset, data, st, ino, p);
    }
    assert EmptyPast(st.blocks, ino', size) by { StillEmpty(c, st0, ino0, offset, data, st, ino, ino'); }
    var new', want := Content(c, st.blocks, ino'), Spliced(Content(c, st0.blocks, ino0), offset, data);
    assert |new'| == |want|;
    forall p | 0 <= p < size ensures new'[p] == want[p] {
      assert new'[p] == NewByte(c, st0.blocks, ino0, offset, data, p);
    }
  }

  /** Size and flag of the inode play no part in the tree. */
  lemma {:induction false} SameNode(rd: Reader, ino: Inode, ino': Inode, q: Pos)
    requires InTree(q) && ino'.blocks == ino.blocks && ino'.tripleIndirect == ino.tripleIndirect
    ensures Node(rd, ino', q) == Node(rd, ino, q)
    decreases Rank(q)
  {
    if Up(q).Some? { SameNode(rd, ino, ino', Up(q).value.0); }
  }

  lemma SameFile(blocks: Blocks, ino: Inode, ino': Inode)
    requires ino'.blocks == ino.blocks && ino'.tripleIndirect == ino.tripleIndirect
    ensures forall k :: 0 <= k < MAX_LOGICAL_BLOCKS ==> EntryAt(blocks, ino', k) == EntryAt(blocks, ino, k)
    ensures forall o, b: nat :: Owns(blocks, ino', o, b) <==> Owns(blocks, ino, o, b)
  {
    hide Node;
    forall q | InTree(q) ensures TableAt(blocks, ino', q) == TableAt(blocks, ino, q) {
      SameNode(Slots(blocks), ino, ino', q);
    }
    forall k: nat | k < MAX_LOGICAL_BLOCKS ensures EntryAt(blocks, ino', k) == EntryAt(blocks, ino, k) {
      assert TableAt(blocks, ino', Leaf(k)) == TableAt(blocks, ino, Leaf(k));
    }
  }

  lemma {:induction false} SameTotal(blocks: Blocks, ino: Inode, ino': Inode, n: nat)
    requires n <= MAX_LOGICAL_BLOCKS
    requires forall k :: 0 <= k < MAX_LOGICAL_BLOCKS ==> EntryAt(blocks, ino', k) == EntryAt(blocks, ino, k)
    ensures Total(blocks, ino', n) == Total(blocks, ino, n)
  {
    hide EntryAt, StoredLen;
    if n > 0 { SameTotal(blocks, ino, ino', n - 1); }
  }

  lemma SameOwner(st: Store, ino: Inode, ino': Inode)
    requires ino'.blocks == ino.blocks && ino'.tripleIndirect == ino.tripleIndirect
    ensures FileOk(st, ino) ==> FileOk(st, ino')
    ensures forall b: nat :: Foreign(st, ino', b) <==> Foreign(st, ino, b)
    ensures forall n :: 0 <= n <= MAX_LOGICAL_BLOCKS ==> Total(st.blocks, ino', n) == Total(st.blocks, ino, n)
  {
    hide EntryAt, Owns, Taken;
    SameFile(st.blocks, ino, ino');
    forall n | 0 <= n <= MAX_LOGICAL_BLOCKS ensures Total(st.blocks, ino', n) == Total(st.blocks, ino, n) {
      SameTotal(st.blocks, ino, ino', n);
    }
  }

  lemma Relabelled(c: Codec, st: Store, ino: Inode, ino': Inode)
    requires ino'.blocks == ino.blocks && ino'.tripleIndirect == ino.tripleIndirect
    ensures FileOk(st, ino) ==> FileOk(st, ino')
    ensures AllReadable(c, st.blocks, ino') <==> AllReadable(c, st.blocks, ino)
    ensures AllReadable(c, st.blocks, ino) ==>
              forall p: nat :: ByteAt(c, st.blocks, ino', p) == ByteAt(c, st.blocks, ino, p)
  {
    hide EntryAt, Owns, Readable, Whole, Taken;
    SameFile(st.blocks, ino, ino');
  }

  lemma StillEmpty(c: Codec, st0: Store, ino0: Inode, offset: nat, data: seq<byte>, st: Store, ino: Inode, ino': Inode)
    requires WroteInside(c, st0, ino0, offset, data, st, ino) && EmptyPast(st0.blocks, ino0, ino0.size)
    requires ino'.blocks == ino.blocks && ino'.tripleIndirect == ino.tripleIndirect
    requires ino'.size == Max(ino0.size, offset + |data|)
    ensures EmptyPast(st.blocks, ino', ino'.size)
  {
    hide EntryAt, FileOk, Readable, Whole, StoredLen, NewChunks, SparesOthers, LeaksNothing, Lawful, WriteFits,
         ZeroPast;
    SameFile(st.blocks, ino, ino');
    var first, bufs := offset / CHUNK_SIZE, NewChunks(c, st0.blocks, ino0, offset, data);
    assert StoreOk(st0) by { OkStore(st0, ino0); }
    forall k | NumChunks(ino'.size) <= k < MAX_LOGICAL_BLOCKS ensures StoredLen(EntryAt(st.blocks, ino', k)) == 0 {
      assert ChunkAfter(c, st0, ino0, first, bufs, |bufs|, st, ino, k);
      assert !(first <= k < first + |bufs|);
      assert EntryAt(st.blocks, ino, k) == EntryAt(st0.blocks, ino0, k);
    }
  }

  /** What the commits of a write amount to. */
  lemma Committed(c: Codec, st: Store, ino: Inode, offset: nat, data: seq<byte>)
    requires Lawful(c) && FileReadable(c, st, ino) && |data| > 0 && ZeroPast(c, st.blocks, ino, ino.size)
    ensures var r := WriteOutcome(c, st, ino, offset, data);
            && FileOk(r.st, r.ino) && SparesOthers(st, ino, r.st, r.ino)
            && (r.ok ==> Spares(st, ino, r.st, r.ino))
            && (r.ok ==> offset / CHUNK_SIZE + TouchedCount(offset, |data|) <= MAX_LOGICAL_BLOCKS)
            && (r.ok ==> (AllReadable(c, r.st.blocks, r.ino) <==> WriteFits(c, st, ino, offset, data)))
            && (r.ok && WriteFits(c, st, ino, offset, data) ==> WroteInside(c, st, ino, offset, data, r.st, r.ino))
            && (RoomFor(st, offset, |data|) ==> r.ok && WriteFits(c, st, ino, offset, data))
  {
    hide FileOk, Lawful, NewChunks, CommitMany, AllReadable, Stored, RunInside, LeaksNothing, SparesOthers, RoomAhead,
         ZeroPast;
    OkStore(st, ino);
    NewChunksFit(c, st.blocks, ino, offset, data);
    var first, bufs := offset / CHUNK_SIZE, NewChunks(c, st.blocks, ino, offset, data);
    ManyStores(c, st, ino, first, bufs, |bufs|);
    var r := CommitMany(c, st, ino, first, bufs, |bufs|);
    StoredOk(c, st, ino, first, bufs, r.done, r.st, r.ino);
    if r.ok {
      ReadsIffInside(c, st, ino, first, bufs, |bufs|, r.st, r.ino);
    }
    if RoomFor(st, offset, |data|) {
      EnoughRoom(c, st, ino, first, bufs, |bufs|, 0);
    }
  }

  /** `write_chunked_64k` on an image without a journal. If it succeeds, the content is the old one, filled
      up with zeros and overwritten, and the size total is again the sum over the entries, exactly if every
      run it took ends inside the image; otherwise the file no longer reads. If it fails, the stored inode
      is the old one. No block of any other owner is touched in either case. */
  method WriteAt(c: Codec, st0: Store, ino0: Inode, total0: nat, offset: nat, data: seq<byte>)
    returns (ok: bool, st: Store, ino: Inode, total: nat)
    requires Lawful(c) && FileState(c, st0, ino0, total0) && (ino0.seekable || ino0.size == 0)
    ensures ok == WriteOutcome(c, st0, ino0, offset, data).ok && st == WriteOutcome(c, st0, ino0, offset, data).st
    ensures RoomFor(st0, offset, |data|) && data != [] ==> ok && WriteFits(c, st0, ino0, offset, data)
    ensures ok ==> FileOk(st, ino) && Spares(st0, ino0, st, ino)
    ensures ok ==> (FileState(c, st, ino, total) <==> WriteFits(c, st0, ino0, offset, data))
    ensures ok ==> (AllReadable(c, st.blocks, ino) <==> WriteFits(c, st0, ino0, offset, data))
    ensures ok && data == [] ==> st == st0 && ino == ino0 && total == total0
    ensures ok && data != [] ==> ino.seekable
    ensures ok && data != [] && WriteFits(c, st0, ino0, offset, data) ==>
              Content(c, st.blocks, ino) == Spliced(Content(c, st0.blocks, ino0), offset, data)
    ensures !ok ==>
              && ino == ino0 && total == total0
              && SparesOthers(st0, ino0, st, WriteOutcome(c, st0, ino0, offset, data).ino)
  {
    hide FileOk, EntryAt, AllReadable, Spares, SparesOthers, ByteAt, Total, EmptyPast, ZeroPast, Spliced, Lawful,
         NewChunks, Stored, CommitMany, WroteInside, RoomFor, Foreign;
    OkStore(st0, ino0);
    NewChunksFit(c, st0.blocks, ino0, offset, data);
    st, ino, total := st0, ino0, total0;
    if data == [] {
      SparesRefl(st0, ino0);
      NoCommits(c, st0, ino0, offset);
      return true, st, ino, total;
    }
    Committed(c, st0, ino0, offset, data);
    var newSize := Max(ino0.size, offset + |data|);
    var bufs := BuildChunks(c, st0.blocks, ino0, offset, data);
    if bufs.None? {
      return false, st, ino, total;
    }
    var n := NumChunks(newSize);
    var inode, delta;
    ok, st, inode, delta := CommitAll(c, st0, ino0, offset / CHUNK_SIZE, bufs.value, n);
    if !ok {
      return;
    }
    ino := inode.(size := newSize, seekable := true);
    SameOwner(st, inode, ino);
    assert Spares(st0, ino0, st, ino) by { SameSpares(st0, ino0, st, inode, ino); }
    Relabelled(c, st, inode, ino);
    if WriteFits(c, st0, ino0, offset, data) { Written(c, st0, ino0, offset, data, st, inode, ino); }
    if ino0.seekable {
      TotalPast(st0.blocks, ino0, ino0.size, n);
      total := AtLeastZero(total0 + delta);
    } else {
      total := SumEntries(st.blocks, ino, n);
    }
  }

  /** After a write that failed, whose stored inode is still the old one: some entry of that inode names a
      run that was given back exactly if one of the chunks committed before the failure is direct and had
      a run. */
  lemma FailedWrite(c: Codec, st: Store, ino: Inode, offset: nat, data: seq<byte>)
    requires Lawful(c) && FileReadable(c, st, ino)
    ensures var r := WriteOutcome(c, st, ino, offset, data); var first := offset / CHUNK_SIZE;
            (exists k :: first <= k < first + r.done && StaleAt(st, ino, r.st, k)) <==>
            (exists k :: first <= k < first + r.done && k < 10 && HadRun(st, ino, k))
  {
    hide Lawful, FileOk, AllReadable, CommitMany, NewChunks, EntryAt, NamesBlocks, EntryHas;
    OkStore(st, ino);
    NewChunksFit(c, st.blocks, ino, offset, data);
    var first, bufs := offset / CHUNK_SIZE, NewChunks(c, st.blocks, ino, offset, data);
    var r := CommitMany(c, st, ino, first, bufs, |bufs|);
    assert r == WriteOutcome(c, st, ino, offset, data);
    forall k | first <= k < first + r.done && HadRun(st, ino, k) ensures StaleAt(st, ino, r.st, k) <==> k < 10 {
      StaleIffDirect(c, st, ino, first, bufs, k);
    }
  }

  ghost predicate HadRun(st: Store, ino: Inode, k: nat) {
    k < MAX_LOGICAL_BLOCKS && NamesBlocks(EntryAt(st.blocks, ino, k))
  }

  /** The stored inode's entry is still the one whose run was given back. */
  ghost predicate StaleAt(st: Store, ino: Inode, st': Store, k: nat) {
    HadRun(st, ino, k) && EntryAt(st'.blocks, ino, k) == EntryAt(st.blocks, ino, k)
  }

  lemma NoCommits(c: Codec, st: Store, ino: Inode, offset: nat)
    requires Lawful(c) && StoreOk(st) && AllReadable(c, st.blocks, ino)
    ensures WriteOutcome(c, st, ino, offset, []) == Outcome(true, st, ino, 0) && WriteFits(c, st, ino, offset, [])
  {
    hide Lawful, AllReadable;
  }

  lemma SameSpares(st0: Store, ino0: Inode, st: Store, ino: Inode, ino': Inode)
    requires Spares(st0, ino0, st, ino) && forall b: nat :: Foreign(st, ino', b) <==> Foreign(st, ino, b)
    ensures Spares(st0, ino0, st, ino')
  {
    hide Foreign;
  }

  method SumEntries(blocks: Blocks, ino: Inode, n: nat) returns (total: nat)
    requires n <= MAX_LOGICAL_BLOCKS
    ensures total == Total(blocks, ino, n)
  {
    hide EntryAt, EntryOf, EntryLen, EntryIsEmpty;
    total := 0;
    for k := 0 to n
      invariant total == Total(blocks, ino, k)
    {
      EntryOfIs(blocks, ino, k);
      var e := EntryOf(blocks, ino, k);
      if !EntryIsEmpty(e) {
        total := total + EntryLen(e);
      }
    }
  }

  /** A file that was never written is in order, so every run of writes from there on is covered. */
  lemma EmptyFile(c: Codec, st: Store, ino: Inode)
    requires StoreOk(st) && ino.size == 0 && ino.tripleIndirect == 0 && forall i :: 0 <= i < 12 ==> ino.blocks[i] == 0
    ensures FileState(c, st, ino, 0) && Content(c, st.blocks, ino) == []
  {
    hide Readable;
    forall q | InTree(q) ensures Node(Slots(st.blocks), ino, q) == 0 { NothingThere(Slots(st.blocks), ino, q); }
    forall k: nat | k < MAX_LOGICAL_BLOCKS
      ensures EntryAt(st.blocks, ino, k) == 0 && Readable(c, st.blocks, 0)
      ensures Whole(c, st.blocks, 0) == Zeros(CHUNK_SIZE)
    {
      EmptyReads(c, st.blocks, CHUNK_SIZE);
      assert Readable(c, st.blocks, 0) by { IsReadable(c, st.blocks); }
    }
  }

  lemma IsReadable(c: Codec, blocks: Blocks)
    ensures Readable(c, blocks, 0)
  {
  }

  lemma {:induction false} NothingThere(rd: Reader, ino: Inode, q: Pos)
    requires InTree(q) && ino.tripleIndirect == 0 && forall i :: 0 <= i < 12 ==> ino.blocks[i] == 0
    ensures Node(rd, ino, q) == 0
    decreases Rank(q)
  {
    if Up(q).Some? { NothingThere(rd, ino, Up(q).value.0); }
  }
}
