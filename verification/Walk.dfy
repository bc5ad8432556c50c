/** The batched walk over a file's payload blocks (src/disk.rs, `walk_payload_blocks`). */
module Walk {
  import opened Sizes
  import opened Bytes
  import opened PointerTree

  predicate InMap(img: seq<byte>, b: nat) {
    b * BLOCK_SIZE + BLOCK_SIZE <= |img|
  }

  /** `read_block_ptr` on the mapped bytes. */
  function PtrAt(img: seq<byte>, b: nat, slot: nat): u64 {
    if InMap(img, b) && slot < SLOTS
    then From64(img[b * BLOCK_SIZE + 8 * slot..b * BLOCK_SIZE + 8 * slot + 8])
    else 0
  }

  function Ptrs(img: seq<byte>): Reader {
    (b, slot) => PtrAt(img, b, slot)
  }

  /** A file on an image: its inode, the bytes of payload, and the data area. */
  datatype Source = Source(img: seq<byte>, ino: Inode, size: nat, dataStart: nat, dataEnd: nat)

  /** One call of the walk's callback. */
  datatype Emit = Emit(block: nat, offset: nat, len: nat)

  predicate Usable(s: Source, b: nat) {
    b != 0 && s.dataStart <= b < s.dataEnd
  }

  function BlockOf(s: Source, k: nat): nat {
    Resolve(Ptrs(s.img), s.ino, k)
  }

  // ---------------------------------------------------------------------------
  // The simple walk: resolve every index on its own
  // ---------------------------------------------------------------------------

  function EmitAt(s: Source, k: nat): seq<Emit> {
    if k * BLOCK_SIZE < s.size && Usable(s, BlockOf(s, k))
    then [Emit(BlockOf(s, k), k * BLOCK_SIZE, Min(s.size - k * BLOCK_SIZE, BLOCK_SIZE))]
    else []
  }

  function SimpleWalk(s: Source, n: nat): seq<Emit> {
    if n == 0 then [] else SimpleWalk(s, n - 1) + EmitAt(s, n - 1)
  }

  lemma {:induction false} SkipHoles(s: Source, n: nat, m: nat)
    requires n <= m && forall k :: n <= k < m ==> EmitAt(s, k) == []
    ensures SimpleWalk(s, m) == SimpleWalk(s, n)
    decreases m
  {
    if n < m {
      SkipHoles(s, n, m - 1);
      assert SimpleWalk(s, m - 1) + [] == SimpleWalk(s, m - 1);
    }
  }

  /** What the batched walk has done before it looks at index `k`. */
  predicate Reached(s: Source, out: seq<Emit>, read: nat, k: nat) {
    k <= MAX_LOGICAL_BLOCKS && read == Min(s.size, k * BLOCK_SIZE) && out == SimpleWalk(s, k)
  }

  lemma HoleRange(s: Source, out: seq<Emit>, read: nat, k: nat, m: nat)
    requires Reached(s, out, read, k) && read < s.size && k <= m <= MAX_LOGICAL_BLOCKS
    requires forall i :: k <= i < m ==> BlockOf(s, i) == 0
    ensures Reached(s, out, read + Min((m - k) * BLOCK_SIZE, s.size - read), m)
  {
    hide BlockOf, SimpleWalk;
    forall i | k <= i < m ensures EmitAt(s, i) == [] { assert BlockOf(s, i) == 0; }
    SkipHoles(s, k, m);
  }

  /** Handles index `k`, whose pointer is `b`. */
  method Visit(s: Source, out: seq<Emit>, read: nat, k: nat, b: nat) returns (out': seq<Emit>, read': nat)
    requires Reached(s, out, read, k) && read < s.size && k < MAX_LOGICAL_BLOCKS && b == BlockOf(s, k)
    ensures Reached(s, out', read', k + 1)
  {
    hide BlockOf;
    var toRead := Min(s.size - read, BLOCK_SIZE);
    out' := out;
    if b != 0 && s.dataStart <= b && b < s.dataEnd {
      out' := out + [Emit(b, read, toRead)];
    }
    read' := read + toRead;
    assert out + [] == out;
  }

  // ---------------------------------------------------------------------------
  // The batched walk
  // ---------------------------------------------------------------------------

  lemma SingleBlock(s: Source, k: nat)
    requires DIRECT_BLOCKS <= k < SINGLE_END
    ensures BlockOf(s, k) == if s.ino.blocks[10] == 0 then 0 else PtrAt(s.img, s.ino.blocks[10], k - DIRECT_BLOCKS)
  {
    hide PtrAt;
  }

  lemma DoubleBlock(s: Source, k: nat, a: nat, b: nat)
    requires k == SINGLE_END + SLOTS * a + b && a < SLOTS && b < SLOTS
    ensures BlockOf(s, k) ==
            if s.ino.blocks[11] == 0 then 0
            else var sib := PtrAt(s.img, s.ino.blocks[11], a); if sib == 0 then 0 else PtrAt(s.img, sib, b)
  {
    hide PtrAt;
    PathRoundTrip(Double(a, b));
  }

  lemma TripleBlock(s: Source, k: nat, a: nat, b: nat, c: nat)
    requires k == DOUBLE_END + SLOTS * SLOTS * a + SLOTS * b + c
    requires a < SLOTS && b < SLOTS && c < SLOTS
    ensures BlockOf(s, k) ==
            if s.ino.tripleIndirect == 0 then 0
            else
              var dib := PtrAt(s.img, s.ino.tripleIndirect, a);
              if dib == 0 then 0 else var sib := PtrAt(s.img, dib, b); if sib == 0 then 0 else PtrAt(s.img, sib, c)
  {
    hide PtrAt;
    PathRoundTrip(Triple(a, b, c));
  }

  /** The entries of a pointer block from `slot` on, as long as payload is left; entry `slot` is
      index `k`. */
  method WalkTable(s: Source, out: seq<Emit>, read: nat, k: nat, table: nat, slot: nat)
    returns (out': seq<Emit>, read': nat, k': nat)
    requires Reached(s, out, read, k) && read < s.size && slot < SLOTS
    requires k + (SLOTS - slot) <= MAX_LOGICAL_BLOCKS
    requires forall j :: slot <= j < SLOTS ==> BlockOf(s, k + (j - slot)) == PtrAt(s.img, table, j)
    ensures Reached(s, out', read', k') && k' > k
  {
    hide BlockOf, PtrAt;
    out', read', k' := out, read, k;
    var j := slot;
    while j < SLOTS && read' < s.size
      invariant slot <= j <= SLOTS && k' == k + (j - slot)
      invariant Reached(s, out', read', k')
      invariant j == slot ==> read' < s.size
    {
      out', read' := Visit(s, out', read', k', PtrAt(s.img, table, j));
      k' := k' + 1;
      j := j + 1;
    }
  }

  /** Skips to index `m` over a hole. */
  method Skip(s: Source, ghost out: seq<Emit>, read: nat, k: nat, m: nat) returns (read': nat)
    requires Reached(s, out, read, k) && read < s.size && k <= m <= MAX_LOGICAL_BLOCKS
    requires forall i :: k <= i < m ==> BlockOf(s, i) == 0
    ensures Reached(s, out, read', m)
  {
    HoleRange(s, out, read, k, m);
    read' := read + Min((m - k) * BLOCK_SIZE, s.size - read);
  }

  method WalkSingle(s: Source, out: seq<Emit>, read: nat, k: nat) returns (out': seq<Emit>, read': nat, k': nat)
    requires Reached(s, out, read, k) && read < s.size && DIRECT_BLOCKS <= k < SINGLE_END
    ensures Reached(s, out', read', k') && k' > k
  {
    hide BlockOf, PtrAt, Reached;
    forall i | k <= i < SINGLE_END
      ensures BlockOf(s, i) == if s.ino.blocks[10] == 0 then 0 else PtrAt(s.img, s.ino.blocks[10], i - DIRECT_BLOCKS)
    { SingleBlock(s, i); }
    out', read', k' := out, read, k;
    var sib := s.ino.blocks[10];
    if sib == 0 {
      read' := Skip(s, out, read, k, SINGLE_END);
      k' := SINGLE_END;
    } else if InMap(s.img, sib) {
      out', read', k' := WalkTable(s, out, read, k, sib, k - DIRECT_BLOCKS);
    } else {
      Unmapped(s.img, sib, k - DIRECT_BLOCKS);
      out', read' := Visit(s, out, read, k, 0);
      k' := k + 1;
    }
  }

  lemma Unmapped(img: seq<byte>, b: nat, slot: nat)
    requires !InMap(img, b)
    ensures PtrAt(img, b, slot) == 0
  {
  }

  method WalkDouble(s: Source, out: seq<Emit>, read: nat, k: nat) returns (out': seq<Emit>, read': nat, k': nat)
    requires Reached(s, out, read, k) && read < s.size && SINGLE_END <= k < DOUBLE_END
    ensures Reached(s, out', read', k') && k' > k
  {
    hide BlockOf, PtrAt, Reached;
    out', read', k' := out, read, k;
    var a, b := (k - SINGLE_END) / SLOTS, (k - SINGLE_END) % SLOTS;
    var dib := s.ino.blocks[11];
    if dib == 0 {
      forall i | k <= i < DOUBLE_END ensures BlockOf(s, i) == 0 {
        DoubleBlock(s, i, (i - SINGLE_END) / SLOTS, (i - SINGLE_END) % SLOTS);
      }
      read' := Skip(s, out, read, k, DOUBLE_END);
      k' := DOUBLE_END;
      return;
    }
    var sib := PtrAt(s.img, dib, a);
    forall j | b <= j < SLOTS
      ensures BlockOf(s, k + (j - b)) == if sib == 0 then 0 else PtrAt(s.img, sib, j)
    { DoubleBlock(s, k + (j - b), a, j); }
    if sib == 0 {
      forall i | k <= i < k + (SLOTS - b) ensures BlockOf(s, i) == 0 {
        DoubleBlock(s, i, a, b + (i - k));
      }
      read' := Skip(s, out, read, k, k + (SLOTS - b));
      k' := k + (SLOTS - b);
    } else if InMap(s.img, sib) {
      out', read', k' := WalkTable(s, out, read, k, sib, b);
    } else {
      assert BlockOf(s, k + (b - b)) == PtrAt(s.img, sib, b);
      Unmapped(s.img, sib, b);
      out', read' := Visit(s, out, read, k, 0);
      k' := k + 1;
    }
  }

  method WalkTriple(s: Source, out: seq<Emit>, read: nat, k: nat) returns (out': seq<Emit>, read': nat, k': nat)
    requires Reached(s, out, read, k) && read < s.size && DOUBLE_END <= k < MAX_LOGICAL_BLOCKS
    ensures Reached(s, out', read', k') && k' > k
  {
    hide BlockOf, PtrAt, Reached;
    out', read', k' := out, read, k;
    var rel := k - DOUBLE_END;
    var a, rest := rel / (SLOTS * SLOTS), rel % (SLOTS * SLOTS);
    var b, c := rest / SLOTS, rest % SLOTS;
    var tib := s.ino.tripleIndirect;
    if tib == 0 {
      forall i | k <= i < MAX_LOGICAL_BLOCKS ensures BlockOf(s, i) == 0 { TripleHole(s, i); }
      read' := Skip(s, out, read, k, MAX_LOGICAL_BLOCKS);
      k' := MAX_LOGICAL_BLOCKS;
      return;
    }
    var dib := PtrAt(s.img, tib, a);
    if dib == 0 {
      var m := k + (SLOTS * SLOTS - rest);
      forall i | k <= i < m ensures BlockOf(s, i) == 0 {
        TripleBlock(s, i, a, (rest + (i - k)) / SLOTS, (rest + (i - k)) % SLOTS);
      }
      read' := Skip(s, out, read, k, m);
      k' := m;
      return;
    }
    var sib := PtrAt(s.img, dib, b);
    if sib == 0 {
      var m := k + (SLOTS - c);
      forall i | k <= i < m ensures BlockOf(s, i) == 0 { TripleBlock(s, i, a, b, c + (i - k)); }
      read' := Skip(s, out, read, k, m);
      k' := m;
      return;
    }
    TripleBlock(s, k, a, b, c);
    out', read' := Visit(s, out, read, k, PtrAt(s.img, sib, c));
    k' := k + 1;
  }

  lemma TripleHole(s: Source, i: nat)
    requires s.ino.tripleIndirect == 0 && DOUBLE_END <= i < MAX_LOGICAL_BLOCKS
    ensures BlockOf(s, i) == 0
  {
    var rel := i - DOUBLE_END;
    var rest := rel % (SLOTS * SLOTS);
    TripleBlock(s, i, rel / (SLOTS * SLOTS), rest / SLOTS, rest % SLOTS);
  }

  /** The batched walk calls back exactly as resolving every index on its own would. */
  method WalkPayloadBlocks(s: Source) returns (out: seq<Emit>)
    ensures out == SimpleWalk(s, MAX_LOGICAL_BLOCKS)
  {
    hide BlockOf, PtrAt, EmitAt;
    var read: nat, k: nat := 0, 0;
    out := [];
    while read < s.size && k < MAX_LOGICAL_BLOCKS
      invariant Reached(s, out, read, k)
      decreases MAX_LOGICAL_BLOCKS - k
    {
      if k < DIRECT_BLOCKS {
        DirectBlock(s, k);
        out, read := Visit(s, out, read, k, s.ino.blocks[k]);
        k := k + 1;
      } else if k < SINGLE_END {
        out, read, k := WalkSingle(s, out, read, k);
      } else if k < DOUBLE_END {
        out, read, k := WalkDouble(s, out, read, k);
      } else {
        out, read, k := WalkTriple(s, out, read, k);
      }
    }
    forall i | k <= i < MAX_LOGICAL_BLOCKS ensures EmitAt(s, i) == [] { PastEnd(s, k, i); }
    SkipHoles(s, k, MAX_LOGICAL_BLOCKS);
  }

  lemma DirectBlock(s: Source, k: nat)
    requires k < DIRECT_BLOCKS
    ensures BlockOf(s, k) == s.ino.blocks[k]
  {
  }

  lemma PastEnd(s: Source, k: nat, i: nat)
    requires k <= i && s.size <= k * BLOCK_SIZE
    ensures EmitAt(s, i) == []
  {
  }
}
