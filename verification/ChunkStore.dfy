/** Blocks, their allocation, and who owns them: the pointer blocks and chunk runs of a seekable file. */
module ChunkStore {
  import opened Sizes
  import opened LastWins
  import opened BitList
  import opened PointerTree
  import opened TreePositions
  import opened Allocator
  import opened ChunkTree

  const MAX_BLOCKS := 0x1_0000_0000

  /** The image: its blocks, the bitmap of the data area that starts at `dataStart`, and the hint. */
  datatype Store = Store(blocks: Blocks, dataStart: nat, used: seq<bool>, hint: nat)

  /** The ids the bitmap tracks fit a chunk entry. They may lie past the end of the image. */
  predicate StoreOk(st: Store) {
    0 < st.dataStart && st.dataStart + |st.used| <= MAX_BLOCKS
  }

  /** Not up for allocation. */
  predicate Taken(st: Store, b: nat) {
    b < st.dataStart || b - st.dataStart >= |st.used| || st.used[b - st.dataStart]
  }

  predicate InRun(start: nat, count: nat, b: nat) {
    start <= b < start + count
  }

  predicate SameShape(st: Store, st': Store) {
    st'.dataStart == st.dataStart && |st'.blocks| == |st.blocks| && |st'.used| == |st.used|
  }

  // ---------------------------------------------------------------------------
  // Allocation
  // ---------------------------------------------------------------------------

  /** `alloc_and_zero_block`. */
  function GrabBlock(st: Store): (r: Option<(Store, nat)>)
    ensures r.Some? ==> r.value.1 < |st.blocks| && r.value.1 < st.dataStart + |st.used|
    ensures r.Some? ==> SameShape(st, r.value.0)
  {
    match SimAlloc(st.used, st.dataStart, |st.blocks|, st.hint)
    case None => None
    case Some(b) =>
      var used := SetBits(st.used, b - st.dataStart, 1, true);
      Some((st.(blocks := st.blocks[b := ZeroBlock()], used := used, hint := b + 1), b))
  }

  /** `allocate_contiguous_blocks_internal`; it does not compare the run with the end of the image. */
  function GrabRun(st: Store, count: nat): (r: Option<(Store, nat)>)
    ensures r.Some? ==> SameShape(st, r.value.0)
    ensures r.Some? && count > 0 ==> r.value.1 + count <= st.dataStart + |st.used|
  {
    if count == 0 then Some((st, st.hint))
    else match NextFit(st.used, HintBit(Some(st.hint), st.dataStart), count)
      case None => None
      case Some(bit) =>
        Some((st.(used := SetBits(st.used, bit, count, true), hint := st.dataStart + bit + count), st.dataStart + bit))
  }

  /** `free_contiguous_blocks_internal`. */
  function FreeRun(st: Store, start: nat, count: nat): Store {
    if count == 0 then st
    else st.(used := if start < st.dataStart then st.used else SetBits(st.used, start - st.dataStart, count, false),
             hint := if start < st.hint then start else st.hint)
  }

  lemma GrabBlockIs(st: Store)
    requires StoreOk(st) && GrabBlock(st).Some?
    ensures var (st', b) := GrabBlock(st).value;
            && StoreOk(st') && !Taken(st, b) && st.dataStart <= b < |st.blocks| && b < st.dataStart + |st.used|
            && st'.blocks == st.blocks[b := ZeroBlock()] && SameShape(st, st')
            && forall c :: Taken(st', c) <==> Taken(st, c) || c == b
  {
    NextFreeExact(st.used, HintBit(Some(st.hint), st.dataStart));
  }

  lemma GrabRunIs(st: Store, count: nat)
    requires StoreOk(st) && count > 0 && GrabRun(st, count).Some?
    ensures var (st', start) := GrabRun(st, count).value;
            && StoreOk(st') && st'.blocks == st.blocks && SameShape(st, st')
            && st.dataStart <= start && start + count <= st.dataStart + |st.used|
            && (forall c :: InRun(start, count, c) ==> !Taken(st, c))
            && forall c :: Taken(st', c) <==> Taken(st, c) || InRun(start, count, c)
  {
    hide FirstFit;
    var bit := NextFit(st.used, HintBit(Some(st.hint), st.dataStart), count).value;
    assert BitList.FreeRun(st.used, bit, count);
    assert !st.used[bit + count - 1];
  }

  lemma FreeRunIs(st: Store, start: nat, count: nat)
    requires StoreOk(st)
    ensures var st' := FreeRun(st, start, count);
            && StoreOk(st') && st'.blocks == st.blocks && SameShape(st, st')
            && (forall c :: !InRun(start, count, c) ==> (Taken(st', c) <==> Taken(st, c)))
            && (st.dataStart <= start && start + count <= st.dataStart + |st.used| ==>
                  forall c :: InRun(start, count, c) ==> !Taken(st', c))
  {
  }

  // ---------------------------------------------------------------------------
  // Ownership
  // ---------------------------------------------------------------------------

  /** What a block of the file is used for: the pointer block at a position, or a chunk. */
  datatype Owner = Table(p: Pos) | Chunk(k: nat)

  function EntryAt(blocks: Blocks, ino: Inode, k: nat): nat
    requires k < MAX_LOGICAL_BLOCKS
  {
    Node(Slots(blocks), ino, Leaf(k))
  }

  function TableAt(blocks: Blocks, ino: Inode, p: Pos): nat
    requires InTree(p)
  {
    Node(Slots(blocks), ino, p)
  }

  ghost predicate EntryHas(e: nat, b: nat) {
    !EntryIsEmpty(e) && InRun(EntryStart(e), EntryCount(e), b)
  }

  ghost predicate Owns(blocks: Blocks, ino: Inode, o: Owner, b: nat) {
    match o
    case Table(p) => InTree(p) && !p.Leaf? && b != 0 && TableAt(blocks, ino, p) == b
    case Chunk(k) => k < MAX_LOGICAL_BLOCKS && EntryHas(EntryAt(blocks, ino, k), b)
  }

  /** Every block has at most one owner. */
  ghost predicate Exclusive(blocks: Blocks, ino: Inode) {
    forall o, o', b: nat :: Owns(blocks, ino, o, b) && Owns(blocks, ino, o', b) ==> o == o'
  }

  /** A block the bitmap tracks. */
  predicate Tracked(st: Store, b: nat) {
    st.dataStart <= b < st.dataStart + |st.used|
  }

  /** Every owned block is tracked and taken, and every pointer block lies inside the image. */
  ghost predicate Housed(st: Store, ino: Inode) {
    forall o, b: nat :: Owns(st.blocks, ino, o, b) ==> Tracked(st, b) && Taken(st, b) && (o.Table? ==> b < |st.blocks|)
  }

  ghost predicate FileOk(st: Store, ino: Inode) {
    StoreOk(st) && Exclusive(st.blocks, ino) && Housed(st, ino)
  }

  /** Taken, and not by this file. */
  ghost predicate Foreign(st: Store, ino: Inode, b: nat) {
    Taken(st, b) && forall o :: !Owns(st.blocks, ino, o, b)
  }

  lemma ExclusiveTables(blocks: Blocks, ino: Inode)
    requires Exclusive(blocks, ino)
    ensures TablesOnce(Slots(blocks), ino)
  {
    hide Node;
    forall p, q | InTree(p) && InTree(q) && !p.Leaf? && !q.Leaf? && p != q && Node(Slots(blocks), ino, p) != 0
      ensures Node(Slots(blocks), ino, p) != Node(Slots(blocks), ino, q)
    {
      var b := Node(Slots(blocks), ino, p);
      assert Owns(blocks, ino, Table(p), b);
      assert Node(Slots(blocks), ino, q) == b ==> Owns(blocks, ino, Table(q), b);
    }
  }

  /** Blocks that differ only where nothing is owned carry the same tree. */
  lemma SameTree(blocks: Blocks, blocks': Blocks, ino: Inode)
    requires |blocks'| == |blocks|
    requires forall b :: 0 <= b < |blocks| && blocks'[b] != blocks[b] ==>
               forall p :: InTree(p) ==> !Owns(blocks, ino, Table(p), b)
    ensures forall q :: InTree(q) ==> TableAt(blocks', ino, q) == TableAt(blocks, ino, q)
    ensures forall o, b: nat :: Owns(blocks', ino, o, b) <==> Owns(blocks, ino, o, b)
  {
    hide Node, Slot;
    var rd, rd' := Slots(blocks), Slots(blocks');
    forall p, s | InTree(p) && !p.Leaf? && Node(rd, ino, p) != 0 && 0 <= s < SLOTS
      ensures rd'(Node(rd, ino, p), s) == rd(Node(rd, ino, p), s)
    {
      var b := Node(rd, ino, p);
      assert Owns(blocks, ino, Table(p), b);
      SameSlot(blocks, blocks', b, s);
    }
    forall q | InTree(q) ensures TableAt(blocks', ino, q) == TableAt(blocks, ino, q) { SameTables(rd, rd', ino, q); }
    forall k: nat | k < MAX_LOGICAL_BLOCKS ensures EntryAt(blocks', ino, k) == EntryAt(blocks, ino, k) {
      assert TableAt(blocks', ino, Leaf(k)) == TableAt(blocks, ino, Leaf(k));
    }
  }

  lemma SameSlot(blocks: Blocks, blocks': Blocks, b: nat, s: nat)
    requires |blocks'| == |blocks| && (b < |blocks| ==> blocks'[b] == blocks[b])
    ensures Slot(blocks', b, s) == Slot(blocks, b, s)
  {
  }

  /** Changes outside the file keep it in order. */
  lemma Undisturbed(st: Store, st': Store, ino: Inode)
    requires FileOk(st, ino) && SameShape(st, st')
    requires forall b :: 0 <= b < |st.blocks| && st'.blocks[b] != st.blocks[b] ==>
               forall o :: !Owns(st.blocks, ino, o, b)
    requires forall o, b: nat :: Owns(st.blocks, ino, o, b) ==> Taken(st', b)
    ensures FileOk(st', ino)
    ensures forall q :: InTree(q) ==> TableAt(st'.blocks, ino, q) == TableAt(st.blocks, ino, q)
    ensures forall o, b: nat :: Owns(st'.blocks, ino, o, b) <==> Owns(st.blocks, ino, o, b)
  {
    hide TableAt, EntryAt, Owns, Taken;
    SameTree(st.blocks, st'.blocks, ino);
  }
}
