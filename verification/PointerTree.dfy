/** Inode pointer tree (src/inode.rs) and its read-only resolution (src/disk.rs). */
module PointerTree {
  import opened Sizes
  import opened Arith
  import opened LastWins

  const DIRECT_BLOCKS := 10
  const SINGLE_END := 522
  const DOUBLE_END := 262666
  const MAX_LOGICAL_BLOCKS := 134480394

  // ---------------------------------------------------------------------------
  // BlockPath
  // ---------------------------------------------------------------------------

  /** Location of a logical block: the slot taken at every level below its root. */
  datatype BlockPath = Direct(i: nat) | Single(i: nat) | Double(a: nat, b: nat) | Triple(a: nat, b: nat, c: nat)

  function FromLogical(idx: nat): (p: Option<BlockPath>) {
    if idx < DIRECT_BLOCKS then Some(Direct(idx))
    else if idx < SINGLE_END then Some(Single(idx - DIRECT_BLOCKS))
    else if idx < DOUBLE_END then
      var rel := idx - SINGLE_END;
      Some(Double(rel / SLOTS, rel % SLOTS))
    else if idx < MAX_LOGICAL_BLOCKS then
      var rel := idx - DOUBLE_END;
      var rem := rel % (SLOTS * SLOTS);
      Some(Triple(rel / (SLOTS * SLOTS), rem / SLOTS, rem % SLOTS))
    else None
  }

  function ToLogical(p: BlockPath): nat {
    match p
    case Direct(i) => i
    case Single(i) => DIRECT_BLOCKS + i
    case Double(a, b) => SINGLE_END + a * SLOTS + b
    case Triple(a, b, c) => DOUBLE_END + a * SLOTS * SLOTS + b * SLOTS + c
  }

  predicate SlotsInBounds(p: BlockPath) {
    match p
    case Direct(i) => i < DIRECT_BLOCKS
    case Single(i) => i < SLOTS
    case Double(a, b) => a < SLOTS && b < SLOTS
    case Triple(a, b, c) => a < SLOTS && b < SLOTS && c < SLOTS
  }

  /** Every addressable index has exactly one in-bounds path, and every in-bounds path one index. */
  lemma LogicalRoundTrip(idx: nat)
    ensures FromLogical(idx).Some? <==> idx < MAX_LOGICAL_BLOCKS
    ensures FromLogical(idx).Some? ==> SlotsInBounds(FromLogical(idx).value) && ToLogical(FromLogical(idx).value) == idx
  {
  }

  lemma PathRoundTrip(p: BlockPath)
    requires SlotsInBounds(p)
    ensures FromLogical(ToLogical(p)) == Some(p)
  {
    match p
    case Direct(_) =>
    case Single(_) =>
    case Double(a, b) => DivMod(a, b);
    case Triple(a, b, c) =>
      var inner := b * SLOTS + c;
      DivMod(b, c);
      assert (a * (SLOTS * SLOTS) + inner) / (SLOTS * SLOTS) == a;
      assert (a * (SLOTS * SLOTS) + inner) % (SLOTS * SLOTS) == inner;
  }

  function Depth(p: BlockPath): nat {
    match p
    case Direct(_) => 0
    case Single(_) => 1
    case Double(_, _) => 2
    case Triple(_, _, _) => 3
  }

  /** Shallower paths first, paths of one depth slot by slot from the root. */
  predicate PathLess(p: BlockPath, q: BlockPath) {
    match (p, q)
    case (Direct(i), Direct(j)) => i < j
    case (Single(i), Single(j)) => i < j
    case (Double(a, b), Double(a', b')) => a < a' || (a == a' && b < b')
    case (Triple(a, b, c), Triple(a', b', c')) => a < a' || (a == a' && (b < b' || (b == b' && c < c')))
    case (_, _) => Depth(p) < Depth(q)
  }

  /** Indices and paths are in the same order. */
  lemma PathsInOrder(p: BlockPath, q: BlockPath)
    requires SlotsInBounds(p) && SlotsInBounds(q)
    ensures PathLess(p, q) <==> ToLogical(p) < ToLogical(q)
  {
    match (p, q)
    case (Double(a, b), Double(a', b')) =>
      PairLess(SLOTS, a, b, a', b');
    case (Triple(a, b, c), Triple(a', b', c')) =>
      PairLess(SLOTS, b, c, b', c');
      PairLess(SLOTS * SLOTS, a, b * SLOTS + c, a', b' * SLOTS + c');
    case (_, _) =>
  }

  lemma PairLess(n: nat, a: nat, b: nat, a': nat, b': nat)
    requires b < n && b' < n
    ensures a * n + b < a' * n + b' <==> a < a' || (a == a' && b < b')
  {
    if a < a' { assert (a + 1) * n <= a' * n; }
    if a' < a { assert (a' + 1) * n <= a * n; }
  }

  lemma DivMod(a: nat, b: nat)
    requires b < SLOTS
    ensures (a * SLOTS + b) / SLOTS == a
    ensures (a * SLOTS + b) % SLOTS == b
  {
  }

  // ---------------------------------------------------------------------------
  // ChunkEntry
  // ---------------------------------------------------------------------------

  const FLAG_EMPTY := 0
  const FLAG_COMPRESSED := 1
  const FLAG_RAW := 2

  /** The packed 64-bit chunk entry of a seekable file: start block (32 bits), block count (8),
      flags (8), stored length (16). */
  function PackEntry(start: nat, count: nat, flags: nat, len: nat): nat
    requires start < 0x1_0000_0000 && count < 256 && flags < 256 && len < 0x1_0000
  {
    start + count * 0x1_0000_0000 + flags * 0x100_0000_0000 + len * 0x1_0000_0000_0000
  }

  function EntryStart(raw: nat): (r: nat)
    ensures r < 0x1_0000_0000
  {
    raw % 0x1_0000_0000
  }

  function EntryCount(raw: nat): (r: nat)
    ensures r < 256
  {
    raw / 0x1_0000_0000 % 256
  }

  function EntryFlags(raw: nat): (r: nat)
    ensures r < 256
  {
    raw / 0x100_0000_0000 % 256
  }

  function EntryLen(raw: nat): (r: nat)
    ensures r < 0x1_0000
  {
    raw / 0x1_0000_0000_0000 % 0x1_0000
  }

  predicate EntryIsEmpty(raw: nat) {
    raw == 0 || EntryFlags(raw) == FLAG_EMPTY
  }

  lemma EntryRoundTrip(start: nat, count: nat, flags: nat, len: nat)
    requires start < 0x1_0000_0000 && count < 256 && flags < 256 && len < 0x1_0000
    ensures var e := PackEntry(start, count, flags, len);
            && EntryStart(e) == start && EntryCount(e) == count && EntryFlags(e) == flags && EntryLen(e) == len
            && (EntryIsEmpty(e) <==> flags == FLAG_EMPTY)
  {
    var e := PackEntry(start, count, flags, len);
    Split(start, count + 256 * (flags + 256 * len), 0x1_0000_0000, e);
    Split(start + 0x1_0000_0000 * count, flags + 256 * len, 0x100_0000_0000, e);
    Split(start + 0x1_0000_0000 * count + 0x100_0000_0000 * flags, len, 0x1_0000_0000_0000, e);
    Split(count, flags + 256 * len, 256, count + 256 * (flags + 256 * len));
    Split(flags, len, 256, flags + 256 * len);
  }

  /** A non-empty entry is far above every block id, so the two kinds of slot value never clash. */
  lemma NonEmptyEntryIsLarge(raw: nat)
    requires !EntryIsEmpty(raw)
    ensures raw >= 0x100_0000_0000
  {
  }

  // ---------------------------------------------------------------------------
  // Inodes and resolution
  // ---------------------------------------------------------------------------

  datatype FileType = File | Directory

  /** The fields of an inode record this model needs: `blocks[0..10]` are direct pointers,
      `blocks[10]` and `blocks[11]` the single and double indirect roots. */
  datatype RawInode = Inode(mode: FileType, size: nat, blocks: seq<nat>, tripleIndirect: nat, seekable: bool)

  type Inode = i: RawInode | |i.blocks| == 12 witness Inode(File, 0, seq(12, _ => 0), 0, false)

  /** Pointer slot `slot` of block `block`; 0 when the block lies outside the image. */
  type Reader = (nat, nat) -> nat

  /** Follows one pointer level; a zero pointer is a sparse hole. */
  function Follow(rd: Reader, parent: nat, slot: nat): nat {
    if parent == 0 then 0 else rd(parent, slot)
  }

  function Resolve(rd: Reader, ino: Inode, idx: nat): nat {
    match FromLogical(idx)
    case Some(Direct(i)) => if i < DIRECT_BLOCKS then ino.blocks[i] else 0
    case Some(Single(i)) => Follow(rd, ino.blocks[10], i)
    case Some(Double(a, b)) => Follow(rd, Follow(rd, ino.blocks[11], a), b)
    case Some(Triple(a, b, c)) => Follow(rd, Follow(rd, Follow(rd, ino.tripleIndirect, a), b), c)
    case None => 0
  }

  /** Follows `path` from `root`, one slot per level. */
  ghost function Walk(rd: Reader, root: nat, path: seq<nat>): nat
    decreases |path|
  {
    if path == [] then root else Walk(rd, Follow(rd, root, path[0]), path[1..])
  }

  lemma {:induction false} WalkFromHole(rd: Reader, path: seq<nat>)
    ensures Walk(rd, 0, path) == 0
  {
    if path != [] { WalkFromHole(rd, path[1..]); }
  }

  /** The inode slot a path starts from. */
  function RootOf(ino: Inode, p: BlockPath): nat
    requires SlotsInBounds(p)
  {
    match p
    case Direct(i) => ino.blocks[i]
    case Single(_) => ino.blocks[10]
    case Double(_, _) => ino.blocks[11]
    case Triple(_, _, _) => ino.tripleIndirect
  }

  /** The slots taken below that root. */
  function PathOf(p: BlockPath): (r: seq<nat>)
    ensures SlotsInBounds(p) ==> InSlots(r)
  {
    match p
    case Direct(_) => []
    case Single(i) => [i]
    case Double(a, b) => [a, b]
    case Triple(a, b, c) => [a, b, c]
  }

  predicate InSlots(path: seq<nat>) {
    forall i :: 0 <= i < |path| ==> path[i] < SLOTS
  }

  lemma WalkOne(rd: Reader, root: nat, i: nat)
    ensures Walk(rd, root, [i]) == Follow(rd, root, i)
  {
    assert [i][1..] == [];
  }

  /** Resolution is a walk. */
  lemma ResolveIsWalk(rd: Reader, ino: Inode, idx: nat)
    requires idx < MAX_LOGICAL_BLOCKS
    ensures FromLogical(idx).Some? && SlotsInBounds(FromLogical(idx).value)
    ensures var p := FromLogical(idx).value; Resolve(rd, ino, idx) == Walk(rd, RootOf(ino, p), PathOf(p))
  {
    LogicalRoundTrip(idx);
    match FromLogical(idx).value
    case Direct(_) =>
    case Single(i) => WalkOne(rd, ino.blocks[10], i);
    case Double(a, b) =>
      assert [a, b][1..] == [b];
      WalkOne(rd, Follow(rd, ino.blocks[11], a), b);
    case Triple(a, b, c) =>
      assert [a, b, c][1..] == [b, c] && [b, c][1..] == [c];
      var dib := Follow(rd, ino.tripleIndirect, a);
      assert Walk(rd, dib, [b, c]) == Walk(rd, Follow(rd, dib, b), [c]);
      WalkOne(rd, Follow(rd, dib, b), c);
  }
}
