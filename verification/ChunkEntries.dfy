/** Setting a chunk entry (src/disk.rs, `set_logical_chunk_entry`): the pointer blocks above it are
    allocated as needed, and nothing else changes. */
module ChunkEntries {
  import opened Sizes
  import opened Bytes
  import opened LastWins
  import opened PointerTree
  import opened TreePositions
  import opened ChunkTree
  import opened ChunkStore

  // ---------------------------------------------------------------------------
  // The operation
  // ---------------------------------------------------------------------------

  /** `get_child`. */
  function EnsureChild(st: Store, parent: nat, s: nat): (r: (Store, Option<nat>))
    requires s < SLOTS && StoreOk(st)
    ensures SameShape(st, r.0)
  {
    var child := Slot(st.blocks, parent, s);
    if child != 0 then (st, Some(child))
    else match GrabBlock(st)
      case None => (st, None)
      case Some((st', b)) => (st'.(blocks := WriteSlot(st'.blocks, parent, s, b)), Some(b))
  }

  /** `ensure_root` and the `get_child` calls that lead to the pointer block at `p`. When no block is
      left, the pointer blocks made so far stay. */
  function EnsureTable(st: Store, ino: Inode, p: Pos): (r: (Store, Inode, Option<nat>))
    requires InTree(p) && !p.Leaf? && StoreOk(st)
    ensures SameShape(st, r.0)
    decreases Rank(p)
  {
    match Up(p)
    case None =>
      if InodeSlot(ino, p) != 0 then (st, ino, Some(InodeSlot(ino, p)))
      else (match GrabBlock(st)
            case None => (st, ino, None)
            case Some((st', b)) => (st', WithSlot(ino, p, b), Some(b)))
    case Some((t, s)) =>
      var (st1, ino1, parent) := EnsureTable(st, ino, t);
      if parent.None? then (st1, ino1, None)
      else var (st2, child) := EnsureChild(st1, parent.value, s); (st2, ino1, child)
  }

  /** The new image and inode, and whether the entry was set. */
  function SetEntry(st: Store, ino: Inode, k: nat, raw: u64): (r: (Store, Inode, bool))
    requires StoreOk(st)
    ensures SameShape(st, r.0)
  {
    if k >= MAX_LOGICAL_BLOCKS then (st, ino, false)
    else match Up(Leaf(k))
      case None => (st, WithSlot(ino, Leaf(k), raw), true)
      case Some((t, s)) =>
        var (st', ino', table) := EnsureTable(st, ino, t);
        if table.None? then (st', ino', false)
        else (st'.(blocks := WriteSlot(st'.blocks, table.value, s, raw)), ino', true)
  }

  // ---------------------------------------------------------------------------
  // What it keeps
  // ---------------------------------------------------------------------------

  /** The inode's own pointers to pointer blocks: set at most once, and never changed. */
  predicate RootsGrow(ino: Inode, ino': Inode) {
    && (forall i :: 10 <= i < 12 && ino.blocks[i] != 0 ==> ino'.blocks[i] == ino.blocks[i])
    && (ino.tripleIndirect != 0 ==> ino'.tripleIndirect == ino.tripleIndirect)
  }

  /** What belongs to others stays theirs and as it is. */
  ghost predicate SparesOthers(st: Store, ino: Inode, st': Store, ino': Inode) {
    && SameShape(st, st')
    && forall b: nat :: Foreign(st, ino, b) ==>
         Foreign(st', ino', b) && (b < |st.blocks| ==> st'.blocks[b] == st.blocks[b])
  }

  ghost predicate SameEntries(blocks: Blocks, ino: Inode, blocks': Blocks, ino': Inode) {
    forall k :: 0 <= k < MAX_LOGICAL_BLOCKS ==> EntryAt(blocks', ino', k) == EntryAt(blocks, ino, k)
  }

  ghost predicate SameChunks(blocks: Blocks, ino: Inode, blocks': Blocks) {
    forall k, b: nat ::
      0 <= k < MAX_LOGICAL_BLOCKS && Owns(blocks, ino, Chunk(k), b) && b < |blocks| && b < |blocks'| ==>
        blocks'[b] == blocks[b]
  }

  /** A step that keeps the file in order, its entries and chunks, and everything that is not its own. */
  ghost predicate Keeps(st: Store, ino: Inode, st': Store, ino': Inode) {
    && FileOk(st', ino') && SparesOthers(st, ino, st', ino')
    && SameEntries(st.blocks, ino, st'.blocks, ino') && SameChunks(st.blocks, ino, st'.blocks)
  }

  /** Nothing is taken afterwards that neither the file owns nor anybody owned before: no leak. */
  ghost predicate LeaksNothing(st: Store, ino: Inode, st': Store, ino': Inode) {
    forall b: nat :: Foreign(st', ino', b) ==> Foreign(st, ino, b)
  }

  /** A step that only adds pointer blocks. */
  ghost predicate AddsTables(st: Store, ino: Inode, st': Store, ino': Inode) {
    Keeps(st, ino, st', ino') && LeaksNothing(st, ino, st', ino')
  }

  lemma AddsNothing(st: Store, ino: Inode)
    requires FileOk(st, ino)
    ensures AddsTables(st, ino, st, ino)
  {
    hide EntryAt, Owns, Exclusive, Housed;
  }

  lemma AddsMore(a: Store, i: Inode, b: Store, j: Inode, c: Store, k: Inode)
    requires AddsTables(a, i, b, j) && AddsTables(b, j, c, k)
    ensures AddsTables(a, i, c, k)
  {
    hide EntryAt, Exclusive, Housed, Taken;
    forall n: nat, x: nat | n < MAX_LOGICAL_BLOCKS && Owns(a.blocks, i, Chunk(n), x) && x < |a.blocks|
      ensures c.blocks[x] == a.blocks[x]
    {
      assert Owns(b.blocks, j, Chunk(n), x);
    }
  }

  /** A fresh zero block, taken and not yet linked. */
  lemma Grabbed(st: Store, ino: Inode)
    requires FileOk(st, ino) && GrabBlock(st).Some?
    ensures var (st', b) := GrabBlock(st).value;
            && Keeps(st, ino, st', ino) && Tracked(st', b) && b < |st.blocks| && st'.blocks[b] == ZeroBlock()
            && !Foreign(st, ino, b) && Foreign(st', ino, b)
            && (forall q :: InTree(q) ==> TableAt(st'.blocks, ino, q) == TableAt(st.blocks, ino, q))
            && (forall c: nat :: Foreign(st', ino, c) ==> c == b || Foreign(st, ino, c))
  {
    hide EntryAt, TableAt, Owns, Exclusive, Taken, GrabBlock;
    GrabBlockIs(st);
    var (st', b) := GrabBlock(st).value;
    assert forall o :: !Owns(st.blocks, ino, o, b);
    Undisturbed(st, st', ino);
    forall k: nat | k < MAX_LOGICAL_BLOCKS ensures EntryAt(st'.blocks, ino, k) == EntryAt(st.blocks, ino, k) {
      EntryIsNode(st.blocks, ino, k);
      EntryIsNode(st'.blocks, ino, k);
    }
  }

  lemma EntryIsNode(blocks: Blocks, ino: Inode, k: nat)
    requires k < MAX_LOGICAL_BLOCKS
    ensures EntryAt(blocks, ino, k) == TableAt(blocks, ino, Leaf(k))
  {
  }

  /** The owners after an empty position got block `b`. */
  lemma LinkedOwners(blocks: Blocks, ino: Inode, blocks': Blocks, ino': Inode, p: Pos, b: nat)
    requires InTree(p) && !p.Leaf? && TableAt(blocks, ino, p) == 0 && b != 0
    requires forall q :: InTree(q) ==> TableAt(blocks', ino', q) == if q == p then b else TableAt(blocks, ino, q)
    ensures forall o, c: nat :: Owns(blocks', ino', o, c) <==> Owns(blocks, ino, o, c) || (o == Table(p) && c == b)
    ensures SameEntries(blocks, ino, blocks', ino')
  {
    hide TableAt, EntryAt;
    forall k: nat | k < MAX_LOGICAL_BLOCKS ensures EntryAt(blocks', ino', k) == EntryAt(blocks, ino, k) {
      EntryIsNode(blocks, ino, k);
      EntryIsNode(blocks', ino', k);
    }
  }

  /** Linking a fresh block into the tree; only its parent block may have changed. */
  lemma Linked(st: Store, ino: Inode, st': Store, ino': Inode, p: Pos, b: nat, parent: Option<nat>)
    requires FileOk(st, ino) && Foreign(st, ino, b) && Tracked(st, b) && b < |st.blocks|
    requires InTree(p) && !p.Leaf? && TableAt(st.blocks, ino, p) == 0
    requires forall q :: InTree(q) ==> TableAt(st'.blocks, ino', q) == if q == p then b else TableAt(st.blocks, ino, q)
    requires st' == st.(blocks := st'.blocks) && |st'.blocks| == |st.blocks|
    requires forall c :: 0 <= c < |st.blocks| && st'.blocks[c] != st.blocks[c] ==> parent == Some(c)
    requires parent.Some? ==> exists t :: Owns(st.blocks, ino, Table(t), parent.value)
    ensures FileOk(st', ino')
    ensures SameEntries(st.blocks, ino, st'.blocks, ino') && SameChunks(st.blocks, ino, st'.blocks)
    ensures forall c: nat :: Foreign(st, ino, c) && c != b ==>
              Foreign(st', ino', c) && (c < |st.blocks| ==> st'.blocks[c] == st.blocks[c])
    ensures forall c: nat :: Foreign(st', ino', c) ==> Foreign(st, ino, c) && c != b
  {
    hide TableAt, EntryAt, Owns;
    assert b != 0;
    LinkedOwners(st.blocks, ino, st'.blocks, ino', p, b);
    assert forall c: nat :: Taken(st', c) <==> Taken(st, c);
    assert Owns(st'.blocks, ino', Table(p), b);
    forall c: nat | Foreign(st', ino', c) ensures Foreign(st, ino, c) && c != b {
      assert forall o :: Owns(st.blocks, ino, o, c) ==> Owns(st'.blocks, ino', o, c);
    }
    if parent.Some? {
      var t :| Owns(st.blocks, ino, Table(t), parent.value);
      forall k, c: nat | 0 <= k < MAX_LOGICAL_BLOCKS && Owns(st.blocks, ino, Chunk(k), c) && c < |st.blocks|
        ensures st'.blocks[c] == st.blocks[c]
      {
        assert c != parent.value;
      }
    }
  }

  /** The composed step: what was foreign before the grab stays foreign after the link. */
  lemma GrabAndLink(st: Store, ino: Inode, st1: Store, b: nat, st2: Store, ino2: Inode)
    requires FileOk(st, ino) && Keeps(st, ino, st1, ino) && !Foreign(st, ino, b)
    requires forall c: nat :: Foreign(st1, ino, c) ==> c == b || Foreign(st, ino, c)
    requires forall c: nat :: Foreign(st2, ino2, c) ==> Foreign(st1, ino, c) && c != b
    requires FileOk(st2, ino2) && SameEntries(st1.blocks, ino, st2.blocks, ino2)
    requires SameChunks(st1.blocks, ino, st2.blocks)
    requires st2 == st1.(blocks := st2.blocks) && |st2.blocks| == |st1.blocks|
    requires forall c: nat :: Foreign(st1, ino, c) && c != b ==>
               Foreign(st2, ino2, c) && (c < |st1.blocks| ==> st2.blocks[c] == st1.blocks[c])
    ensures AddsTables(st, ino, st2, ino2)
  {
    hide EntryAt, Exclusive, Housed, Taken, Foreign;
    forall n: nat, x: nat | n < MAX_LOGICAL_BLOCKS && Owns(st.blocks, ino, Chunk(n), x) && x < |st.blocks|
      ensures st2.blocks[x] == st.blocks[x]
    {
      assert Owns(st1.blocks, ino, Chunk(n), x);
    }
  }

  lemma ZeroTableOf(blocks: Blocks, b: nat)
    requires b < |blocks| && blocks[b] == ZeroBlock()
    ensures ZeroTable(Slots(blocks), b)
  {
    forall s | 0 <= s < SLOTS ensures Slots(blocks)(b, s) == 0 { ZeroSlot(s, blocks, b); }
  }

  lemma RootEnsured(st: Store, ino: Inode, p: Pos)
    requires FileOk(st, ino) && InTree(p) && !p.Leaf? && Up(p).None? && InodeSlot(ino, p) == 0 && GrabBlock(st).Some?
    ensures var (st', b) := GrabBlock(st).value;
            AddsTables(st, ino, st', WithSlot(ino, p, b)) && TableAt(st'.blocks, WithSlot(ino, p, b), p) == b != 0
  {
    hide Owns, Exclusive, Taken, GrabBlock, SameEntries, SameChunks, WithSlot, Foreign;
    Grabbed(st, ino);
    var (st', b) := GrabBlock(st).value;
    var ino' := WithSlot(ino, p, b);
    ZeroTableOf(st'.blocks, b);
    forall q | InTree(q) ensures TableAt(st'.blocks, ino', q) == if q == p then b else TableAt(st'.blocks, ino, q) {
      NodeAfterRoot(Slots(st'.blocks), ino, p, b, q);
    }
    Linked(st', ino, st', ino', p, b, None);
    GrabAndLink(st, ino, st', b, st', ino');
  }

  lemma ChildEnsured(st: Store, ino: Inode, p: Pos)
    requires FileOk(st, ino) && InTree(p) && !p.Leaf? && Up(p).Some? && TableAt(st.blocks, ino, Up(p).value.0) != 0
    ensures var (st', b) := EnsureChild(st, TableAt(st.blocks, ino, Up(p).value.0), Up(p).value.1);
            AddsTables(st, ino, st', ino) && (b.Some? ==> TableAt(st'.blocks, ino, p) == b.value != 0)
  {
    hide Owns, Exclusive, Taken, GrabBlock, SameEntries, SameChunks, Foreign, Slot, Node, AddsTables, Keeps;
    var (t, s) := Up(p).value;
    var parent := TableAt(st.blocks, ino, t);
    ChildIsSlot(st.blocks, ino, p);
    if Slot(st.blocks, parent, s) != 0 || GrabBlock(st).None? {
      AddsNothing(st, ino);
    } else {
      Grabbed(st, ino);
      var (st1, b) := GrabBlock(st).value;
      assert FileOk(st1, ino) by { KeepsIsOk(st, ino, st1, ino); }
      LinkChild(st1, ino, p, b);
      var st2 := st1.(blocks := WriteSlot(st1.blocks, parent, s, b));
      GrabAndLink(st, ino, st1, b, st2, ino);
    }
  }

  lemma AddsIsOk(st: Store, ino: Inode, st': Store, ino': Inode)
    requires AddsTables(st, ino, st', ino')
    ensures FileOk(st', ino')
  {
  }

  lemma KeepsIsOk(st: Store, ino: Inode, st': Store, ino': Inode)
    requires Keeps(st, ino, st', ino')
    ensures FileOk(st', ino')
  {
  }

  lemma ChildIsSlot(blocks: Blocks, ino: Inode, p: Pos)
    requires InTree(p) && Up(p).Some? && TableAt(blocks, ino, Up(p).value.0) != 0
    ensures TableAt(blocks, ino, p) == Slot(blocks, TableAt(blocks, ino, Up(p).value.0), Up(p).value.1)
  {
    hide Slot;
  }

  /** Writing a fresh block's id into its parent. */
  lemma LinkChild(st: Store, ino: Inode, p: Pos, b: u64)
    requires FileOk(st, ino) && InTree(p) && !p.Leaf? && Up(p).Some? && TableAt(st.blocks, ino, Up(p).value.0) != 0
    requires TableAt(st.blocks, ino, p) == 0 && Foreign(st, ino, b) && Tracked(st, b)
    requires b < |st.blocks| && st.blocks[b] == ZeroBlock()
    ensures var parent := TableAt(st.blocks, ino, Up(p).value.0);
            var st' := st.(blocks := WriteSlot(st.blocks, parent, Up(p).value.1, b));
            && FileOk(st', ino) && TableAt(st'.blocks, ino, p) == b
            && SameEntries(st.blocks, ino, st'.blocks, ino) && SameChunks(st.blocks, ino, st'.blocks)
            && (forall c: nat :: Foreign(st, ino, c) && c != b ==>
                  Foreign(st', ino, c) && (c < |st.blocks| ==> st'.blocks[c] == st.blocks[c]))
            && (forall c: nat :: Foreign(st', ino, c) ==> Foreign(st, ino, c) && c != b)
  {
    hide Exclusive, Taken, SameEntries, SameChunks, Slot, Node;
    var (t, s) := Up(p).value;
    var parent := TableAt(st.blocks, ino, t);
    assert Owns(st.blocks, ino, Table(t), parent);
    assert b != parent;
    SlotWritten(st, ino, p, b);
    var st' := st.(blocks := WriteSlot(st.blocks, parent, s, b));
    Linked(st, ino, st', ino, p, b, Some(parent));
  }

  /** The tree after the slot of `p` was written. */
  lemma SlotWritten(st: Store, ino: Inode, p: Pos, v: u64)
    requires FileOk(st, ino) && InTree(p) && Up(p).Some? && TableAt(st.blocks, ino, Up(p).value.0) != 0
    requires p.Leaf? || (TableAt(st.blocks, ino, p) == 0 && v < |st.blocks| && st.blocks[v] == ZeroBlock() &&
                         v != TableAt(st.blocks, ino, Up(p).value.0))
    ensures var parent := TableAt(st.blocks, ino, Up(p).value.0);
            && parent < |st.blocks|
            && forall q :: InTree(q) ==>
                 TableAt(WriteSlot(st.blocks, parent, Up(p).value.1, v), ino, q) ==
                 if q == p then v else TableAt(st.blocks, ino, q)
  {
    hide Node, Slot, WriteSlot, Exclusive;
    var (t, s) := Up(p).value;
    var parent := TableAt(st.blocks, ino, t);
    assert Owns(st.blocks, ino, Table(t), parent);
    var blocks' := WriteSlot(st.blocks, parent, s, v);
    var rd, rd' := Slots(st.blocks), Slots(blocks');
    ExclusiveTables(st.blocks, ino);
    forall b, r ensures rd'(b, r) == if b == parent && r == s then v else rd(b, r) {
      SlotAfterWrite(st.blocks, parent, s, v, b, r);
    }
    if !p.Leaf? { ZeroTableOf(st.blocks, v); }
    forall q | InTree(q) ensures TableAt(blocks', ino, q) == if q == p then v else TableAt(st.blocks, ino, q) {
      NodeAfterSet(rd, rd', ino, p, v, q);
    }
  }

  /** Unless no block is left, the pointer block at `p` exists afterwards; entries, chunks and what
      belongs to others stay in any case, and so do the pointers the inode already had. */
  lemma {:induction false} TableEnsured(st: Store, ino: Inode, p: Pos)
    requires FileOk(st, ino) && InTree(p) && !p.Leaf?
    ensures var (st', ino', table) := EnsureTable(st, ino, p);
            && AddsTables(st, ino, st', ino') && RootsGrow(ino, ino')
            && (table.Some? ==> TableAt(st'.blocks, ino', p) == table.value != 0)
    decreases Rank(p)
  {
    hide AddsTables, EnsureChild, GrabBlock, Node, Exclusive, Housed;
    match Up(p)
    case None =>
      RootIsSlot(st.blocks, ino, p);
      if InodeSlot(ino, p) != 0 || GrabBlock(st).None? { AddsNothing(st, ino); } else { RootEnsured(st, ino, p); }
    case Some((t, s)) =>
      TableEnsured(st, ino, t);
      var (st1, ino1, parent) := EnsureTable(st, ino, t);
      if parent.Some? {
        AddsIsOk(st, ino, st1, ino1);
        ChildEnsured(st1, ino1, p);
        var (st2, child) := EnsureChild(st1, parent.value, s);
        AddsMore(st, ino, st1, ino1, st2, ino1);
      }
  }

  lemma RootIsSlot(blocks: Blocks, ino: Inode, p: Pos)
    requires InTree(p) && Up(p).None?
    ensures TableAt(blocks, ino, p) == InodeSlot(ino, p)
  {
  }

  // ---------------------------------------------------------------------------
  // The entry itself
  // ---------------------------------------------------------------------------

  /** Every block of `raw`'s run is taken by nobody else and lies in the data area. */
  ghost predicate Reserved(st: Store, ino: Inode, raw: nat) {
    forall b: nat :: EntryHas(raw, b) ==> Foreign(st, ino, b) && Tracked(st, b)
  }

  /** The result of setting entry `k` to `raw`: the old run of `k` and whatever was foreign stays as it
      was, the former now without an owner. */
  ghost predicate EntrySet(st: Store, ino: Inode, k: nat, raw: nat, st': Store, ino': Inode)
    requires k < MAX_LOGICAL_BLOCKS
  {
    && FileOk(st', ino') && SameShape(st, st')
    && (forall j :: 0 <= j < MAX_LOGICAL_BLOCKS ==>
          EntryAt(st'.blocks, ino', j) == if j == k then raw else EntryAt(st.blocks, ino, j))
    && SameChunks(st.blocks, ino, st'.blocks)
    && (forall b: nat :: Foreign(st, ino, b) ==> Taken(st', b) && (b < |st.blocks| ==> st'.blocks[b] == st.blocks[b]))
    && (forall b: nat :: (Foreign(st, ino, b) && !EntryHas(raw, b)) || Owns(st.blocks, ino, Chunk(k), b) <==>
          Foreign(st', ino', b))
  }

  lemma LeafOwners(blocks: Blocks, ino: Inode, blocks': Blocks, ino': Inode, k: nat, raw: nat)
    requires k < MAX_LOGICAL_BLOCKS
    requires forall q :: InTree(q) ==>
               TableAt(blocks', ino', q) == if q == Leaf(k) then raw else TableAt(blocks, ino, q)
    ensures forall o, c: nat :: Owns(blocks', ino', o, c) <==>
              if o == Chunk(k) then EntryHas(raw, c) else Owns(blocks, ino, o, c)
    ensures forall j :: 0 <= j < MAX_LOGICAL_BLOCKS ==>
              EntryAt(blocks', ino', j) == if j == k then raw else EntryAt(blocks, ino, j)
  {
    hide TableAt, EntryAt, EntryHas;
    forall j: nat | j < MAX_LOGICAL_BLOCKS
      ensures EntryAt(blocks', ino', j) == if j == k then raw else EntryAt(blocks, ino, j)
    {
      EntryIsNode(blocks, ino, j);
      EntryIsNode(blocks', ino', j);
    }
  }

  lemma LeafWritten(st: Store, ino: Inode, st': Store, ino': Inode, k: nat, raw: nat, table: Option<nat>)
    requires FileOk(st, ino) && k < MAX_LOGICAL_BLOCKS && Reserved(st, ino, raw)
    requires st' == st.(blocks := st'.blocks) && |st'.blocks| == |st.blocks|
    requires forall q :: InTree(q) ==>
               TableAt(st'.blocks, ino', q) == if q == Leaf(k) then raw else TableAt(st.blocks, ino, q)
    requires forall c :: 0 <= c < |st.blocks| && st'.blocks[c] != st.blocks[c] ==> table == Some(c)
    requires table.Some? ==> exists t :: Owns(st.blocks, ino, Table(t), table.value)
    ensures EntrySet(st, ino, k, raw, st', ino')
  {
    hide TableAt, EntryAt, Owns, EntryHas;
    LeafOwners(st.blocks, ino, st'.blocks, ino', k, raw);
    assert forall c: nat :: Taken(st', c) <==> Taken(st, c);
    if table.Some? {
      var t :| Owns(st.blocks, ino, Table(t), table.value);
      forall j, c: nat | 0 <= j < MAX_LOGICAL_BLOCKS && Owns(st.blocks, ino, Chunk(j), c) && c < |st.blocks|
        ensures st'.blocks[c] == st.blocks[c]
      {
        assert c != table.value;
      }
    }
  }

  /** Setting an entry does exactly that, or at most adds pointer blocks. */
  lemma SetEntryIs(st: Store, ino: Inode, k: nat, raw: u64)
    requires FileOk(st, ino) && Reserved(st, ino, raw)
    ensures var (st', ino', ok) := SetEntry(st, ino, k, raw);
            && (ok ==> k < MAX_LOGICAL_BLOCKS && EntrySet(st, ino, k, raw, st', ino'))
            && (!ok ==> AddsTables(st, ino, st', ino'))
            && RootsGrow(ino, ino')
  {
    hide EnsureTable, Node, Slot, WriteSlot, Exclusive, Housed, Foreign, AddsTables, EntrySet, Reserved, EntryHas;
    if k >= MAX_LOGICAL_BLOCKS {
      AddsNothing(st, ino);
      return;
    }
    match Up(Leaf(k))
    case None =>
      var ino' := WithSlot(ino, Leaf(k), raw);
      forall q | InTree(q)
        ensures TableAt(st.blocks, ino', q) == if q == Leaf(k) then raw else TableAt(st.blocks, ino, q)
      {
        NodeAfterRoot(Slots(st.blocks), ino, Leaf(k), raw, q);
      }
      LeafWritten(st, ino, st, ino', k, raw, None);
    case Some((t, s)) =>
      TableEnsured(st, ino, t);
      var (st1, ino1, found) := EnsureTable(st, ino, t);
      if found.Some? {
        var table := found.value;
        AddsIsOk(st, ino, st1, ino1);
        StillReserved(st, ino, st1, ino1, raw);
        SlotWritten(st1, ino1, Leaf(k), raw);
        var st2 := st1.(blocks := WriteSlot(st1.blocks, table, s, raw));
        assert Owns(st1.blocks, ino1, Table(t), table);
        OnlyBlock(st1.blocks, table, s, raw);
        LeafWritten(st1, ino1, st2, ino1, k, raw, Some(table));
        EnsureThenSet(st, ino, st1, ino1, st2, ino1, k, raw);
      }
  }

  lemma OnlyBlock(blocks: Blocks, b: nat, s: nat, v: u64)
    requires s < SLOTS
    ensures forall c :: 0 <= c < |blocks| && WriteSlot(blocks, b, s, v)[c] != blocks[c] ==> c == b
  {
  }

  lemma StillReserved(st: Store, ino: Inode, st1: Store, ino1: Inode, raw: nat)
    requires Reserved(st, ino, raw) && AddsTables(st, ino, st1, ino1)
    ensures Reserved(st1, ino1, raw)
  {
    hide Foreign, EntryHas, FileOk, SameEntries, SameChunks;
  }

  lemma EnsureThenSet(st: Store, ino: Inode, st1: Store, ino1: Inode, st2: Store, ino2: Inode, k: nat, raw: nat)
    requires k < MAX_LOGICAL_BLOCKS && AddsTables(st, ino, st1, ino1) && EntrySet(st1, ino1, k, raw, st2, ino2)
    ensures EntrySet(st, ino, k, raw, st2, ino2)
  {
    hide EntryAt, Exclusive, Housed, Foreign, Taken, EntryHas;
    assert forall j, b: nat :: 0 <= j < MAX_LOGICAL_BLOCKS && Owns(st.blocks, ino, Chunk(j), b) ==>
        Owns(st1.blocks, ino1, Chunk(j), b);
  }
}
