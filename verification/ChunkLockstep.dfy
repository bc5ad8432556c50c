/** The journaled and the direct commit of chunks, step by step side by side. */
module ChunkLockstep {
  import opened Sizes
  import opened Bytes
  import opened LastWins
  import opened ImageModel
  import opened BitList
  import opened PointerTree
  import opened TreePositions
  import opened BlockImage
  import opened Allocator
  import opened Mirror
  import opened ChunkStore
  import opened ChunkEntries
  import opened ChunkCodec
  import opened ChunkCommit
  import opened ChunkSim
  import opened ChunkMirror
  import CT = ChunkTree

  /** Not a pointer block of the file. */
  ghost predicate NoTable(st: Store, ino: Inode, b: nat) {
    Foreign(st, ino, b) || exists k :: Owns(st.blocks, ino, Chunk(k), b)
  }

  /** The runs of the transaction are no pointer blocks. */
  ghost predicate RunsApart(j: Staging, st: Store, ino: Inode) {
    forall b: nat :: Payload(j, b) ==> NoTable(st, ino, b)
  }

  /** Handed out by the simulator, or written to. */
  ghost predicate Handled(s: Sim, b: nat) {
    b in s.taken || exists t :: (b, t) in s.pointers
  }

  ghost predicate Unnamed(st: Store, ino: Inode, i: nat, b: nat) {
    i < MAX_LOGICAL_BLOCKS ==> !EntryHas(EntryAt(st.blocks, ino, i), b)
  }

  /** The chunks outside `first .. first + n` keep clear of all that. */
  ghost predicate OthersApart(j: Staging, st: Store, ino: Inode, first: nat, n: nat) {
    forall b: nat, i: nat :: Handled(j.s, b) && !(first <= i < first + n) ==> Unnamed(st, ino, i, b)
  }

  /** The transaction has committed the chunks `first .. first + n` and stands for `st`. */
  ghost predicate Mirrored(g: Geometry, j: Staging, st: Store, ino: Inode, first: nat, n: nat) {
    && Stands(g, j, st) && Books(g, j, st) && FileOk(st, ino) && U64Slots(ino)
    && RunsApart(j, st, ino) && OthersApart(j, st, ino, first, n)
  }

  // ---------------------------------------------------------------------------
  // Pointer blocks
  // ---------------------------------------------------------------------------

  /** A pointer block of the file can be written, and no chunk names it. */
  lemma TableFacts(g: Geometry, j: Staging, st: Store, ino: Inode, t: Pos)
    requires Stands(g, j, st) && FileOk(st, ino) && RunsApart(j, st, ino)
    requires InTree(t) && !t.Leaf? && TableAt(st.blocks, ino, t) != 0
    ensures var b := TableAt(st.blocks, ino, t);
            && IsData(g, b) && b < 0x1_0000_0000_0000_0000 && Taken(st, b) && !Payload(j, b)
            && forall i: nat :: Unnamed(st, ino, i, b)
  {
    hide TableAt, EntryAt, Taken, EntryHas, Stands, Payload;
    Shape(g, j, st);
    Small(g, j, st);
    var b := TableAt(st.blocks, ino, t);
    assert Owns(st.blocks, ino, Table(t), b);
    forall i: nat ensures Unnamed(st, ino, i, b) {
      assert i < MAX_LOGICAL_BLOCKS && EntryHas(EntryAt(st.blocks, ino, i), b) ==> Owns(st.blocks, ino, Chunk(i), b);
    }
  }

  lemma Small(g: Geometry, j: Staging, st: Store)
    requires Stands(g, j, st)
    ensures StoreOk(st) && g.blockCount < U64_MAX
  {
    Shape(g, j, st);
  }

  /** A block nobody uses is named by no chunk. */
  lemma FreeUnnamed(st: Store, ino: Inode, b: nat)
    requires FileOk(st, ino) && !Taken(st, b)
    ensures forall i: nat :: Unnamed(st, ino, i, b)
  {
    hide EntryAt, Taken, EntryHas, Exclusive;
    forall i: nat ensures Unnamed(st, ino, i, b) {
      assert i < MAX_LOGICAL_BLOCKS && EntryHas(EntryAt(st.blocks, ino, i), b) ==> Owns(st.blocks, ino, Chunk(i), b);
    }
  }

  /** Adding pointer blocks keeps runs and other chunks apart. */
  lemma AddsKeepsApart(j: Staging, st: Store, ino: Inode, j': Staging, st': Store, ino': Inode, first: nat, n: nat)
    requires RunsApart(j, st, ino) && OthersApart(j, st, ino, first, n) && AddsTables(st, ino, st', ino')
    requires forall b: nat :: Payload(j', b) ==> Payload(j, b)
    requires forall b: nat :: Handled(j'.s, b) ==> Handled(j.s, b) || forall i: nat :: Unnamed(st, ino, i, b)
    ensures RunsApart(j', st', ino') && OthersApart(j', st', ino', first, n)
  {
    hide Payload, Handled, Foreign, EntryAt, EntryHas, FileOk, SameChunks;
    forall b: nat | Payload(j', b) ensures NoTable(st', ino', b) {
      if !Foreign(st, ino, b) {
        var k :| Owns(st.blocks, ino, Chunk(k), b);
        assert Owns(st'.blocks, ino', Chunk(k), b);
      }
    }
    forall b: nat, i: nat | Handled(j'.s, b) && !(first <= i < first + n) ensures Unnamed(st', ino', i, b) {
      assert Unnamed(st, ino, i, b);
    }
  }

  lemma ChildStep(g: Geometry, j: Staging, st: Store, ino: Inode, p: Pos, first: nat, n: nat)
    requires Mirrored(g, j, st, ino, first, n)
    requires InTree(p) && !p.Leaf? && Up(p).Some? && TableAt(st.blocks, ino, Up(p).value.0) != 0
    ensures var parent := TableAt(st.blocks, ino, Up(p).value.0); var slot := Up(p).value.1;
            && parent < 0x1_0000_0000_0000_0000 && g.blockCount < U64_MAX && StoreOk(st)
            && var (s', r) := SimChild(g, j.img, j.s, parent, slot); var (st', b) := EnsureChild(st, parent, slot);
            && (r.Got? <==> b.Some?) && (r.Got? ==> r.id == b.value) && j.s.taken <= s'.taken
            && Mirrored(g, Took(j, s'), st', ino, first, n)
  {
    hide Stands, Books, FileOk, Taken, TableAt, GrabBlock, SimTakeBlock, CT.Slot, SimRead, CT.WriteSlot, LE, RecordSlot,
         RunsApart, OthersApart, AddsTables, Unnamed, Payload, Handled;
    var (t, slot) := Up(p).value;
    TableFacts(g, j, st, ino, t);
    Small(g, j, st);
    Shape(g, j, st);
    var parent: u64 := TableAt(st.blocks, ino, t);
    ReadAgrees(g, j, st, parent, slot);
    ChildEnsured(st, ino, p);
    TookNothing(j);
    if CT.Slot(st.blocks, parent, slot) == 0 {
      TakeStands(g, j, st);
      if GrabBlock(st).Some? {
        var (st1, b) := GrabBlock(st).value;
        var (s1, r) := SimTakeBlock(g, j.s);
        var j1 := Took(j, s1);
        StillTaken(st, parent);
        TookPayload(j, s1, b);
        RecordStands(g, j1, st1, parent, slot, b);
        var j2 := j1.(s := RecordSlot(s1, parent, slot, b));
        var (st2, _) := EnsureChild(st, parent, slot);
        assert FileOk(st2, ino) by { AddsIsOk(st, ino, st2, ino); }
        FreeUnnamed(st, ino, b);
        RecordHandled(s1, parent, slot, b);
        TookHandled(j.s, s1, b);
        assert forall c: nat :: Payload(j2, c) ==> Payload(j, c) by { RecordPayload(j1, parent, slot, b); }
        AddsKeepsApart(j, st, ino, j2, st2, ino, first, n);
        assert j2 == Took(j, j2.s) by { TookRecord(j, s1, parent, slot, b); }
        RecordedIsChild(g, j, parent, slot, s1, b);
      }
    }
  }

  lemma ReadAgrees(g: Geometry, j: Staging, st: Store, parent: u64, slot: nat)
    requires Books(g, j, st) && IsData(g, parent) && slot < SLOTS && !Payload(j, parent)
    ensures SimRead(j.img, j.s, parent, slot) == CT.Slot(st.blocks, parent, slot)
    ensures (parent, slot) in j.s.pointers ==> j.s.pointers[(parent, slot)] == SimRead(j.img, j.s, parent, slot) != 0
  {
    hide ReadPtr, CT.Slot, Taken;
  }

  lemma TookNothing(j: Staging)
    ensures Took(j, j.s) == j
  {
    assert j.tables + (j.s.taken - j.s.taken) == j.tables;
  }

  lemma StillTaken(st: Store, b: nat)
    requires StoreOk(st) && GrabBlock(st).Some? && Taken(st, b)
    ensures Taken(GrabBlock(st).value.0, b)
  {
    hide Taken, GrabBlock;
    GrabBlockIs(st);
  }

  lemma TookPayload(j: Staging, s: Sim, b: nat)
    requires s.taken == j.s.taken + {b}
    ensures forall c: nat :: Payload(Took(j, s), c) ==> Payload(j, c)
  {
  }

  lemma TookHandled(s: Sim, s': Sim, b: nat)
    requires s'.taken == s.taken + {b} && s'.pointers == s.pointers
    ensures forall c: nat :: Handled(s', c) <==> Handled(s, c) || c == b
  {
  }

  lemma RecordHandled(s: Sim, parent: u64, slot: nat, v: u64)
    requires slot < SLOTS
    ensures forall c: nat :: Handled(RecordSlot(s, parent, slot, v), c) <==> Handled(s, c) || c == parent
  {
    hide LE;
    var s' := RecordSlot(s, parent, slot, v);
    assert (parent, slot) in s'.pointers;
    forall c: nat | Handled(s, c) ensures Handled(s', c) {
      if c !in s.taken {
        var t :| (c, t) in s.pointers;
        assert (c, t) in s'.pointers;
      }
    }
  }

  lemma RecordPayload(j: Staging, parent: u64, slot: nat, v: u64)
    requires slot < SLOTS
    ensures forall c: nat :: Payload(j.(s := RecordSlot(j.s, parent, slot, v)), c) <==> Payload(j, c)
  {
    hide LE;
  }

  lemma TookRecord(j: Staging, s: Sim, parent: u64, slot: nat, v: u64)
    requires slot < SLOTS
    ensures Took(j, s).(s := RecordSlot(s, parent, slot, v)) == Took(j, RecordSlot(s, parent, slot, v))
  {
    hide LE;
  }

  lemma RecordedIsChild(g: Geometry, j: Staging, parent: u64, slot: nat, s1: Sim, b: u64)
    requires g.blockCount < U64_MAX && slot < SLOTS && (parent, slot) !in j.s.pointers
    requires SimRead(j.img, j.s, parent, slot) == 0 && SimTakeBlock(g, j.s) == (s1, Got(b))
    ensures SimChild(g, j.img, j.s, parent, slot) == (RecordSlot(s1, parent, slot, b), Got(b))
    ensures RecordSlot(s1, parent, slot, b).taken == s1.taken
  {
    hide SimTakeBlock, SimRead, LE;
  }

  lemma TookTwice(j: Staging, s1: Sim, s2: Sim)
    requires j.s.taken <= s1.taken <= s2.taken
    ensures Took(Took(j, s1), s2) == Took(j, s2)
  {
    assert j.tables + (s1.taken - j.s.taken) + (s2.taken - s1.taken) == j.tables + (s2.taken - j.s.taken);
  }

  /** A fresh root. */
  lemma RootStep(g: Geometry, j: Staging, st: Store, ino: Inode, p: Pos, first: nat, n: nat)
    requires Mirrored(g, j, st, ino, first, n) && InTree(p) && !p.Leaf? && Up(p).None? && InodeSlot(ino, p) == 0
    ensures g.blockCount < U64_MAX && StoreOk(st)
    ensures var (s', r) := SimTakeBlock(g, j.s);
            match GrabBlock(st)
            case None => r == NoSpace && s' == j.s
            case Some((st', b)) =>
              && r.Got? && r.id == b && j.s.taken <= s'.taken
              && Mirrored(g, Took(j, s'), st', CT.WithSlot(ino, p, b), first, n)
  {
    hide Stands, Books, FileOk, Taken, TableAt, GrabBlock, SimTakeBlock, RunsApart, OthersApart, AddsTables, Unnamed,
         Payload, Handled;
    Small(g, j, st);
    Shape(g, j, st);
    TakeStands(g, j, st);
    if GrabBlock(st).Some? {
      var (st', b) := GrabBlock(st).value;
      var (s', r) := SimTakeBlock(g, j.s);
      RootEnsured(st, ino, p);
      var ino' := CT.WithSlot(ino, p, b);
      assert FileOk(st', ino') by { AddsIsOk(st, ino, st', ino'); }
      FreeUnnamed(st, ino, b);
      TookHandled(j.s, s', b);
      TookPayload(j, s', b);
      AddsKeepsApart(j, st, ino, Took(j, s'), st', ino', first, n);
    }
  }

  /** The pointer block at `p`, on both sides. */
  lemma {:induction false} EnsureStep(g: Geometry, j: Staging, st: Store, ino: Inode, p: Pos, first: nat, n: nat)
    requires Mirrored(g, j, st, ino, first, n) && InTree(p) && !p.Leaf?
    ensures g.blockCount < U64_MAX && StoreOk(st)
    ensures var (s', ino', r) := SimEnsure(g, j.img, j.s, ino, p); var (st', ino'', q) := EnsureTable(st, ino, p);
            && ino' == ino'' && (r.Some? <==> q.Some?) && (r.Some? ==> r.value == q.value) && j.s.taken <= s'.taken
            && Mirrored(g, Took(j, s'), st', ino', first, n)
    decreases Rank(p)
  {
    hide Mirrored, SimChild, EnsureChild, GrabBlock, SimTakeBlock, TableAt, AddsTables;
    Start(g, j, st, ino, first, n);
    TookNothing(j);
    match Up(p)
    case None =>
      if InodeSlot(ino, p) == 0 { RootStep(g, j, st, ino, p, first, n); }
    case Some((t, slot)) =>
      EnsureStep(g, j, st, ino, t, first, n);
      var (s1, ino1, parent) := SimEnsure(g, j.img, j.s, ino, t);
      var (st1, _, table) := EnsureTable(st, ino, t);
      if parent.Some? {
        TableEnsured(st, ino, t);
        ChildStep(g, Took(j, s1), st1, ino1, p, first, n);
        var (s2, r) := SimChild(g, j.img, s1, parent.value, slot);
        TookTwice(j, s1, s2);
      }
  }

  lemma Start(g: Geometry, j: Staging, st: Store, ino: Inode, first: nat, n: nat)
    requires Mirrored(g, j, st, ino, first, n)
    ensures FileOk(st, ino) && StoreOk(st) && g.blockCount < U64_MAX && Narrow(g) && U64Slots(ino)
    ensures |j.s.bits| == BLOCK_BITS && j.s.bits == st.used && Mounted(g, |j.img|)
    ensures |st.blocks| == g.blockCount && st.dataStart == g.dataBlockStart && st.hint == j.s.hint
  {
    Shape(g, j, st);
  }

  // ---------------------------------------------------------------------------
  // Setting an entry
  // ---------------------------------------------------------------------------

  /** Once entry `k` names the new run, the transaction has committed one chunk more. */
  lemma EntryKeepsApart(j: Staging, st: Store, ino: Inode, raw: nat, j': Staging, st': Store, ino': Inode, first: nat,
                        n: nat)
    requires first + n < MAX_LOGICAL_BLOCKS && EntrySet(st, ino, first + n, raw, st', ino')
    requires RunsApart(j, st, ino) && OthersApart(j, st, ino, first, n)
    requires forall b: nat :: Payload(j', b) ==> Payload(j, b)
    requires forall b: nat :: Handled(j'.s, b) ==> Handled(j.s, b) || forall i: nat :: Unnamed(st, ino, i, b)
    ensures RunsApart(j', st', ino') && OthersApart(j', st', ino', first, n + 1)
    ensures forall b: nat :: Handled(j'.s, b) ==> Unnamed(st, ino, first + n, b)
  {
    hide Handled, Foreign, EntryAt, EntryHas, FileOk, SameChunks, Taken;
    var k := first + n;
    forall b: nat | Handled(j'.s, b) ensures Unnamed(st, ino, k, b) {}
    forall b: nat | Payload(j', b) ensures NoTable(st', ino', b) {
      assert Handled(j.s, b) by { PayloadHandled(j, b); }
      assert Unnamed(st, ino, k, b);
      if Foreign(st, ino, b) {
        if EntryHas(raw, b) { assert Owns(st'.blocks, ino', Chunk(k), b); }
      } else {
        var i :| Owns(st.blocks, ino, Chunk(i), b);
        assert i != k && Owns(st'.blocks, ino', Chunk(i), b);
      }
    }
    forall b: nat, i: nat | Handled(j'.s, b) && !(first <= i < first + (n + 1)) ensures Unnamed(st', ino', i, b) {
      assert Unnamed(st, ino, i, b);
    }
  }

  lemma PayloadHandled(j: Staging, b: nat)
    requires Payload(j, b)
    ensures Handled(j.s, b)
  {
  }

  lemma SetStep(g: Geometry, j: Staging, st: Store, ino: Inode, raw: u64, first: nat, n: nat)
    requires Mirrored(g, j, st, ino, first, n) && Reserved(st, ino, raw) && raw != 0
    ensures g.blockCount < U64_MAX && StoreOk(st)
    ensures var (s', ino', ok) := SimSet(g, j.img, j.s, ino, first + n, raw);
            var (st', ino'', ok') := SetEntry(st, ino, first + n, raw);
            && ino' == ino'' && ok == ok' && j.s.taken <= s'.taken
            && Mirrored(g, Took(j, s'), st', ino', first, if ok then n + 1 else n)
            && (ok ==> forall b: nat :: Handled(s', b) ==> Unnamed(st, ino, first + n, b))
  {
    hide Mirrored, SimEnsure, EnsureTable, TableAt, AddsTables, EntrySet, RecordSlot, CT.WriteSlot, Unnamed, Handled,
         Reserved;
    Start(g, j, st, ino, first, n);
    TookNothing(j);
    var k := first + n;
    SetEntryIs(st, ino, k, raw);
    if k < MAX_LOGICAL_BLOCKS {
      match Up(Leaf(k))
      case None => DirectStep(g, j, st, ino, raw, first, n);
      case Some((t, slot)) =>
        EnsureStep(g, j, st, ino, t, first, n);
        TableEnsured(st, ino, t);
        var (s1, ino1, table) := SimEnsure(g, j.img, j.s, ino, t);
        var (st1, _, _) := EnsureTable(st, ino, t);
        if table.Some? { LeafStep(g, j, st, ino, raw, first, n, s1, ino1, table.value, st1); }
    }
  }

  lemma DirectStep(g: Geometry, j: Staging, st: Store, ino: Inode, raw: u64, first: nat, n: nat)
    requires Mirrored(g, j, st, ino, first, n) && first + n < MAX_LOGICAL_BLOCKS && Up(Leaf(first + n)).None?
    requires EntrySet(st, ino, first + n, raw, st, CT.WithSlot(ino, Leaf(first + n), raw))
    ensures Mirrored(g, j, st, CT.WithSlot(ino, Leaf(first + n), raw), first, n + 1)
    ensures forall b: nat :: Handled(j.s, b) ==> Unnamed(st, ino, first + n, b)
  {
    hide Stands, Books, RunsApart, OthersApart, Unnamed, Handled, EntrySet, Payload, FileOk;
    var ino' := CT.WithSlot(ino, Leaf(first + n), raw);
    EntryKeepsApart(j, st, ino, raw, j, st, ino', first, n);
    SetIsOk(st, ino, first + n, raw, st, ino');
  }

  lemma SetIsOk(st: Store, ino: Inode, k: nat, raw: nat, st': Store, ino': Inode)
    requires k < MAX_LOGICAL_BLOCKS && EntrySet(st, ino, k, raw, st', ino')
    ensures FileOk(st', ino')
  {
  }

  lemma LeafStep(g: Geometry, j: Staging, st: Store, ino: Inode, raw: u64, first: nat, n: nat, s1: Sim, ino1: Inode,
                 table: u64, st1: Store)
    requires first + n < MAX_LOGICAL_BLOCKS && Up(Leaf(first + n)).Some? && raw != 0 && j.s.taken <= s1.taken
    requires Mirrored(g, Took(j, s1), st1, ino1, first, n) && AddsTables(st, ino, st1, ino1)
    requires TableAt(st1.blocks, ino1, Up(Leaf(first + n)).value.0) == table != 0 && U64Slots(ino1)
    requires Reserved(st, ino, raw)
    ensures var slot := Up(Leaf(first + n)).value.1; var s2 := RecordSlot(s1, table, slot, raw);
            var st2 := st1.(blocks := CT.WriteSlot(st1.blocks, table, slot, raw));
            && s2.taken == s1.taken && Mirrored(g, Took(j, s2), st2, ino1, first, n + 1)
            && forall b: nat :: Handled(s2, b) ==> Unnamed(st, ino, first + n, b)
  {
    hide Stands, Books, RunsApart, OthersApart, Unnamed, Handled, EntrySet, Payload, FileOk, Taken, TableAt,
         CT.WriteSlot, AddsTables, LE, Reserved;
    var k := first + n;
    var (t, slot) := Up(Leaf(k)).value;
    var j1 := Took(j, s1);
    TableFacts(g, j1, st1, ino1, t);
    RecordStands(g, j1, st1, table, slot, raw);
    var s2 := RecordSlot(s1, table, slot, raw);
    var st2 := st1.(blocks := CT.WriteSlot(st1.blocks, table, slot, raw));
    StillReserved(st, ino, st1, ino1, raw);
    LeafSet(st1, ino1, k, raw, table);
    RecordHandled(s1, table, slot, raw);
    TookRecord(j, s1, table, slot, raw);
    RecordPayload(j1, table, slot, raw);
    EntryKeepsApart(j1, st1, ino1, raw, j1.(s := s2), st2, ino1, first, n);
    SetIsOk(st1, ino1, k, raw, st2, ino1);
    forall b: nat | Handled(s2, b) ensures Unnamed(st, ino, k, b) { SameUnnamed(st, ino, st1, ino1, k, b); }
  }

  lemma SameUnnamed(st: Store, ino: Inode, st1: Store, ino1: Inode, k: nat, b: nat)
    requires AddsTables(st, ino, st1, ino1)
    ensures Unnamed(st1, ino1, k, b) <==> Unnamed(st, ino, k, b)
  {
    hide EntryAt, EntryHas, FileOk, SparesOthers, SameChunks, LeaksNothing;
  }

  /** Writing the slot of a leaf sets the entry. */
  lemma LeafSet(st: Store, ino: Inode, k: nat, raw: u64, table: nat)
    requires FileOk(st, ino) && k < MAX_LOGICAL_BLOCKS && Up(Leaf(k)).Some? && Reserved(st, ino, raw)
    requires TableAt(st.blocks, ino, Up(Leaf(k)).value.0) == table != 0
    ensures EntrySet(st, ino, k, raw, st.(blocks := CT.WriteSlot(st.blocks, table, Up(Leaf(k)).value.1, raw)), ino)
  {
    hide Node, CT.Slot, CT.WriteSlot, Exclusive, Housed, Foreign, EntrySet, Reserved, EntryHas;
    var (t, slot) := Up(Leaf(k)).value;
    SlotWritten(st, ino, Leaf(k), raw);
    assert Owns(st.blocks, ino, Table(t), table);
    OnlyBlock(st.blocks, table, slot, raw);
    LeafWritten(st, ino, st.(blocks := CT.WriteSlot(st.blocks, table, slot, raw)), ino, k, raw, Some(table));
  }

  // ---------------------------------------------------------------------------
  // One commit
  // ---------------------------------------------------------------------------

  /** Entries resolve through the simulator as they do in the store. */
  lemma SimEntryIs(g: Geometry, j: Staging, st: Store, ino: Inode, k: nat, first: nat, n: nat)
    requires Mirrored(g, j, st, ino, first, n)
    ensures SimEntry(j.img, j.s, ino, k) == EntryOf(st.blocks, ino, k)
  {
    hide Stands, Books, FileOk, RunsApart, OthersApart, Taken, TableAt, SimRead, CT.Slot, Payload, Node, Unnamed,
         Resolve;
    LogicalRoundTrip(k);
    if k < MAX_LOGICAL_BLOCKS {
      var rd, rd' := CT.Slots(st.blocks), SimSlots(j.img, j.s);
      forall p, t | InTree(p) && !p.Leaf? && Node(rd, ino, p) != 0 && 0 <= t < SLOTS
        ensures rd'(Node(rd, ino, p), t) == rd(Node(rd, ino, p), t)
      {
        var b := Node(rd, ino, p);
        assert b == TableAt(st.blocks, ino, p) by { TableIsNode(st.blocks, ino, p); }
        TableFacts(g, j, st, ino, p);
        ReadAgrees(g, j, st, b, t);
      }
      CT.SameTables(rd, rd', ino, Leaf(k));
      NodeIsResolve(rd, ino, k);
      NodeIsResolve(rd', ino, k);
    } else {
      BeyondLast(SimSlots(j.img, j.s), ino, k);
      BeyondLast(CT.Slots(st.blocks), ino, k);
    }
  }

  lemma TableIsNode(blocks: CT.Blocks, ino: Inode, p: Pos)
    requires InTree(p)
    ensures TableAt(blocks, ino, p) == Node(CT.Slots(blocks), ino, p)
  {
  }

  lemma BeyondLast(rd: Reader, ino: Inode, k: nat)
    requires k >= MAX_LOGICAL_BLOCKS
    ensures Resolve(rd, ino, k) == 0
  {
    LogicalRoundTrip(k);
  }

  predicate EntryInside(st: Store, e: nat) {
    EntryIsEmpty(e) ||
    (&& st.dataStart <= EntryStart(e) && EntryStart(e) + EntryCount(e) <= |st.blocks|
     && EntryStart(e) + EntryCount(e) <= st.dataStart + |st.used|)
  }

  /** Every run a chunk names lies inside the image. */
  ghost predicate EntriesInside(st: Store, ino: Inode) {
    forall k :: 0 <= k < MAX_LOGICAL_BLOCKS ==> EntryInside(st, EntryAt(st.blocks, ino, k))
  }

  /** The journaled allocation is the direct one with the test for the end of the image. */
  lemma FitIsGrab(g: Geometry, j: Staging, st: Store, ino: Inode, p: Prepared, first: nat, n: nat)
    requires Mirrored(g, j, st, ino, first, n) && ChunkCodec.Fits(p)
    ensures |j.s.bits| == BLOCK_BITS
    ensures var fit := SimFit(j.s.bits, g.dataBlockStart, g.blockCount, j.s.hint, p.count);
            var run := GrabRun(st, p.count);
            && (fit.Some? <==> run.Some? && RunFits(st, p))
            && (fit.Some? ==>
                  && run.value.1 == fit.value
                  && run.value.0 == st.(used := SetBits(st.used, fit.value - st.dataStart, p.count, true),
                                        hint := fit.value + p.count))
  {
    hide Mirrored, FirstFit;
    Start(g, j, st, ino, first, n);
  }

  /** The run taken and filled, on both sides. */
  lemma RunStep(g: Geometry, j: Staging, st: Store, ino: Inode, p: Prepared, first: nat, n: nat, st1: Store, start: u64)
    requires Mirrored(g, j, st, ino, first, n) && ChunkCodec.Fits(p) && start + p.count <= g.blockCount
    requires GrabRun(st, p.count) == Some((st1, start))
    requires st1 == st.(used := SetBits(st.used, start - st.dataStart, p.count, true), hint := start + p.count)
    requires g.dataBlockStart <= start
    ensures var j' := j.(img := StageRun(j.img, start, p), s := TakeRun(g, j.s, start, p.count));
            var st2 := st1.(blocks := Lay(st1.blocks, start, p));
            && start < MAX_BLOCKS && Mirrored(g, j', st2, ino, first, n) && Keeps(st, ino, st2, ino)
            && Reserved(st2, ino, EntryFor(start, p)) && EntryFor(start, p) != 0
  {
    hide Stands, Books, FileOk, RunsApart, OthersApart, Taken, GrabRun, StageRun, Lay, ChunkCodec.Fits, Keeps, Reserved,
         EntryFor, SetBits, TakeRun, Unnamed, Handled, Payload, Foreign;
    Start(g, j, st, ino, first, n);
    FitsCount(p);
    GrabRunIs(st, p.count);
    var j' := j.(img := StageRun(j.img, start, p), s := TakeRun(g, j.s, start, p.count));
    var st2 := st1.(blocks := Lay(st1.blocks, start, p));
    RunStands(g, j, st, start, p);
    RunReserved(st, ino, st1, start, p.count, st2.blocks);
    assert FileOk(st2, ino) by { KeepsIsOk(st, ino, st2, ino); }
    EntryReserved(st2, ino, start, p);
    NotZero(start, p);
    RunKeepsApart(g, j, st, ino, p, first, n, st2, start);
  }

  lemma NotZero(start: nat, p: Prepared)
    requires start < MAX_BLOCKS && ChunkCodec.Fits(p)
    ensures EntryFor(start, p) != 0
  {
    hide EntryFor, EntryIsEmpty, EntryStart, EntryCount, EntryLen, EntryFlags;
    EntryForIs(start, p);
    ZeroIsEmpty();
  }

  lemma ZeroIsEmpty()
    ensures EntryIsEmpty(0)
  {
  }

  lemma RunKeepsApart(g: Geometry, j: Staging, st: Store, ino: Inode, p: Prepared, first: nat, n: nat, st2: Store,
                      start: u64)
    requires FileOk(st, ino) && RunsApart(j, st, ino) && OthersApart(j, st, ino, first, n) && Keeps(st, ino, st2, ino)
    requires ChunkCodec.Fits(p) && g.dataBlockStart <= start
    requires forall b: nat :: InRun(start, p.count, b) ==> !Taken(st, b) && Foreign(st2, ino, b)
    ensures var j' := j.(img := StageRun(j.img, start, p), s := TakeRun(g, j.s, start, p.count));
            RunsApart(j', st2, ino) && OthersApart(j', st2, ino, first, n)
  {
    hide Taken, StageRun, Foreign, EntryAt, EntryHas, FileOk, SameChunks, SetBits;
    var j' := j.(img := StageRun(j.img, start, p), s := TakeRun(g, j.s, start, p.count));
    forall b: nat | Payload(j', b) ensures NoTable(st2, ino, b) {
      if !InRun(start, p.count, b) {
        assert NoTable(st, ino, b);
        if !Foreign(st, ino, b) {
          var k :| Owns(st.blocks, ino, Chunk(k), b);
          assert Owns(st2.blocks, ino, Chunk(k), b);
        }
      }
    }
    forall b: nat, i: nat | Handled(j'.s, b) && !(first <= i < first + n) ensures Unnamed(st2, ino, i, b) {
      if InRun(start, p.count, b) {
        FreeUnnamed(st, ino, b);
      } else {
        assert Handled(j.s, b);
      }
      assert Unnamed(st, ino, i, b);
    }
  }

  /** The old run given back, on both sides. */
  lemma BackStep(g: Geometry, j: Staging, st: Store, ino: Inode, st2: Store, ino2: Inode, raw: nat, first: nat, n: nat)
    requires FileOk(st2, ino2) && first + n < MAX_LOGICAL_BLOCKS && EntrySet(st2, ino2, first + n, raw, st, ino)
    requires Mirrored(g, j, st, ino, first, n + 1) && EntryInside(st, EntryAt(st2.blocks, ino2, first + n))
    requires forall b: nat :: Handled(j.s, b) ==> Unnamed(st2, ino2, first + n, b)
    ensures var e := EntryAt(st2.blocks, ino2, first + n);
            Mirrored(g, j.(s := SimRelease(g, j.s, e)), ChunkCommit.Release(st, e), ino, first, n + 1)
  {
    hide Stands, Books, FileOk, RunsApart, OthersApart, Taken, Foreign, Handled, EntryAt, EntrySet, Owns,
         EntryIsEmpty, EntryStart, EntryCount, ChunkStore.FreeRun, GiveBack, Payload;
    var k := first + n;
    var e := EntryAt(st2.blocks, ino2, k);
    OldReleased(st2, ino2, k, raw, st, ino);
    if !EntryIsEmpty(e) {
      EntryFields(e);
      Shape(g, j, st);
      var start, count := EntryStart(e), EntryCount(e);
      forall b: nat | InRun(start, count, b) ensures b !in j.s.taken && forall q :: q in j.s.pointers ==> q.0 != b {
        assert EntryHas(e, b);
        NotHandled(j.s, b);
      }
      BackStands(g, j, st, start, count);
      BackKeepsApart(g, j, st, ino, st2, ino2, k, first, n + 1);
    }
  }

  lemma NotHandled(s: Sim, b: nat)
    requires !Handled(s, b)
    ensures b !in s.taken && forall q :: q in s.pointers ==> q.0 != b
  {
    forall q | q in s.pointers ensures q.0 != b { assert (q.0, q.1) in s.pointers; }
  }

  lemma BackKeepsApart(g: Geometry, j: Staging, st: Store, ino: Inode, st2: Store, ino2: Inode, k: nat, first: nat,
                       n: nat)
    requires k < MAX_LOGICAL_BLOCKS && RunsApart(j, st, ino) && OthersApart(j, st, ino, first, n)
    requires forall b: nat :: Handled(j.s, b) ==> Unnamed(st2, ino2, k, b)
    requires var e := EntryAt(st2.blocks, ino2, k);
             && ChunkCommit.Release(st, e).blocks == st.blocks
             && forall b: nat :: Foreign(st, ino, b) && !Owns(st2.blocks, ino2, Chunk(k), b) <==>
                                 Foreign(ChunkCommit.Release(st, e), ino, b)
    ensures var e := EntryAt(st2.blocks, ino2, k); var j' := j.(s := SimRelease(g, j.s, e));
            RunsApart(j', ChunkCommit.Release(st, e), ino) && OthersApart(j', ChunkCommit.Release(st, e), ino, first, n)
  {
    hide Foreign, EntryAt, EntryHas, EntryStart, EntryCount, EntryIsEmpty, ChunkStore.FreeRun, ChunkCommit.Release;
    var e := EntryAt(st2.blocks, ino2, k);
    var j', st' := j.(s := SimRelease(g, j.s, e)), ChunkCommit.Release(st, e);
    assert j'.s.taken == j.s.taken && j'.s.pointers == j.s.pointers;
    forall b: nat | Payload(j', b) ensures NoTable(st', ino, b) {
      assert Payload(j, b) && Handled(j.s, b);
      assert Unnamed(st2, ino2, k, b);
    }
    forall b: nat, i: nat | Handled(j'.s, b) && !(first <= i < first + n) ensures Unnamed(st', ino, i, b) {
      assert Handled(j.s, b);
      assert Unnamed(st, ino, i, b);
    }
  }

  /** One commit: the journaled one gets to its end exactly if the direct one does with a run inside the
      image, and then it stands for what the direct one leaves. */
  lemma StepMirrors(c: Codec, g: Geometry, j: Staging, st: Store, ino: Inode, p: Prepared, first: nat, n: nat)
    requires Mirrored(g, j, st, ino, first, n) && ChunkCodec.Fits(p) && EntriesInside(st, ino)
    ensures Narrow(g) && |j.s.bits| == BLOCK_BITS && U64Slots(ino) && StoreOk(st)
    ensures var t := JournalStep(g, j, ino, first + n, p); var d := CommitStep(st, ino, first + n, p);
            && (t.ok <==> d.ok && RunFits(st, p))
            && (t.ok ==> t.ino == d.ino && Mirrored(g, t.j, d.st, d.ino, first, n + 1) && EntriesInside(d.st, d.ino))
  {
    hide Mirrored, SimFit, SimSet, SetEntry, GrabRun, StageRun, TakeRun, Lay, EntryFor, SimEntry, EntryOf, SimRelease,
         ChunkCommit.Release, Keeps, Reserved, EntrySet, EntriesInside, SetBits, Unnamed, Handled, FileOk, AddsTables;
    Start(g, j, st, ino, first, n);
    FitIsGrab(g, j, st, ino, p, first, n);
    if GrabRun(st, p.count).Some? && RunFits(st, p) {
      var (st1, start) := GrabRun(st, p.count).value;
      RunStep(g, j, st, ino, p, first, n, st1, start);
      var j2 := j.(img := StageRun(j.img, start, p), s := TakeRun(g, j.s, start, p.count));
      var st2 := st1.(blocks := Lay(st1.blocks, start, p));
      var raw := EntryFor(start, p);
      var k := first + n;
      SimEntryIs(g, j2, st2, ino, k, first, n);
      SetStep(g, j2, st2, ino, raw, first, n);
      var (s3, ino', ok) := SimSet(g, j2.img, j2.s, ino, k, raw);
      var (st3, _, _) := SetEntry(st2, ino, k, raw);
      if ok {
        assert FileOk(st2, ino) by { KeepsIsOk(st, ino, st2, ino); }
        SetEntryIs(st2, ino, k, raw);
        OldEntry(st, ino, st2, k);
        InsideStays(st, ino, st2, st3, k);
        BackStep(g, Took(j2, s3), st3, ino', st2, ino, raw, first, n);
        StepPlaces(c, st, ino, k, p);
        NewInside(c, g, st, ino, k, p, CommitStep(st, ino, k, p).st, CommitStep(st, ino, k, p).ino);
      }
    }
  }

  lemma InsideStays(st: Store, ino: Inode, st2: Store, st3: Store, k: nat)
    requires EntriesInside(st, ino) && k < MAX_LOGICAL_BLOCKS && Keeps(st, ino, st2, ino) && SameShape(st2, st3)
    requires EntryAt(st2.blocks, ino, k) == EntryAt(st.blocks, ino, k)
    ensures EntryInside(st3, EntryAt(st2.blocks, ino, k))
  {
    hide EntryAt, FileOk, SameEntries, SameChunks, EntryIsEmpty, EntryStart, EntryCount, Foreign;
  }

  /** A commit whose run ends inside the image leaves only such runs. */
  lemma NewInside(c: Codec, g: Geometry, st: Store, ino: Inode, k: nat, p: Prepared, st': Store, ino': Inode)
    requires StoreOk(st) && EntriesInside(st, ino) && k < MAX_LOGICAL_BLOCKS && ChunkCodec.Fits(p) && RunFits(st, p)
    requires ChunkPlaced(c, st, ino, k, p, st', ino')
    ensures EntriesInside(st', ino')
  {
    hide EntryAt, FileOk, EntryIsEmpty, EntryStart, EntryCount, EntryLen, EntryFlags, EntryFor, SameChunk, Foreign,
         GrabRun, Taken, LeaksNothing;
    FitsCount(p);
    GrabRunIs(st, p.count);
    var start := GrabRun(st, p.count).value.1;
    EntryForIs(start, p);
    forall i | 0 <= i < MAX_LOGICAL_BLOCKS ensures EntryInside(st', EntryAt(st'.blocks, ino', i)) {
      assert EntryInside(st, EntryAt(st.blocks, ino, i));
    }
  }
}
