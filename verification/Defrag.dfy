/** In-place defragmentation as the source performs it (src/disk.rs, `defragment_inplace_on`):
    collect, plan, permute, rewrite pointers, rebuild the bitmap. */
module Defrag {
  import opened Sizes
  import opened PointerTree
  import opened Layout
  import opened Relocate
  import opened DefragTheory
  import opened Compaction
  import opened LogicalOrder
  import opened TableOrder
  import opened DefragOrder

  // ---------------------------------------------------------------------------
  // Collecting
  // ---------------------------------------------------------------------------

  /** Payload blocks and pointer tables below `root`; the source nests one loop per level. */
  method CollectTree(blocks: seq<Block>, seekable: bool, root: nat, depth: nat)
    returns (payload: seq<nat>, tables: seq<nat>)
    ensures payload == Expand(seekable, RawLeaves(Rd(blocks), root, depth))
    ensures tables == Tables(Rd(blocks), root, depth)
    decreases depth
  {
    hide Expand, LeafBlocks;
    ghost var rd := Rd(blocks);
    ExpandSmall(seekable, root);
    if depth == 0 {
      return LeafBlocks(seekable, root), [];
    }
    if root == 0 {
      return [], [];
    }
    payload, tables := [], [root];
    assert [root] + SlotTables(rd, root, depth, 0) == [root];
    for i := 0 to SLOTS
      invariant payload == Expand(seekable, SlotLeaves(rd, root, depth, i))
      invariant tables == [root] + SlotTables(rd, root, depth, i)
    {
      var child := ReadPtr(blocks, root, i);
      var p, t := CollectTree(blocks, seekable, child, depth - 1);
      ExpandConcat(seekable, SlotLeaves(rd, root, depth, i), RawLeaves(rd, child, depth - 1));
      payload, tables := payload + p, tables + t;
    }
  }

  lemma ExpandSmall(sk: bool, raw: nat)
    ensures Expand(sk, []) == [] && Expand(sk, [raw]) == LeafBlocks(sk, raw)
  {
    assert [raw][..0] == [];
  }

  method CollectInodeBlockLayout(blocks: seq<Block>, ino: Inode) returns (payload: seq<nat>, tables: seq<nat>)
    ensures payload == PayloadOf(Rd(blocks), ino)
    ensures tables == InodeTables(Rd(blocks), ino)
    ensures payload == Gather(Named(ino.seekable), ByIndex(Rd(blocks), ino), MAX_LOGICAL_BLOCKS)
    ensures forall t :: t in tables <==> IsPointerBlock(Rd(blocks), ino, t)
  {
    hide Gather, IsPointerBlock, LeafBlocks, RawLeaves, Tables, Named, ByIndex;
    ghost var rd, sk := Rd(blocks), ino.seekable;
    InodeGathers(rd, ino);
    forall t: nat ensures t in InodeTables(rd, ino) <==> IsPointerBlock(rd, ino, t) { TablesAre(rd, ino, t); }
    payload := [];
    for i := 0 to 10
      invariant payload == Expand(sk, ino.blocks[..i])
    {
      assert ino.blocks[..i + 1][..i] == ino.blocks[..i];
      payload := payload + LeafBlocks(ino.seekable, ino.blocks[i]);
    }
    var p1, t1 := CollectTree(blocks, ino.seekable, ino.blocks[10], 1);
    var p2, t2 := CollectTree(blocks, ino.seekable, ino.blocks[11], 2);
    var p3, t3 := CollectTree(blocks, ino.seekable, ino.tripleIndirect, 3);
    ExpandFour(sk, ino.blocks[..10], RawLeaves(rd, ino.blocks[10], 1), RawLeaves(rd, ino.blocks[11], 2),
               RawLeaves(rd, ino.tripleIndirect, 3));
    payload, tables := payload + p1 + p2 + p3, t1 + t2 + t3;
  }

  lemma ExpandFour(sk: bool, a: seq<nat>, b: seq<nat>, c: seq<nat>, d: seq<nat>)
    ensures Expand(sk, a + b + c + d) == Expand(sk, a) + Expand(sk, b) + Expand(sk, c) + Expand(sk, d)
  {
    hide Expand;
    ExpandConcat(sk, a + b + c, d);
    ExpandConcat(sk, a + b, c);
    ExpandConcat(sk, a, b);
  }

  /** The non-empty entries among `raws`, in order. */
  ghost function NonEmpty(raws: seq<nat>): seq<nat> {
    if raws == [] then []
    else
      var n := |raws| - 1;
      NonEmpty(raws[..n]) + (if EntryIsEmpty(raws[n]) then [] else [raws[n]])
  }

  lemma {:induction false} NonEmptyMembers(raws: seq<nat>)
    ensures forall raw :: raw in NonEmpty(raws) <==> raw in raws && !EntryIsEmpty(raw)
  {
    hide EntryIsEmpty;
    if raws != [] {
      var n := |raws| - 1;
      NonEmptyMembers(raws[..n]);
      assert raws == raws[..n] + [raws[n]];
    }
  }

  /** A slot value, unless it is an empty entry. */
  function Itself(): (pick: nat -> seq<nat>)
    ensures pick(0) == []
  {
    raw => if EntryIsEmpty(raw) then [] else [raw]
  }

  lemma {:induction false} NonEmptyIsCollect(raws: seq<nat>)
    ensures NonEmpty(raws) == Collect(Itself(), raws)
  {
    hide EntryIsEmpty;
    if raws != [] { NonEmptyIsCollect(raws[..|raws| - 1]); }
  }

  lemma {:induction false} NonEmptyConcat(a: seq<nat>, b: seq<nat>)
    ensures NonEmpty(a + b) == NonEmpty(a) + NonEmpty(b)
    decreases |b|
  {
    hide EntryIsEmpty;
    if b == [] {
      assert a + b == a;
    } else {
      var n := |b| - 1;
      NonEmptyConcat(a, b[..n]);
      assert (a + b)[..|a + b| - 1] == a + b[..n];
    }
  }

  /** The non-empty chunk entries below `root`. */
  method CollectEntries(blocks: seq<Block>, root: nat, depth: nat) returns (entries: seq<nat>)
    ensures entries == NonEmpty(RawLeaves(Rd(blocks), root, depth))
    decreases depth
  {
    hide EntryIsEmpty;
    ghost var rd := Rd(blocks);
    assert [root][..0] == [];
    if depth == 0 {
      return if EntryIsEmpty(root) then [] else [root];
    }
    entries := [];
    if root != 0 {
      for i := 0 to SLOTS
        invariant entries == NonEmpty(SlotLeaves(rd, root, depth, i))
      {
        var more := CollectEntries(blocks, ReadPtr(blocks, root, i), depth - 1);
        NonEmptyConcat(SlotLeaves(rd, root, depth, i), RawLeaves(rd, rd(root, i), depth - 1));
        entries := entries + more;
      }
    }
  }

  method CollectChunkEntries(blocks: seq<Block>, ino: Inode) returns (entries: seq<nat>)
    ensures entries == if ino.seekable then NonEmpty(InodeLeaves(Rd(blocks), ino)) else []
    ensures ino.seekable ==> entries == Gather(Itself(), ByIndex(Rd(blocks), ino), MAX_LOGICAL_BLOCKS)
  {
    hide EntryIsEmpty, RawLeaves, Gather;
    ghost var rd := Rd(blocks);
    NonEmptyIsCollect(InodeLeaves(rd, ino));
    InodeCollects(rd, ino, Itself());
    entries := [];
    if !ino.seekable {
      return;
    }
    for i := 0 to 10
      invariant entries == NonEmpty(ino.blocks[..i])
    {
      assert ino.blocks[..i + 1][..i] == ino.blocks[..i];
      if !EntryIsEmpty(ino.blocks[i]) {
        entries := entries + [ino.blocks[i]];
      }
    }
    var e1 := CollectEntries(blocks, ino.blocks[10], 1);
    var e2 := CollectEntries(blocks, ino.blocks[11], 2);
    var e3 := CollectEntries(blocks, ino.tripleIndirect, 3);
    ghost var a, b := RawLeaves(rd, ino.blocks[10], 1), RawLeaves(rd, ino.blocks[11], 2);
    ghost var c := RawLeaves(rd, ino.tripleIndirect, 3);
    NonEmptyConcat(ino.blocks[..10], a);
    NonEmptyConcat(ino.blocks[..10] + a, b);
    NonEmptyConcat(ino.blocks[..10] + a + b, c);
    entries := entries + e1 + e2 + e3;
  }

  /** The allocated inode ids, in increasing order. */
  ghost function LiveIds(bits: seq<bool>): seq<nat> {
    if bits == [] then []
    else
      var n := |bits| - 1;
      LiveIds(bits[..n]) + (if bits[n] then [n] else [])
  }

  lemma NoDupSnoc(s: seq<nat>, x: nat)
    requires NoDup(s) && x !in s
    ensures NoDup(s + [x])
  {
  }

  lemma {:induction false} LiveIdsExact(bits: seq<bool>)
    ensures NoDup(LiveIds(bits))
    ensures forall id: nat :: id in LiveIds(bits) <==> id < |bits| && bits[id]
    ensures forall i, j :: 0 <= i < j < |LiveIds(bits)| ==> LiveIds(bits)[i] < LiveIds(bits)[j]
  {
    if bits != [] {
      var n := |bits| - 1;
      var pre := LiveIds(bits[..n]);
      LiveIdsExact(bits[..n]);
      if bits[n] {
        NoDupSnoc(pre, n);
        forall i | 0 <= i < |pre| ensures pre[i] < n { assert pre[i] in pre; }
      }
      forall id: nat ensures id in LiveIds(bits) <==> id < |bits| && bits[id] {
        assert id in LiveIds(bits) <==> id in pre || (bits[n] && id == n);
        assert id in pre <==> id < n && bits[..n][id];
      }
    }
  }

  method CollectLive(inodeBits: seq<bool>) returns (live: seq<nat>)
    ensures live == LiveIds(inodeBits)
  {
    live := [];
    for id := 0 to |inodeBits|
      invariant live == LiveIds(inodeBits[..id])
    {
      assert inodeBits[..id + 1][..id] == inodeBits[..id];
      if inodeBits[id] {
        live := live + [id];
      }
    }
    assert inodeBits[..|inodeBits|] == inodeBits;
  }

  method PlanOrder(table: seq<Inode>, live: seq<nat>) returns (dirs: seq<nat>, files: seq<nat>)
    requires ValidIds(live, table)
    ensures dirs == Directories(table, live) && files == Files(table, live)
  {
    dirs, files := [], [];
    for k := 0 to |live|
      invariant dirs == Directories(table, live[..k]) && files == Files(table, live[..k])
    {
      assert live[..k + 1][..k] == live[..k];
      var ino := table[live[k]];
      if ino.mode.Directory? {
        dirs := dirs + [live[k]];
      } else if ino.mode.File? && ino.size > 0 {
        files := files + [live[k]];
      }
    }
    assert live[..|live|] == live;
  }

  // ---------------------------------------------------------------------------
  // Planning
  // ---------------------------------------------------------------------------

  /** Gives the blocks of `blks` the next targets in order. */
  method AssignTargets(f0: Moves, next0: nat, blks: seq<nat>, ghost done: seq<nat>, ghost dataStart: nat)
    returns (f: Moves, next: nat)
    requires IsPlan(f0, done, dataStart) && next0 == dataStart + |done|
    requires NoDup(done + blks)
    ensures IsPlan(f, done + blks, dataStart) && next == dataStart + |done + blks|
  {
    hide IsPlan, NoDup;
    f, next := f0, next0;
    assert done + blks[..0] == done;
    for k := 0 to |blks|
      invariant IsPlan(f, done + blks[..k], dataStart) && next == dataStart + |done| + k
    {
      NotYetPlanned(done, blks, k);
      PlanSnoc(f, done + blks[..k], dataStart, blks[k]);
      assert done + blks[..k] + [blks[k]] == done + blks[..k + 1];
      f := f[blks[k] := next];
      next := next + 1;
    }
    assert done + blks[..|blks|] == done + blks;
  }

  lemma NotYetPlanned(done: seq<nat>, blks: seq<nat>, k: nat)
    requires NoDup(done + blks) && k < |blks|
    ensures blks[k] !in done + blks[..k]
  {
    var s := done + blks;
    assert s[|done| + k] == blks[k];
    assert done + blks[..k] == s[..|done| + k];
  }

  lemma PlanSnoc(f: Moves, layout: seq<nat>, dataStart: nat, b: nat)
    requires IsPlan(f, layout, dataStart) && b !in layout
    ensures IsPlan(f[b := dataStart + |layout|], layout + [b], dataStart)
  {
  }

  /** Plans the inodes of `ids` after those already planned. */
  method PlanInodes(blocks: seq<Block>, table: seq<Inode>, ids: seq<nat>, f0: Moves, next0: nat, ind0: set<nat>,
                    ghost order: seq<nat>, ghost from: nat, ghost dataStart: nat)
    returns (f: Moves, next: nat, ind: set<nat>)
    requires ValidIds(ids, table) && ValidIds(order, table)
    requires from + |ids| <= |order| && order[from..from + |ids|] == ids
    requires NoDup(LayoutUpTo(Rd(blocks), table, order, |order|))
    requires IsPlan(f0, LayoutUpTo(Rd(blocks), table, order, from), dataStart)
    requires next0 == dataStart + |LayoutUpTo(Rd(blocks), table, order, from)|
    requires ind0 == TablesUpTo(Rd(blocks), table, order, from)
    ensures IsPlan(f, LayoutUpTo(Rd(blocks), table, order, from + |ids|), dataStart)
    ensures next == dataStart + |LayoutUpTo(Rd(blocks), table, order, from + |ids|)|
    ensures ind == TablesUpTo(Rd(blocks), table, order, from + |ids|)
  {
    hide *;
    f, next, ind := f0, next0, ind0;
    ghost var rd := Rd(blocks);
    for k := 0 to |ids|
      invariant IsPlan(f, LayoutUpTo(rd, table, order, from + k), dataStart)
      invariant next == dataStart + |LayoutUpTo(rd, table, order, from + k)|
      invariant ind == TablesUpTo(rd, table, order, from + k)
    {
      assert order[from + k] == order[from..from + |ids|][k] == ids[k];
      IdIsValid(table, ids, k);
      f, next, ind := PlanOne(blocks, table, table[ids[k]], f, next, ind, order, from + k, dataStart);
    }
  }

  lemma IdIsValid(table: seq<Inode>, ids: seq<nat>, k: nat)
    requires ValidIds(ids, table) && k < |ids|
    ensures ids[k] < |table|
  {
  }

  method PlanOne(blocks: seq<Block>, ghost table: seq<Inode>, ino: Inode, f0: Moves, next0: nat, ind0: set<nat>,
                 ghost order: seq<nat>, ghost n: nat, ghost dataStart: nat)
    returns (f: Moves, next: nat, ind: set<nat>)
    requires ValidIds(order, table) && n < |order| && ino == table[order[n]]
    requires NoDup(LayoutUpTo(Rd(blocks), table, order, |order|))
    requires IsPlan(f0, LayoutUpTo(Rd(blocks), table, order, n), dataStart)
    requires next0 == dataStart + |LayoutUpTo(Rd(blocks), table, order, n)|
    requires ind0 == TablesUpTo(Rd(blocks), table, order, n)
    ensures IsPlan(f, LayoutUpTo(Rd(blocks), table, order, n + 1), dataStart)
    ensures next == dataStart + |LayoutUpTo(Rd(blocks), table, order, n + 1)|
    ensures ind == TablesUpTo(Rd(blocks), table, order, n + 1)
  {
    hide *;
    var payload, tables := CollectInodeBlockLayout(blocks, ino);
    ghost var done := LayoutUpTo(Rd(blocks), table, order, n);
    NoDupPrefix(Rd(blocks), table, order, n + 1, |order|);
    LayoutStep(Rd(blocks), table, order, n);
    NoDupSplit(done + payload, tables);
    f, next := AssignTargets(f0, next0, payload, done, dataStart);
    f, next := AssignTargets(f, next, tables, done + payload, dataStart);
    ind := ind0 + Elements(tables);
  }

  lemma LayoutStep(rd: Reader, table: seq<Inode>, order: seq<nat>, n: nat)
    requires ValidIds(order, table) && n < |order|
    ensures order[n] < |table|
    ensures LayoutUpTo(rd, table, order, n + 1)
         == LayoutUpTo(rd, table, order, n) + PayloadOf(rd, table[order[n]]) + InodeTables(rd, table[order[n]])
    ensures TablesUpTo(rd, table, order, n + 1)
         == TablesUpTo(rd, table, order, n) + Elements(InodeTables(rd, table[order[n]]))
  {
    hide InodeTables, InodeLeaves, Expand;
    var done, p, t := LayoutUpTo(rd, table, order, n), PayloadOf(rd, table[order[n]]), InodeTables(rd, table[order[n]]);
    assert InodeLayout(rd, table[order[n]]) == p + t;
    assert done + p + t == done + (p + t);
  }

  lemma {:induction false} NoDupPrefix(rd: Reader, inodes: seq<Inode>, order: seq<nat>, m: nat, n: nat)
    requires ValidIds(order, inodes) && m <= n <= |order|
    requires NoDup(LayoutUpTo(rd, inodes, order, n))
    ensures NoDup(LayoutUpTo(rd, inodes, order, m))
    decreases n
  {
    hide InodeLayout;
    if m < n {
      NoDupSplit(LayoutUpTo(rd, inodes, order, n - 1), InodeLayout(rd, inodes[order[n - 1]]));
      NoDupPrefix(rd, inodes, order, m, n - 1);
    }
  }

  /** The relocated counterpart of every collected chunk entry whose run moves with the plan. */
  ghost predicate CoversEntries(e: Moves, f: Moves, rd: Reader, ino: Inode) {
    ino.seekable ==>
      forall raw :: raw in InodeLeaves(rd, ino) && !EntryIsEmpty(raw) && EntryStart(raw) in f ==> raw in e
  }

  method PlanEntries(blocks: seq<Block>, table: seq<Inode>, files: seq<nat>, f: Moves) returns (e: Moves)
    requires ValidIds(files, table)
    ensures IsEntryMap(e, f)
    ensures forall k :: 0 <= k < |files| ==> CoversEntries(e, f, Rd(blocks), table[files[k]])
  {
    hide EntryIsEmpty, EntryStart, InodeLeaves, MovedEntry;
    e := map[];
    for k := 0 to |files|
      invariant IsEntryMap(e, f)
      invariant forall i :: 0 <= i < k ==> CoversEntries(e, f, Rd(blocks), table[files[i]])
    {
      var entries := CollectChunkEntries(blocks, table[files[k]]);
      NonEmptyMembers(InodeLeaves(Rd(blocks), table[files[k]]));
      e := AddEntries(e, f, entries);
    }
  }

  method AddEntries(e0: Moves, f: Moves, entries: seq<nat>) returns (e: Moves)
    requires IsEntryMap(e0, f)
    requires forall raw :: raw in entries ==> !EntryIsEmpty(raw)
    ensures IsEntryMap(e, f)
    ensures forall raw :: raw in e <==> raw in e0 || (raw in entries && EntryStart(raw) in f)
  {
    hide EntryIsEmpty, EntryStart;
    e := e0;
    for j := 0 to |entries|
      invariant IsEntryMap(e, f)
      invariant forall raw :: raw in e <==> raw in e0 || (raw in entries[..j] && EntryStart(raw) in f)
    {
      var raw := entries[j];
      assert raw in entries;
      assert entries[..j + 1] == entries[..j] + [raw];
      if EntryStart(raw) in f {
        var entry := PackEntry(f[EntryStart(raw)] % 0x1_0000_0000, EntryCount(raw), EntryFlags(raw), EntryLen(raw));
        e := e[raw := entry];
      }
    }
    assert entries[..|entries|] == entries;
  }

  // ---------------------------------------------------------------------------
  // Rewriting
  // ---------------------------------------------------------------------------

  method RewriteInodePointers(ino: Inode, f: Moves, e: Moves) returns (r: Inode)
    ensures r == RewriteInode(f, e, ino)
  {
    r := ino;
    for i := 0 to 10
      invariant r == ino.(blocks := r.blocks)
      invariant forall k :: 0 <= k < i ==> r.blocks[k] == LookupNew(f, e, ino.blocks[k])
      invariant forall k :: i <= k < 12 ==> r.blocks[k] == ino.blocks[k]
    {
      if r.blocks[i] != 0 {
        if r.blocks[i] in f {
          r := r.(blocks := r.blocks[i := f[r.blocks[i]]]);
        } else if r.blocks[i] in e {
          r := r.(blocks := r.blocks[i := e[r.blocks[i]]]);
        }
      }
    }
    if r.blocks[10] != 0 && r.blocks[10] in f {
      r := r.(blocks := r.blocks[10 := f[r.blocks[10]]]);
    }
    if r.blocks[11] != 0 && r.blocks[11] in f {
      r := r.(blocks := r.blocks[11 := f[r.blocks[11]]]);
    }
    if r.tripleIndirect != 0 && r.tripleIndirect in f {
      r := r.(tripleIndirect := f[r.tripleIndirect]);
    }
    assert r.blocks == RewriteInode(f, e, ino).blocks;
  }

  method RewriteInodes(table: array<Inode>, live: seq<nat>, f: Moves, e: Moves)
    requires ValidIds(live, table[..]) && NoDup(live)
    modifies table
    ensures forall id :: 0 <= id < table.Length ==>
              table[id] == if id in live then RewriteInode(f, e, old(table[id])) else old(table[id])
  {
    hide RewriteInode;
    for k := 0 to |live|
      invariant forall id :: 0 <= id < table.Length ==>
        table[id] == if id in live[..k] then RewriteInode(f, e, old(table[id])) else old(table[id])
    {
      assert live[k] !in live[..k];
      assert live[..k + 1] == live[..k] + [live[k]];
      table[live[k]] := RewriteInodePointers(table[live[k]], f, e);
    }
    assert live[..|live|] == live;
  }

  method RewriteTable(b: Block, f: Moves, e: Moves) returns (r: Block)
    ensures r == RewriteBlock(f, e, b)
  {
    r := b;
    for i := 0 to SLOTS
      invariant forall k :: 0 <= k < i ==> r[k] == LookupNew(f, e, b[k])
      invariant forall k :: i <= k < SLOTS ==> r[k] == b[k]
    {
      if r[i] != 0 {
        r := r[i := LookupNew(f, e, r[i])];
      }
    }
  }

  /** Every pointer table is rewritten once, at its new place. */
  method RewriteTables(image: array<Block>, tables: set<nat>, f: Moves, e: Moves)
    requires Injective(f)
    requires forall t :: t in tables ==> t in f && f[t] < image.Length
    modifies image
    ensures forall t :: t in tables ==> image[f[t]] == RewriteBlock(f, e, old(image[f[t]]))
    ensures forall p :: 0 <= p < image.Length && (forall t :: t in tables ==> f[t] != p) ==> image[p] == old(image[p])
  {
    hide RewriteBlock;
    var todo := tables;
    while todo != {}
      invariant todo <= tables
      invariant forall t :: t in tables && t !in todo ==> image[f[t]] == RewriteBlock(f, e, old(image[f[t]]))
      invariant forall t :: t in todo ==> image[f[t]] == old(image[f[t]])
      invariant forall p :: 0 <= p < image.Length && (forall t :: t in tables ==> f[t] != p) ==>
        image[p] == old(image[p])
      decreases |todo|
    {
      var t: nat :| t in todo;
      var rewritten := RewriteTable(image[f[t]], f, e);
      image[f[t]] := rewritten;
      todo := todo - {t};
    }
  }

  /** Only the first `total` bits stay set. */
  method ResetBitmap(bits: array<bool>, total: nat)
    modifies bits
    ensures forall i :: 0 <= i < bits.Length ==> bits[i] == (i < total)
  {
    for i := 0 to bits.Length
      invariant forall k :: 0 <= k < i ==> !bits[k]
    {
      bits[i] := false;
    }
    for bit := 0 to total
      invariant forall i :: 0 <= i < bits.Length ==> bits[i] == (i < bit)
    {
      if bit < bits.Length {
        bits[bit] := true;
      }
    }
  }

  // ---------------------------------------------------------------------------
  // The whole pass
  // ---------------------------------------------------------------------------

  lemma PlanIsInjective(f: Moves, layout: seq<nat>, dataStart: nat)
    requires IsPlan(f, layout, dataStart)
    ensures Injective(f)
  {
    forall s, t | s in f && t in f && f[s] == f[t] ensures s == t {
      var i :| 0 <= i < |layout| && layout[i] == s;
      var j :| 0 <= j < |layout| && layout[j] == t;
    }
  }

  function NeedsMove(f: Moves): Moves {
    map s | s in f && f[s] != s :: f[s]
  }

  lemma MovesAreLegal(f: Moves, n: nat)
    requires Injective(f) && forall b :: b in f ==> b < n && f[b] < n
    ensures Injective(NeedsMove(f)) && NoFixedPoint(NeedsMove(f)) && InRange(NeedsMove(f), n)
  {
  }

  /** Blocks that stay put are no destination of a move, so the permutation realises all of `f`. */
  lemma PermutedByPlan<T>(before: seq<T>, after: seq<T>, f: Moves)
    requires Injective(f) && forall b :: b in f ==> b < |before| && f[b] < |before|
    requires Moved(before, after, NeedsMove(f))
    ensures |after| == |before| && forall b :: b in f ==> after[f[b]] == before[b]
  {
    forall b | b in f ensures after[f[b]] == before[b] {
      if f[b] == b {
        assert !IsDestination(NeedsMove(f), b);
      } else {
        assert b in NeedsMove(f);
      }
    }
  }

  /** Planned blocks that are no tables are not written by the table pass. */
  lemma NonTables(f: Moves, tables: set<nat>, mid: seq<Block>, after: seq<Block>)
    requires Injective(f) && |after| == |mid| && forall t :: t in tables ==> t in f
    requires forall p :: 0 <= p < |mid| && (forall t :: t in tables ==> f[t] != p) ==> after[p] == mid[p]
    ensures forall b :: b in f && b !in tables && f[b] < |mid| ==> after[f[b]] == mid[f[b]]
  {
  }

  /** Everything `Plan` hands to the later steps. */
  ghost predicate PlanReady(v: Volume, live: seq<nat>, dataStart: nat, f: Moves, e: Moves, tables: set<nat>,
                            next: nat) {
    && WellFormed(v, live, dataStart)
    && IsPlan(f, Planned(v, live), dataStart)
    && next == dataStart + |Planned(v, live)|
    && tables == PlannedTables(v, live)
    && IsEntryMap(e, f)
    && EntriesComplete(v, live, f, e)
  }

  method Plan(blocks: seq<Block>, table: seq<Inode>, live: seq<nat>, dataStart: nat)
    returns (f: Moves, e: Moves, tables: set<nat>, next: nat)
    requires WellFormed(Volume(blocks, table), live, dataStart)
    ensures PlanReady(Volume(blocks, table), live, dataStart, f, e, tables, next)
  {
    hide *;
    ghost var v := Volume(blocks, table);
    PlanFacts(v, live, dataStart);
    ghost var order := Order(v, live);
    var dirs, files := PlanOrder(table, live);
    StartPlan(Rd(blocks), table, order, dataStart);
    f, next, tables := PlanInodes(blocks, table, dirs, map[], dataStart, {}, order, 0, dataStart);
    f, next, tables := PlanInodes(blocks, table, files, f, next, tables, order, |dirs|, dataStart);
    e := PlanEntries(blocks, table, files, f);
    CoverageIsComplete(v, live, dataStart, f, e);
    PlanDone(v, live, dataStart, f, e, tables, next);
  }

  lemma PlanFacts(v: Volume, live: seq<nat>, dataStart: nat)
    requires WellFormed(v, live, dataStart)
    ensures ValidIds(live, v.inodes)
    ensures ValidIds(Directories(v.inodes, live), v.inodes) && ValidIds(Files(v.inodes, live), v.inodes)
    ensures Order(v, live) == Directories(v.inodes, live) + Files(v.inodes, live)
    ensures var d := |Directories(v.inodes, live)|;
            && |Order(v, live)| == d + |Files(v.inodes, live)|
            && Order(v, live)[0..d] == Directories(v.inodes, live)
            && Order(v, live)[d..d + |Files(v.inodes, live)|] == Files(v.inodes, live)
    ensures NoDup(LayoutUpTo(Rd(v.blocks), v.inodes, Order(v, live), |Order(v, live)|))
  {
    hide NoDup, WellFormedInode, LayoutUpTo;
    DirectoriesExact(v.inodes, live);
    FilesExact(v.inodes, live);
  }

  lemma PlanDone(v: Volume, live: seq<nat>, dataStart: nat, f: Moves, e: Moves, tables: set<nat>, next: nat)
    requires WellFormed(v, live, dataStart)
    requires ValidIds(live, v.inodes)
    requires IsPlan(f, LayoutUpTo(Rd(v.blocks), v.inodes, Order(v, live), |Order(v, live)|), dataStart)
    requires next == dataStart + |LayoutUpTo(Rd(v.blocks), v.inodes, Order(v, live), |Order(v, live)|)|
    requires tables == TablesUpTo(Rd(v.blocks), v.inodes, Order(v, live), |Order(v, live)|)
    requires IsEntryMap(e, f) && EntriesComplete(v, live, f, e)
    ensures PlanReady(v, live, dataStart, f, e, tables, next)
  {
    hide WellFormed, IsPlan, IsEntryMap, EntriesComplete, LayoutUpTo, TablesUpTo;
  }

  lemma StartPlan(rd: Reader, table: seq<Inode>, order: seq<nat>, dataStart: nat)
    requires ValidIds(order, table)
    ensures IsPlan(map[], LayoutUpTo(rd, table, order, 0), dataStart)
    ensures TablesUpTo(rd, table, order, 0) == {} && LayoutUpTo(rd, table, order, 0) == []
  {
  }

  lemma CoverageIsComplete(v: Volume, live: seq<nat>, dataStart: nat, f: Moves, e: Moves)
    requires WellFormed(v, live, dataStart)
    requires ValidIds(live, v.inodes) && ValidIds(Files(v.inodes, live), v.inodes)
    requires forall k :: 0 <= k < |Files(v.inodes, live)| ==>
               CoversEntries(e, f, Rd(v.blocks), v.inodes[Files(v.inodes, live)[k]])
    ensures EntriesComplete(v, live, f, e)
  {
    hide EntryIsEmpty, EntryStart, InodeLeaves, NoDup, Planned, Files, InodeLayout;
    FilesExact(v.inodes, live);
    forall id, raw |
      && id in live && id < |v.inodes| && v.inodes[id].seekable && v.inodes[id].size > 0
      && raw in InodeLeaves(Rd(v.blocks), v.inodes[id]) && !EntryIsEmpty(raw) && EntryStart(raw) in f
      ensures raw in e
    {
      assert WellFormedInode(v, v.inodes[id]);
      assert id in Files(v.inodes, live);
      var k :| 0 <= k < |Files(v.inodes, live)| && Files(v.inodes, live)[k] == id;
      assert CoversEntries(e, f, Rd(v.blocks), v.inodes[id]);
    }
  }

  lemma PlanGivesMoves(v: Volume, live: seq<nat>, dataStart: nat, f: Moves, e: Moves, tables: set<nat>, next: nat)
    requires PlanReady(v, live, dataStart, f, e, tables, next)
    ensures ValidIds(live, v.inodes) && next == dataStart + |Planned(v, live)|
    ensures Injective(f) && forall b :: b in f ==> b < |v.blocks| && f[b] < |v.blocks|
    ensures forall t :: t in tables ==> t in f && f[t] < |v.blocks|
    ensures Injective(NeedsMove(f)) && NoFixedPoint(NeedsMove(f)) && InRange(NeedsMove(f), |v.blocks|)
  {
    hide NoDup, WellFormedInode, LayoutUpTo, TablesUpTo, IsEntryMap, EntriesComplete, NeedsMove;
    var layout := Planned(v, live);
    PlanIsInjective(f, layout, dataStart);
    forall b | b in f ensures b < |v.blocks| && f[b] < |v.blocks| {
      PlanOfMember(f, layout, dataStart, b, |v.blocks|);
    }
    forall t | t in tables ensures t in f && f[t] < |v.blocks| {
      TableIsPlanned(Rd(v.blocks), v.inodes, Order(v, live), |Order(v, live)|, t);
    }
    MovesAreLegal(f, |v.blocks|);
  }

  /** Neither the permutation nor the table pass writes outside the compact prefix. */
  lemma OutsideKept(v: Volume, live: seq<nat>, dataStart: nat, f: Moves, e: Moves, tables: set<nat>, next: nat,
                    mid: seq<Block>, after: seq<Block>)
    requires PlanReady(v, live, dataStart, f, e, tables, next) && Moved(v.blocks, mid, NeedsMove(f)) && |after| == |mid|
    requires forall t :: t in tables ==> t in f
    requires forall p :: 0 <= p < |mid| && (forall t :: t in tables ==> f[t] != p) ==> after[p] == mid[p]
    ensures ValidIds(live, v.inodes)
    ensures forall b :: 0 <= b < |after| && !(dataStart <= b < dataStart + |Planned(v, live)|) ==>
              after[b] == v.blocks[b]
  {
    hide WellFormedInode, LayoutUpTo, TablesUpTo, IsEntryMap, EntriesComplete, NoDup;
    var layout := Planned(v, live);
    forall b | b in f ensures dataStart <= f[b] < dataStart + |layout| {
      var i :| 0 <= i < |layout| && layout[i] == b;
    }
    forall b | 0 <= b < |after| && !(dataStart <= b < dataStart + |layout|) ensures after[b] == v.blocks[b] {
      assert !IsDestination(NeedsMove(f), b);
    }
  }

  /** The permuted image, the rewritten inodes and the rewritten tables make up a relocation. */
  lemma FinishDefrag(v: Volume, mid: seq<Block>, v': Volume, live: seq<nat>, dataStart: nat, f: Moves, e: Moves,
                     tables: set<nat>, next: nat)
    requires PlanReady(v, live, dataStart, f, e, tables, next)
    requires |mid| == |v.blocks| == |v'.blocks| && |v'.inodes| == |v.inodes|
    requires forall b :: b in f ==> f[b] < |mid| && b < |mid| && mid[f[b]] == v.blocks[b]
    requires forall t :: t in tables ==> t in f && v'.blocks[f[t]] == RewriteBlock(f, e, mid[f[t]])
    requires forall b :: b in f && b !in tables && f[b] < |mid| ==> v'.blocks[f[b]] == mid[f[b]]
    requires forall id :: 0 <= id < |v.inodes| ==>
               v'.inodes[id] == if id in live then RewriteInode(f, e, v.inodes[id]) else v.inodes[id]
    ensures Relocation(v, v', live, dataStart, f, e)
  {
    hide NoDup, WellFormedInode, LayoutUpTo, TablesUpTo, IsEntryMap, EntriesComplete, RewriteBlock, RewriteInode,
         IsPlan;
    assert Defragmented(v, v', live, f, e);
  }

  /** Everything but the pointers. */
  ghost predicate SameMetadata(a: Inode, b: Inode) {
    b == a.(blocks := b.blocks, tripleIndirect := b.tripleIndirect)
  }

  lemma MetadataOfSelf(a: Inode)
    ensures SameMetadata(a, a)
  {
  }

  lemma RewriteKeepsMetadata(f: Moves, e: Moves, ino: Inode)
    ensures SameMetadata(ino, RewriteInode(f, e, ino)) && SameMetadata(ino, ino)
  {
  }

  lemma CompactLength(v: Volume, v': Volume, live: seq<nat>, dataStart: nat, f: Moves, e: Moves)
    requires Relocation(v, v', live, dataStart, f, e)
    ensures ValidIds(live, v.inodes) && ValidIds(live, v'.inodes)
    ensures |Planned(v', live)| == |Planned(v, live)| && Planned(v', live) == Run(dataStart, |Planned(v', live)|)
  {
    hide Relocation, Planned;
    ShapeKept(v, v', live, dataStart, f, e);
    PlannedIsCompact(v, v', live, dataStart, f, e);
  }

  lemma NowPacked(v: Volume, live: seq<nat>, dataStart: nat)
    requires WellFormed(v, live, dataStart) && Increasing(live)
    requires ValidIds(live, v.inodes) && Planned(v, live) == Run(dataStart, |Planned(v, live)|)
    ensures Packed(v, live, dataStart, |Planned(v, live)|)
  {
    hide WellFormed, Planned;
  }

  /** If the plan moves nothing, the volume is packed already. */
  lemma AlreadyPacked(v: Volume, live: seq<nat>, dataStart: nat, f: Moves, e: Moves, tables: set<nat>, next: nat)
    requires PlanReady(v, live, dataStart, f, e, tables, next) && Increasing(live) && NeedsMove(f).Keys == {}
    ensures dataStart <= next && Packed(v, live, dataStart, next - dataStart)
  {
    hide WellFormed, IsEntryMap, EntriesComplete, PlannedTables, Planned, NeedsMove, IsPlan;
    assert ValidIds(live, v.inodes) by { PlanFacts(v, live, dataStart); }
    IdentityPlan(f, Planned(v, live), dataStart);
    NowPacked(v, live, dataStart);
  }

  lemma IdentityPlan(f: Moves, layout: seq<nat>, dataStart: nat)
    requires IsPlan(f, layout, dataStart) && NeedsMove(f).Keys == {}
    ensures layout == Run(dataStart, |layout|)
  {
    forall i | 0 <= i < |layout| ensures layout[i] == dataStart + i {
      var b := layout[i];
      assert b in NeedsMove(f).Keys <==> f[b] != b;
    }
  }

  lemma LiveIncreases(bits: seq<bool>)
    ensures Increasing(LiveIds(bits))
  {
    LiveIdsExact(bits);
  }

  lemma ContentsOfSelf(v: Volume, live: seq<nat>, dataStart: nat, id: nat, idx: nat)
    requires WellFormed(v, live, dataStart)
    requires id in live && id < |v.inodes|
    ensures SameContents(v, v, id, idx)
  {
    hide NoDup, WellFormedInode, Planned, InodeLeaves, Resolve, EntryStart, EntryCount, EntryFlags, EntryLen;
    var ino := v.inodes[id];
    var r := Resolve(Rd(v.blocks), ino, idx);
    if r != 0 {
      ResolvedLeafIsOwned(Rd(v.blocks), ino, idx);
      var run := LeafBlocks(ino.seekable, r);
      if run != [] {
        var at := LeafRunIsPlanned(v, live, dataStart, id, r);
        SubseqMember(Planned(v, live), run, at, run[0]);
        SubseqMember(Planned(v, live), run, at, run[|run| - 1]);
      }
    }
  }

  /** The in-place pass. Contents of every live inode survive; if nothing has to move nothing is
      written, and otherwise the bitmap is rebuilt as the compact prefix of used blocks. */
  method DefragmentInPlace(image: array<Block>, table: array<Inode>, inodeBits: seq<bool>, dataBits: array<bool>,
                           dataStart: nat, hint0: nat)
    returns (moved: nat, hint: nat, ghost end: nat)
    requires |inodeBits| <= table.Length
    requires WellFormed(Volume(image[..], table[..]), LiveIds(inodeBits), dataStart)
    modifies image, table, dataBits
    ensures forall id: nat, idx: nat :: id < |inodeBits| && inodeBits[id] ==>
              SameContents(old(Volume(image[..], table[..])), Volume(image[..], table[..]), id, idx)
    ensures forall id :: 0 <= id < table.Length ==> SameMetadata(old(table[id]), table[id])
    ensures moved == 0 ==>
              image[..] == old(image[..]) && table[..] == old(table[..]) && dataBits[..] == old(dataBits[..])
    ensures moved == 0 ==> hint == hint0
    ensures WellFormed(Volume(image[..], table[..]), LiveIds(inodeBits), dataStart)
    ensures moved > 0 ==>
              var used := Planned(Volume(image[..], table[..]), LiveIds(inodeBits));
              && used == Run(dataStart, |used|)
              && (forall b :: 0 <= b < image.Length && !(dataStart <= b < dataStart + |used|) ==>
                    image[b] == old(image[b]))
              && hint == dataStart + |used|
              && forall i :: 0 <= i < dataBits.Length ==> dataBits[i] == (i < |used|)
    ensures dataStart <= end && LaidOut(Volume(image[..], table[..]), LiveIds(inodeBits), dataStart, end)
    ensures moved > 0 ==> hint == end
  {
    hide *;
    ghost var v := Volume(image[..], table[..]);
    var live := CollectLive(inodeBits);
    LiveIdsExact(inodeBits);
    LiveIncreases(inodeBits);
    var f, e, tables, next := Plan(image[..], table[..], live, dataStart);
    PlanGivesMoves(v, live, dataStart, f, e, tables, next);
    var moves := NeedsMove(f);
    moved := |moves|;
    hint := hint0;
    if moves.Keys != {} {
      RelocateBlocks(image, moves);
      PermutedByPlan(v.blocks, image[..], f);
      ghost var mid := image[..];
      RewriteInodes(table, live, f, e);
      RewriteTables(image, tables, f, e);
      ResetBitmap(dataBits, next - dataStart);
      hint := next;
      ghost var v' := Volume(image[..], table[..]);
      NonTables(f, tables, mid, image[..]);
      FinishDefrag(v, mid, v', live, dataStart, f, e, tables, next);
      OutsideKept(v, live, dataStart, f, e, tables, next, mid, image[..]);
      CompactIsWellFormed(v, v', live, dataStart, f, e);
      CompactLength(v, v', live, dataStart, f, e);
      end := next;
      assert Packed(v', live, dataStart, next - dataStart) by { NowPacked(v', live, dataStart); }
      PackedIsLaidOut(v', live, dataStart, next - dataStart);
      forall id | 0 <= id < table.Length ensures SameMetadata(v.inodes[id], table[id]) {
        RewriteKeepsMetadata(f, e, v.inodes[id]);
      }
      forall id: nat, idx: nat | id < |inodeBits| && inodeBits[id] ensures SameContents(v, v', id, idx) {
        ContentsPreserved(v, v', live, dataStart, f, e, id, idx);
      }
    } else {
      end := next;
      AlreadyPacked(v, live, dataStart, f, e, tables, next);
      PackedIsLaidOut(v, live, dataStart, next - dataStart);
      forall id | 0 <= id < table.Length ensures SameMetadata(v.inodes[id], table[id]) {
        MetadataOfSelf(v.inodes[id]);
      }
      forall id: nat, idx: nat | id < |inodeBits| && inodeBits[id] ensures SameContents(v, v, id, idx) {
        ContentsOfSelf(v, live, dataStart, id, idx);
      }
    }
  }
}
