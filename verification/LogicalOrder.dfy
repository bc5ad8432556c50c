/** The layout of an inode in terms of its logical indices (src/disk.rs, `collect_inode_block_layout`). */
module LogicalOrder {
  import opened Sizes
  import opened Arith
  import opened PointerTree
  import opened Layout

  // ---------------------------------------------------------------------------
  // What an index holds
  // ---------------------------------------------------------------------------

  /** The first block a leaf slot names. */
  function FirstOf(ino: Inode, raw: nat): nat {
    if ino.seekable then EntryStart(raw) else raw
  }

  /** How many blocks it names: a run of blocks for a chunk entry, one for a block id. */
  function SizeOf(ino: Inode, raw: nat): nat {
    if ino.seekable then (if EntryIsEmpty(raw) then 0 else EntryCount(raw)) else if raw == 0 then 0 else 1
  }

  function FirstAt(rd: Reader, ino: Inode, idx: nat): nat {
    FirstOf(ino, Resolve(rd, ino, idx))
  }

  function SizeAt(rd: Reader, ino: Inode, idx: nat): nat {
    SizeOf(ino, Resolve(rd, ino, idx))
  }

  /** The number of blocks the indices `lo .. hi` name. */
  ghost function SizeBetween(rd: Reader, ino: Inode, lo: nat, hi: nat): nat
    requires lo <= hi
    decreases hi
  {
    if lo == hi then 0 else SizeBetween(rd, ino, lo, hi - 1) + SizeAt(rd, ino, hi - 1)
  }

  lemma {:induction false} SizeAdds(rd: Reader, ino: Inode, lo: nat, mid: nat, hi: nat)
    requires lo <= mid <= hi
    ensures SizeBetween(rd, ino, lo, hi) == SizeBetween(rd, ino, lo, mid) + SizeBetween(rd, ino, mid, hi)
    decreases hi
  {
    hide SizeAt;
    if mid < hi { SizeAdds(rd, ino, lo, mid, hi - 1); }
  }

  lemma LeafIsRun(ino: Inode, raw: nat)
    ensures LeafBlocks(ino.seekable, raw) == Run(FirstOf(ino, raw), SizeOf(ino, raw))
  {
  }

  // ---------------------------------------------------------------------------
  // Leaves by number
  // ---------------------------------------------------------------------------

  /** What `pick` makes of the slot values `raws`, one after the other. */
  ghost function Collect(pick: nat -> seq<nat>, raws: seq<nat>): seq<nat> {
    if raws == [] then [] else Collect(pick, raws[..|raws| - 1]) + pick(raws[|raws| - 1])
  }

  lemma {:induction false} CollectConcat(pick: nat -> seq<nat>, a: seq<nat>, b: seq<nat>)
    ensures Collect(pick, a + b) == Collect(pick, a) + Collect(pick, b)
    decreases |b|
  {
    if b == [] {
      assert a + b == a;
    } else {
      assert (a + b)[..|a + b| - 1] == a + b[..|b| - 1];
      CollectConcat(pick, a, b[..|b| - 1]);
    }
  }

  /** The same of the slots `at(0) .. at(n)`. */
  ghost function Gather(pick: nat -> seq<nat>, at: nat -> nat, n: nat): seq<nat> {
    if n == 0 then [] else Gather(pick, at, n - 1) + pick(at(n - 1))
  }

  lemma GatherStep(pick: nat -> seq<nat>, at: nat -> nat, n: nat)
    ensures Gather(pick, at, 0) == [] && Gather(pick, at, n + 1) == Gather(pick, at, n) + pick(at(n))
  {
  }

  /** A list continued by another one. */
  lemma {:induction false} GatherJoin(pick: nat -> seq<nat>, at: nat -> nat, m: nat, more: nat -> nat, n: nat)
    requires forall i :: 0 <= i < n ==> more(i) == at(m + i)
    ensures Gather(pick, at, m + n) == Gather(pick, at, m) + Gather(pick, more, n)
  {
    hide Gather;
    var front := Gather(pick, at, m);
    if n == 0 {
      GatherStep(pick, more, 0);
      assert front + [] == front;
    } else {
      GatherJoin(pick, at, m, more, n - 1);
      GatherStep(pick, at, m + (n - 1));
      GatherStep(pick, more, n - 1);
      var a, x := Gather(pick, more, n - 1), pick(more(n - 1));
      assert front + a + x == front + (a + x);
    }
  }

  lemma {:induction false} GatherNothing(pick: nat -> seq<nat>, at: nat -> nat, n: nat)
    requires pick(0) == [] && forall i :: 0 <= i < n ==> at(i) == 0
    ensures Gather(pick, at, n) == []
  {
    if n > 0 { GatherNothing(pick, at, n - 1); }
  }

  /** The number of leaves of a tree. */
  function Span(depth: nat): (n: nat)
    ensures n > 0
  {
    if depth == 0 then 1 else SLOTS * Span(depth - 1)
  }

  /** Leaf number `i` below `root`. */
  ghost function Nth(rd: Reader, root: nat, depth: nat, i: nat): nat
    decreases depth
  {
    if depth == 0 then root
    else Nth(rd, Follow(rd, root, i / Span(depth - 1)), depth - 1, i % Span(depth - 1))
  }

  lemma {:induction false} NthOfNothing(rd: Reader, depth: nat, i: nat)
    ensures Nth(rd, 0, depth, i) == 0
    decreases depth
  {
    if depth > 0 { NthOfNothing(rd, depth - 1, i % Span(depth - 1)); }
  }

  lemma NthInSlot(rd: Reader, table: nat, depth: nat, slot: nat, i: nat)
    requires depth > 0 && table != 0 && i < Span(depth - 1)
    ensures Nth(rd, table, depth, slot * Span(depth - 1) + i) == Nth(rd, rd(table, slot), depth - 1, i)
  {
    var m := Span(depth - 1);
    Split(i, slot, m, slot * m + i);
  }

  ghost function ByNumber(rd: Reader, root: nat, depth: nat): nat -> nat {
    i => Nth(rd, root, depth, i)
  }

  /** The leaves of a tree are listed by number. */
  lemma {:induction false} TreeGathers(rd: Reader, pick: nat -> seq<nat>, root: nat, depth: nat)
    requires pick(0) == []
    ensures Collect(pick, RawLeaves(rd, root, depth)) == Gather(pick, ByNumber(rd, root, depth), Span(depth))
    decreases depth, SLOTS + 1
  {
    var at := ByNumber(rd, root, depth);
    if depth == 0 {
      assert [root][..0] == [];
      assert Gather(pick, at, 0) == [];
    } else if root == 0 {
      forall i: nat ensures at(i) == 0 { NthOfNothing(rd, depth, i); }
      GatherNothing(pick, at, Span(depth));
    } else {
      SlotsGather(rd, pick, root, depth, SLOTS);
    }
  }

  lemma {:induction false} SlotsGather(rd: Reader, pick: nat -> seq<nat>, table: nat, depth: nat, n: nat)
    requires depth > 0 && table != 0 && n <= SLOTS && pick(0) == []
    ensures Collect(pick, SlotLeaves(rd, table, depth, n)) ==
            Gather(pick, ByNumber(rd, table, depth), n * Span(depth - 1))
    decreases depth, n
  {
    hide RawLeaves, Nth, Gather, Span, Collect, ByNumber;
    var at, m := ByNumber(rd, table, depth), Span(depth - 1);
    TimesNext(n, m);
    if n == 0 {
      NothingCollected(pick, at);
    } else {
      SlotsGather(rd, pick, table, depth, n - 1);
      var child := rd(table, n - 1);
      TreeGathers(rd, pick, child, depth - 1);
      CollectConcat(pick, SlotLeaves(rd, table, depth, n - 1), RawLeaves(rd, child, depth - 1));
      SlotJoin(rd, pick, table, depth, n);
    }
  }

  lemma TimesNext(n: nat, m: nat)
    ensures n * m == if n == 0 then 0 else (n - 1) * m + m
  {
  }

  lemma NothingCollected(pick: nat -> seq<nat>, at: nat -> nat)
    ensures Collect(pick, []) == [] && Gather(pick, at, 0) == []
  {
  }

  lemma SlotJoin(rd: Reader, pick: nat -> seq<nat>, table: nat, depth: nat, n: nat)
    requires depth > 0 && table != 0 && 0 < n <= SLOTS
    ensures var at, m := ByNumber(rd, table, depth), Span(depth - 1);
            Gather(pick, at, (n - 1) * m + m) ==
            Gather(pick, at, (n - 1) * m) + Gather(pick, ByNumber(rd, rd(table, n - 1), depth - 1), m)
  {
    hide Nth, Gather, Span;
    var at, m, more := ByNumber(rd, table, depth), Span(depth - 1), ByNumber(rd, rd(table, n - 1), depth - 1);
    forall i | 0 <= i < m ensures more(i) == at((n - 1) * m + i) { NthInSlot(rd, table, depth, n - 1, i); }
    GatherJoin(pick, at, (n - 1) * m, more, m);
  }

  // ---------------------------------------------------------------------------
  // The inode
  // ---------------------------------------------------------------------------

  ghost function ByIndex(rd: Reader, ino: Inode): nat -> nat {
    idx => Resolve(rd, ino, idx)
  }

  lemma {:induction false} DirectGather(rd: Reader, ino: Inode, pick: nat -> seq<nat>, n: nat)
    requires n <= 10
    ensures Collect(pick, ino.blocks[..n]) == Gather(pick, ByIndex(rd, ino), n)
  {
    if n > 0 {
      assert ino.blocks[..n][..n - 1] == ino.blocks[..n - 1];
      DirectGather(rd, ino, pick, n - 1);
    }
  }

  lemma Spans()
    ensures Span(1) == SLOTS && Span(2) == SLOTS * SLOTS && Span(3) == SLOTS * SLOTS * SLOTS
    ensures Span(0) == 1
  {
  }

  lemma SingleIs(rd: Reader, ino: Inode, i: nat)
    requires i < SLOTS
    ensures Resolve(rd, ino, DIRECT_BLOCKS + i) == Nth(rd, ino.blocks[10], 1, i)
  {
    Spans();
    assert Nth(rd, Follow(rd, ino.blocks[10], i), 0, 0) == Follow(rd, ino.blocks[10], i);
  }

  lemma DoubleIs(rd: Reader, ino: Inode, i: nat)
    requires i < SLOTS * SLOTS
    ensures Resolve(rd, ino, SINGLE_END + i) == Nth(rd, ino.blocks[11], 2, i)
  {
    Spans();
    var sib := Follow(rd, ino.blocks[11], i / SLOTS);
    assert Nth(rd, sib, 1, i % SLOTS) == Nth(rd, Follow(rd, sib, i % SLOTS), 0, 0);
  }

  lemma TripleIs(rd: Reader, ino: Inode, i: nat)
    requires i < SLOTS * SLOTS * SLOTS
    ensures Resolve(rd, ino, DOUBLE_END + i) == Nth(rd, ino.tripleIndirect, 3, i)
  {
    Spans();
    var rem := i % (SLOTS * SLOTS);
    var dib := Follow(rd, ino.tripleIndirect, i / (SLOTS * SLOTS));
    var sib := Follow(rd, dib, rem / SLOTS);
    assert Nth(rd, dib, 2, rem) == Nth(rd, sib, 1, rem % SLOTS);
    assert Nth(rd, sib, 1, rem % SLOTS) == Nth(rd, Follow(rd, sib, rem % SLOTS), 0, 0);
  }

  /** Whatever is collected from the leaves of an inode comes in the order of their logical indices. */
  lemma InodeCollects(rd: Reader, ino: Inode, pick: nat -> seq<nat>)
    requires pick(0) == []
    ensures Collect(pick, InodeLeaves(rd, ino)) == Gather(pick, ByIndex(rd, ino), MAX_LOGICAL_BLOCKS)
  {
    hide Collect, Gather, RawLeaves, Nth, Resolve, Span;
    var at := ByIndex(rd, ino);
    var d, l1, l2, l3 := ino.blocks[..10], RawLeaves(rd, ino.blocks[10], 1), RawLeaves(rd, ino.blocks[11], 2),
      RawLeaves(rd, ino.tripleIndirect, 3);
    Spans();
    DirectGather(rd, ino, pick, 10);
    TreeGathers(rd, pick, ino.blocks[10], 1);
    TreeGathers(rd, pick, ino.blocks[11], 2);
    TreeGathers(rd, pick, ino.tripleIndirect, 3);
    CollectConcat(pick, d + l1 + l2, l3);
    CollectConcat(pick, d + l1, l2);
    CollectConcat(pick, d, l1);
    var s1, s2 := ByNumber(rd, ino.blocks[10], 1), ByNumber(rd, ino.blocks[11], 2);
    var s3 := ByNumber(rd, ino.tripleIndirect, 3);
    forall i | 0 <= i < Span(1) ensures s1(i) == at(10 + i) { SingleIs(rd, ino, i); }
    forall i | 0 <= i < Span(2) ensures s2(i) == at(522 + i) { DoubleIs(rd, ino, i); }
    forall i | 0 <= i < Span(3) ensures s3(i) == at(262666 + i) { TripleIs(rd, ino, i); }
    GatherJoin(pick, at, 10, s1, Span(1));
    GatherJoin(pick, at, 522, s2, Span(2));
    GatherJoin(pick, at, 262666, s3, Span(3));
  }

  /** The blocks a slot value names. */
  function Named(seekable: bool): nat -> seq<nat> {
    raw => LeafBlocks(seekable, raw)
  }

  lemma {:induction false} ExpandIsCollect(seekable: bool, raws: seq<nat>)
    ensures Expand(seekable, raws) == Collect(Named(seekable), raws)
  {
    hide LeafBlocks;
    if raws != [] { ExpandIsCollect(seekable, raws[..|raws| - 1]); }
  }

  /** The payload of an inode, as the collector lists it, is what its indices name, in logical order. */
  lemma InodeGathers(rd: Reader, ino: Inode)
    ensures Expand(ino.seekable, InodeLeaves(rd, ino)) ==
            Gather(Named(ino.seekable), ByIndex(rd, ino), MAX_LOGICAL_BLOCKS)
  {
    hide Expand, Collect, Gather, InodeLeaves;
    ExpandIsCollect(ino.seekable, InodeLeaves(rd, ino));
    InodeCollects(rd, ino, Named(ino.seekable));
  }

  // ---------------------------------------------------------------------------
  // Payload in one piece
  // ---------------------------------------------------------------------------

  /** Block `b` holds part of index `idx`. */
  predicate HoldsIndex(rd: Reader, ino: Inode, idx: nat, b: nat) {
    FirstAt(rd, ino, idx) <= b < FirstAt(rd, ino, idx) + SizeAt(rd, ino, idx)
  }

  ghost predicate IsPayload(rd: Reader, ino: Inode, b: nat) {
    exists idx :: 0 <= idx < MAX_LOGICAL_BLOCKS && HoldsIndex(rd, ino, idx, b)
  }

  lemma {:induction false} GatheredAre(rd: Reader, ino: Inode, n: nat, b: nat)
    ensures b in Gather(Named(ino.seekable), ByIndex(rd, ino), n) <==>
            exists idx :: 0 <= idx < n && HoldsIndex(rd, ino, idx, b)
  {
    hide LeafBlocks, FirstOf, SizeOf, Resolve;
    if n > 0 {
      GatheredAre(rd, ino, n - 1, b);
      LeafIsRun(ino, Resolve(rd, ino, n - 1));
      var run := Run(FirstAt(rd, ino, n - 1), SizeAt(rd, ino, n - 1));
      assert b in run <==> HoldsIndex(rd, ino, n - 1, b) by {
        if HoldsIndex(rd, ino, n - 1, b) { assert run[b - FirstAt(rd, ino, n - 1)] == b; }
      }
    }
  }

  lemma {:induction false} GatheredSize(rd: Reader, ino: Inode, n: nat)
    ensures |Gather(Named(ino.seekable), ByIndex(rd, ino), n)| == SizeBetween(rd, ino, 0, n)
  {
    hide LeafBlocks, FirstOf, SizeOf, Resolve;
    if n > 0 {
      GatheredSize(rd, ino, n - 1);
      LeafIsRun(ino, Resolve(rd, ino, n - 1));
    }
  }

  lemma {:induction false} GatherPrefix(pick: nat -> seq<nat>, at: nat -> nat, m: nat, n: nat)
    requires m <= n
    ensures Gather(pick, at, m) <= Gather(pick, at, n)
    decreases n
  {
    if m < n { GatherPrefix(pick, at, m, n - 1); }
  }

  /** If the payload lies in one piece from `start` on, an index starts where the indices before it end. */
  lemma StartsAfter(rd: Reader, ino: Inode, n: nat, start: nat, count: nat, idx: nat)
    requires Gather(Named(ino.seekable), ByIndex(rd, ino), n) == Run(start, count)
    requires idx < n && SizeAt(rd, ino, idx) > 0
    ensures FirstAt(rd, ino, idx) == start + SizeBetween(rd, ino, 0, idx)
    ensures FirstAt(rd, ino, idx) + SizeAt(rd, ino, idx) <= start + count
  {
    hide LeafBlocks, FirstOf, SizeOf, Resolve, SizeBetween;
    var pick, at := Named(ino.seekable), ByIndex(rd, ino);
    GatherPrefix(pick, at, idx + 1, n);
    GatheredSize(rd, ino, idx);
    GatheredSize(rd, ino, idx + 1);
    LeafIsRun(ino, Resolve(rd, ino, idx));
    var before, here := Gather(pick, at, idx), pick(at(idx));
    assert here[0] == FirstAt(rd, ino, idx);
    assert Gather(pick, at, idx + 1)[|before|] == here[0];
    assert SizeBetween(rd, ino, 0, idx + 1) == SizeBetween(rd, ino, 0, idx) + SizeAt(rd, ino, idx) by {
      SizeNext(rd, ino, idx);
    }
  }

  lemma SizeNext(rd: Reader, ino: Inode, idx: nat)
    ensures SizeBetween(rd, ino, 0, idx + 1) == SizeBetween(rd, ino, 0, idx) + SizeAt(rd, ino, idx)
  {
  }

  /** The payload lies in logical order without gaps: between the starts of two indices there is just what the
      indices from the first to the second name. */
  ghost predicate InLogicalOrder(rd: Reader, ino: Inode) {
    forall i, j :: 0 <= i < j && SizeAt(rd, ino, i) > 0 && SizeAt(rd, ino, j) > 0 ==>
      FirstAt(rd, ino, j) == FirstAt(rd, ino, i) + SizeBetween(rd, ino, i, j)
  }

  lemma OnePieceIsOrdered(rd: Reader, ino: Inode, start: nat, count: nat)
    requires Expand(ino.seekable, InodeLeaves(rd, ino)) == Run(start, count)
    ensures InLogicalOrder(rd, ino)
    ensures forall b: nat :: IsPayload(rd, ino, b) <==> start <= b < start + count
  {
    hide FirstAt, SizeAt, SizeBetween, Expand, InodeLeaves, Gather;
    InodeGathers(rd, ino);
    forall i, j | 0 <= i < j && SizeAt(rd, ino, i) > 0 && SizeAt(rd, ino, j) > 0
      ensures FirstAt(rd, ino, j) == FirstAt(rd, ino, i) + SizeBetween(rd, ino, i, j)
    {
      NothingBeyond(rd, ino, j);
      StartsAfter(rd, ino, MAX_LOGICAL_BLOCKS, start, count, i);
      StartsAfter(rd, ino, MAX_LOGICAL_BLOCKS, start, count, j);
      SizeAdds(rd, ino, 0, i, j);
    }
    forall b: nat ensures IsPayload(rd, ino, b) <==> start <= b < start + count {
      GatheredAre(rd, ino, MAX_LOGICAL_BLOCKS, b);
      var run := Run(start, count);
      if start <= b < start + count { assert run[b - start] == b; }
    }
  }

  lemma NothingBeyond(rd: Reader, ino: Inode, idx: nat)
    ensures idx >= MAX_LOGICAL_BLOCKS ==> SizeAt(rd, ino, idx) == 0
  {
    LogicalRoundTrip(idx);
  }

  /** What the collector lists as payload is what the indices name. */
  lemma PayloadIs(rd: Reader, ino: Inode, b: nat)
    ensures b in Expand(ino.seekable, InodeLeaves(rd, ino)) <==> IsPayload(rd, ino, b)
  {
    hide Expand, InodeLeaves, Gather;
    InodeGathers(rd, ino);
    GatheredAre(rd, ino, MAX_LOGICAL_BLOCKS, b);
  }
}
