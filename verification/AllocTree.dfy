/** The two allocation paths as the source runs them, in place, each proved against its specification. */
module AllocTree {
  import opened Sizes
  import opened Bytes
  import opened MetadataOps
  import opened LastWins
  import opened ImageModel
  import opened BitList
  import Bitmap
  import opened PointerTree
  import opened BlockImage
  import opened Allocator
  import opened Mirror

  /** The mounted image and its allocation hint (`DiskManagerInner`). */
  class BlockStore {
    const g: Geometry
    const image: array<bool>
    var freeBlockHint: nat

    ghost predicate Valid()
      reads this
    {
      Mounted(g, image.Length)
    }

    ghost function State(): (fs: Fs)
      requires Valid()
      reads this, image
      ensures OnDisk(g, fs)
    {
      Fs(image[..], freeBlockHint)
    }

    constructor (g: Geometry, image: array<bool>, hint: nat)
      requires Mounted(g, image.Length)
      ensures Valid() && this.g == g && this.image == image && freeBlockHint == hint
    {
      this.g, this.image, freeBlockHint := g, image, hint;
    }

    method FillZero(b: nat)
      requires Valid()
      modifies image
      ensures image[..] == ZeroBlock(old(image[..]), b)
    {
      if BLOCK_BITS * b + BLOCK_BITS <= image.Length {
        SpliceInPlace(image, BLOCK_BITS * b, Repeat(false, BLOCK_BITS));
      }
    }

    method AllocateBlock() returns (r: Reply)
      requires Valid()
      modifies this`freeBlockHint, image
      ensures (State(), r) == DirectAlloc(g, old(State()))
    {
      hide ZeroBlock, NextFree, Bitmap.BitsIn, MarkUsed, SetBits, DataBits;
      var bits := DataBits(g, image[..]);
      var data := BitmapBytes(bits);
      var a := new SimpleBlockAllocator(data, g.dataBlockStart);
      var b := a.AllocateWithHint(Some(freeBlockHint));
      if b.None? {
        return NoSpace;
      }
      if b.value >= g.blockCount {
        a.Free(b.value);
        return NoSpace;
      }
      TakenIsFree(g, image[..], freeBlockHint);
      MarkedIsWhole(g, image[..], b.value);
      SpliceInPlace(image, BLOCK_BITS * g.dataBitmapBlock, Bitmap.BitsIn(data[..]));
      freeBlockHint := b.value + 1;
      FillZero(b.value);
      return Got(b.value);
    }

    method AllocAndZeroBlock() returns (r: Reply)
      requires Valid()
      modifies this`freeBlockHint, image
      ensures (State(), r) == DirectAlloc(g, old(State()))
    {
      r := AllocateBlock();
      if r.Got? {
        ZeroTwice(image[..], MarkUsed(g, old(image[..]), r.id), r.id);
        FillZero(r.id);
      }
    }

    method EnsureRoot(slot: u64) returns (r: Reply)
      requires Valid()
      modifies this`freeBlockHint, image
      ensures (State(), r) == DirectRoot(g, old(State()), slot)
    {
      hide DirectAlloc;
      if slot == 0 {
        r := AllocAndZeroBlock();
        return;
      }
      if !IsData(g, slot) {
        return BadPointer;
      }
      return Got(slot);
    }

    method IndirectChild(parent: u64, slot: nat, isIntermediate: bool) returns (r: Reply)
      requires Valid() && slot < SLOTS
      modifies this`freeBlockHint, image
      ensures (State(), r) == DirectChild(g, old(State()), parent, slot)
    {
      hide DirectAlloc, ReadPtr, WritePtr;
      if !IsData(g, parent) {
        return BadPointer;
      }
      var child := ReadPtr(image[..], parent, slot);
      if child != 0 && !IsData(g, child) {
        return BadPointer;
      }
      if child != 0 {
        return Got(child);
      }
      if isIntermediate {
        r := AllocAndZeroBlock();
      } else {
        r := AllocateBlock();
      }
      if r.Got? {
        StorePtr(parent, slot, r.id);
      }
    }

    method StorePtr(b: nat, slot: nat, v: u64)
      requires Valid() && slot < SLOTS
      modifies image
      ensures image[..] == WritePtr(old(image[..]), b, slot, v)
    {
      if BLOCK_BITS * b + BLOCK_BITS <= image.Length {
        SpliceInPlace(image, BLOCK_BITS * b + 64 * slot, ToBits(v, 64));
      }
    }

    method GetOrAllocBlock(ino: Inode, idx: nat) returns (ino': Inode, r: Reply)
      requires Valid() && U64Slots(ino)
      modifies this`freeBlockHint, image
      ensures (State(), ino', r) == DirectGet(g, old(State()), ino, idx)
    {
      hide DirectRoot, DirectChild, RootSlot, SetRoot;
      LogicalRoundTrip(idx);
      ino' := ino;
      var p := FromLogical(idx);
      if p.None? {
        return ino, TooLarge;
      }
      r := EnsureRoot(RootSlot(ino, p.value));
      if !r.Got? {
        return ino, r;
      }
      ino' := SetRoot(ino, p.value, r.id);
      ghost var fs1, parent := State(), r.id;
      var path := PathOf(p.value);
      for i := 0 to |path|
        invariant r.Got?
        invariant DirectDescend(g, fs1, parent, path) == DirectDescend(g, State(), r.id, path[i..])
      {
        assert path[i..][1..] == path[i + 1..];
        r := IndirectChild(r.id, path[i], i + 1 < |path|);
        if !r.Got? {
          return;
        }
      }
    }
  }

  /** The bitmap block as the bytes the allocator works on. */
  method BitmapBytes(bits: seq<bool>) returns (data: array<Bitmap.Bits8>)
    requires |bits| == BLOCK_BITS
    ensures fresh(data) && Bitmap.BitsIn(data[..]) == bits
  {
    data := new Bitmap.Bits8[BLOCK_BITS / 8](i requires 0 <= i < BLOCK_BITS / 8 => bits[8 * i..8 * i + 8]);
    assert Bitmap.BitsIn(data[..]) == bits;
  }

  /** Writing the bitmap block back with one more bit set is setting that bit. */
  lemma MarkedIsWhole(g: Geometry, img: Image, b: nat)
    requires Mounted(g, |img|) && IsData(g, b) && b - g.dataBlockStart < BLOCK_BITS
    ensures Splice(img, BLOCK_BITS * g.dataBitmapBlock, SetBits(DataBits(g, img), b - g.dataBlockStart, 1, true)) ==
            MarkUsed(g, img, b)
  {
  }

  lemma ZeroTwice(img: Image, before: Image, b: nat)
    requires img == ZeroBlock(before, b)
    ensures ZeroBlock(img, b) == img
  {
  }

  // ---------------------------------------------------------------------------
  // Looking a block up
  // ---------------------------------------------------------------------------

  /** A pointer of the inode that is zero or in the data area. */
  function LookRoot(g: Geometry, slot: u64): Reply {
    if slot != 0 && !IsData(g, slot) then BadPointer else Got(slot)
  }

  function LookChild(g: Geometry, img: Image, parent: u64, slot: nat): Reply {
    if !IsData(g, parent) then BadPointer else LookRoot(g, ReadPtr(img, parent, slot))
  }

  /** From `parent` down the path, as long as there is something below. */
  function LookDown(g: Geometry, img: Image, parent: u64, path: seq<nat>): Reply
    decreases |path|
  {
    if path == [] || parent == 0 then Got(if path == [] then parent else 0)
    else
      var r := LookChild(g, img, parent, path[0]);
      if r.Got? then LookDown(g, img, r.id, path[1..]) else r
  }

  function Look(g: Geometry, img: Image, ino: Inode, idx: nat): Reply
    requires U64Slots(ino)
  {
    LogicalRoundTrip(idx);
    match FromLogical(idx)
    case None => TooLarge
    case Some(p) =>
      var r := LookRoot(g, RootSlot(ino, p));
      if r.Got? then LookDown(g, img, r.id, PathOf(p)) else r
  }

  /** `get_or_alloc_block` without `allocate`. */
  method GetBlock(g: Geometry, img: Image, ino: Inode, idx: nat) returns (r: Reply)
    requires U64Slots(ino)
    ensures r == Look(g, img, ino, idx)
  {
    hide LookRoot, LookChild, RootSlot;
    LogicalRoundTrip(idx);
    var p := FromLogical(idx);
    if p.None? {
      return TooLarge;
    }
    r := LookRoot(g, RootSlot(ino, p.value));
    if !r.Got? {
      return r;
    }
    ghost var root := r.id;
    var path := PathOf(p.value);
    for i := 0 to |path|
      invariant r.Got? && LookDown(g, img, root, path) == LookDown(g, img, r.id, path[i..])
    {
      assert path[i..][1..] == path[i + 1..];
      if r.id == 0 {
        return Got(0);
      }
      r := LookChild(g, img, r.id, path[i]);
      if !r.Got? {
        return r;
      }
    }
  }

  /** A non-zero pointer on the way down lies outside the data area. */
  ghost predicate Strays(g: Geometry, img: Image, parent: nat, path: seq<nat>) {
    exists i :: 0 <= i <= |path| && StraysAt(g, img, parent, path[..i])
  }

  ghost predicate StraysAt(g: Geometry, img: Image, parent: nat, path: seq<nat>) {
    var b := Walk(PtrReader(img), parent, path);
    b != 0 && !IsData(g, b)
  }

  lemma StraysBelow(g: Geometry, img: Image, parent: nat, path: seq<nat>)
    requires path != []
    ensures Strays(g, img, parent, path) <==>
            StraysAt(g, img, parent, []) || Strays(g, img, Follow(PtrReader(img), parent, path[0]), path[1..])
  {
    hide ReadPtr;
    var next := Follow(PtrReader(img), parent, path[0]);
    forall i | 0 <= i < |path|
      ensures StraysAt(g, img, parent, path[..i + 1]) <==> StraysAt(g, img, next, path[1..][..i])
    {
      assert path[..i + 1][1..] == path[1..][..i];
    }
    assert path[..0] == [];
    if i :| 0 <= i <= |path| && StraysAt(g, img, parent, path[..i]) {
      if i > 0 { assert StraysAt(g, img, next, path[1..][..i - 1]); }
    }
    if i :| 0 <= i <= |path[1..]| && StraysAt(g, img, next, path[1..][..i]) {
      assert StraysAt(g, img, parent, path[..i + 1]);
    }
  }

  lemma {:induction false} LookDownIs(g: Geometry, img: Image, parent: u64, path: seq<nat>)
    requires parent == 0 || IsData(g, parent)
    ensures var r := LookDown(g, img, parent, path);
            if Strays(g, img, parent, path) then r.BadPointer? else r.Got? && r.id == Walk(PtrReader(img), parent, path)
    decreases |path|
  {
    hide ReadPtr, Strays;
    if path == [] {
      assert !Strays(g, img, parent, path) by { NoPath(g, img, parent); }
    } else {
      StraysBelow(g, img, parent, path);
      if parent == 0 {
        WalkFromHole(PtrReader(img), path);
        NothingStrays(g, img, path[1..]);
      } else {
        var r := LookChild(g, img, parent, path[0]);
        if r.Got? {
          LookDownIs(g, img, r.id, path[1..]);
        } else {
          StraysHere(g, img, ReadPtr(img, parent, path[0]), path[1..]);
        }
      }
    }
  }

  lemma NoPath(g: Geometry, img: Image, parent: nat)
    ensures Strays(g, img, parent, []) <==> parent != 0 && !IsData(g, parent)
  {
    var none: seq<nat> := [];
    assert none[..0] == none;
    assert StraysAt(g, img, parent, none) <==> parent != 0 && !IsData(g, parent);
  }

  lemma StraysHere(g: Geometry, img: Image, parent: nat, path: seq<nat>)
    requires parent != 0 && !IsData(g, parent)
    ensures Strays(g, img, parent, path)
  {
    assert path[..0] == [] && StraysAt(g, img, parent, path[..0]);
  }

  lemma NothingStrays(g: Geometry, img: Image, path: seq<nat>)
    ensures !Strays(g, img, 0, path)
  {
    forall i | 0 <= i <= |path| ensures !StraysAt(g, img, 0, path[..i]) { WalkFromHole(PtrReader(img), path[..i]); }
  }

  /** Without allocation the block found is the one resolution finds, or none: an index past the last
      one is refused, and so is exactly a path with a non-zero pointer outside the data area. */
  lemma LookIsResolve(g: Geometry, img: Image, ino: Inode, idx: nat)
    requires U64Slots(ino)
    ensures Look(g, img, ino, idx).TooLarge? <==> idx >= MAX_LOGICAL_BLOCKS
    ensures idx < MAX_LOGICAL_BLOCKS ==>
              && FromLogical(idx).Some? && SlotsInBounds(FromLogical(idx).value)
              && var p, r := FromLogical(idx).value, Look(g, img, ino, idx);
              && (r.BadPointer? <==> Strays(g, img, RootOf(ino, p), PathOf(p)))
              && (r.BadPointer? || (r.Got? && r.id == Resolve(PtrReader(img), ino, idx)))
  {
    hide ReadPtr, LookDown, Strays;
    LogicalRoundTrip(idx);
    match FromLogical(idx)
    case None =>
    case Some(p) =>
      var root := RootSlot(ino, p);
      if root != 0 && !IsData(g, root) {
        StraysHere(g, img, root, PathOf(p));
      } else {
        LookDownIs(g, img, root, PathOf(p));
      }
      WalkFromSlot(img, ino, idx);
  }

  // ---------------------------------------------------------------------------
  // The simulated path
  // ---------------------------------------------------------------------------

  ghost predicate SimValid(g: Geometry, sim: AllocSim)
    reads sim
  {
    sim.Valid() && sim.dataStart == g.dataBlockStart && sim.blockCount == g.blockCount < U64_MAX
  }

  ghost function View(sim: AllocSim, ops: seq<MetadataOp>): Sim
    reads sim, sim.dataBitmap
  {
    Sim(Bitmap.BitsIn(sim.dataBitmap[..]), sim.freeBlockHint, sim.freshSet, sim.pointers, ops)
  }

  method TakeBlock(g: Geometry, sim: AllocSim, ops: seq<MetadataOp>) returns (ops': seq<MetadataOp>, r: Reply)
    requires SimValid(g, sim)
    modifies sim, sim.dataBitmap
    ensures SimValid(g, sim)
    ensures (View(sim, ops'), r) == SimTakeBlock(g, old(View(sim, ops)))
  {
    hide SimAlloc, Bitmap.BitsIn;
    var b := sim.AllocBlock();
    if b.None? {
      return ops, NoSpace;
    }
    return ops + [SetDataBitmap(b.value, true)], Got(b.value);
  }

  method SimEnsureRoot(g: Geometry, sim: AllocSim, ops: seq<MetadataOp>, slot: u64)
    returns (ops': seq<MetadataOp>, r: Reply)
    requires SimValid(g, sim)
    modifies sim, sim.dataBitmap
    ensures SimValid(g, sim)
    ensures (View(sim, ops'), r) == SimRoot(g, old(View(sim, ops)), slot)
  {
    hide SimTakeBlock, Bitmap.BitsIn;
    if slot == 0 {
      ops', r := TakeBlock(g, sim, ops);
      return;
    }
    return ops, Got(slot);
  }

  method SimChildBlock(g: Geometry, img: Image, sim: AllocSim, ops: seq<MetadataOp>, parent: u64, slot: nat)
    returns (ops': seq<MetadataOp>, r: Reply)
    requires SimValid(g, sim) && slot < SLOTS
    modifies sim, sim.dataBitmap
    ensures SimValid(g, sim)
    ensures (View(sim, ops'), r) == SimChild(g, img, old(View(sim, ops)), parent, slot)
  {
    hide SimTakeBlock, Bitmap.BitsIn, ReadPtr;
    if (parent, slot) in sim.pointers {
      return ops, Got(sim.pointers[(parent, slot)]);
    }
    var isFresh := sim.IsFresh(parent);
    var existing := if isFresh then 0 else ReadPtr(img, parent, slot);
    if existing != 0 {
      return ops, Got(existing);
    }
    ops', r := TakeBlock(g, sim, ops);
    if r.Got? {
      sim.pointers := sim.pointers[(parent, slot) := r.id];
      ops' := ops' + [WriteBlockSlice(parent, 8 * slot, LE64(r.id))];
    }
  }

  method SimGetOrAllocBlock(g: Geometry, img: Image, sim: AllocSim, ops: seq<MetadataOp>, ino: Inode, idx: nat)
    returns (ops': seq<MetadataOp>, ino': Inode, r: Reply)
    requires SimValid(g, sim) && U64Slots(ino)
    modifies sim, sim.dataBitmap
    ensures SimValid(g, sim)
    ensures (View(sim, ops'), ino', r) == SimGet(g, img, old(View(sim, ops)), ino, idx)
  {
    hide SimRoot, SimChild, RootSlot, SetRoot, Bitmap.BitsIn;
    LogicalRoundTrip(idx);
    ops', ino' := ops, ino;
    var p := FromLogical(idx);
    if p.None? {
      return ops, ino, TooLarge;
    }
    ops', r := SimEnsureRoot(g, sim, ops, RootSlot(ino, p.value));
    if !r.Got? {
      return;
    }
    ino' := SetRoot(ino, p.value, r.id);
    ghost var s1, parent := View(sim, ops'), r.id;
    var path := PathOf(p.value);
    for i := 0 to |path|
      invariant r.Got? && SimValid(g, sim)
      invariant SimDescend(g, img, s1, parent, path) == SimDescend(g, img, View(sim, ops'), r.id, path[i..])
    {
      assert path[i..][1..] == path[i + 1..];
      ops', r := SimChildBlock(g, img, sim, ops', r.id, path[i]);
      if !r.Got? {
        return;
      }
    }
  }
}
