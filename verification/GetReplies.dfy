/** What `get_or_alloc_block` (src/disk.rs) answers on any image, sound or not: the lookup without
    allocation decides. */
module GetReplies {
  import opened Sizes
  import opened Bytes
  import opened LastWins
  import opened ImageModel
  import opened PointerTree
  import opened BlockImage
  import opened Allocator
  import opened Mirror
  import opened AllocTree

  /** The allocator finds nothing from here. */
  ghost predicate Exhausted(g: Geometry, fs: Fs)
    requires OnDisk(g, fs)
  {
    SimAlloc(DataBits(g, fs.img), g.dataBlockStart, g.blockCount, fs.hint).None?
  }

  /** A block below which nothing lies but, at most, itself: one that was just linked. */
  ghost predicate EmptyBlock(g: Geometry, img: Image, b: nat) {
    IsData(g, b) && forall t :: 0 <= t < SLOTS ==> ReadPtr(img, b, t) in {0, b}
  }

  lemma FreshIsEmpty(g: Geometry, fs: Fs)
    requires OnDisk(g, fs)
    ensures var (fs', r) := DirectAlloc(g, fs);
            && (r.Got? || (r.NoSpace? && fs' == fs && Exhausted(g, fs)))
            && (r.Got? ==> IsData(g, r.id) && forall t :: ReadPtr(fs'.img, r.id, t) == 0)
  {
    hide ReadPtr, DataBits, MarkUsed, ZeroBlock;
    var r := SimAlloc(DataBits(g, fs.img), g.dataBlockStart, g.blockCount, fs.hint);
    TakenIsFree(g, fs.img, fs.hint);
    if r.Some? {
      HandedKeeps(g, fs.img, r.value);
    }
  }

  /** The block a call links is empty, even if the image let it be its own parent. */
  lemma LinkedIsEmpty(g: Geometry, fs: Fs, parent: u64, slot: nat)
    requires OnDisk(g, fs) && slot < SLOTS && IsData(g, parent) && ReadPtr(fs.img, parent, slot) == 0
    ensures var (fs', r) := DirectChild(g, fs, parent, slot);
            && (r.Got? || (r.NoSpace? && fs' == fs && Exhausted(g, fs)))
            && (r.Got? ==> EmptyBlock(g, fs'.img, r.id))
  {
    hide ReadPtr, DirectAlloc, WritePtr, DataBits, Exhausted;
    FreshIsEmpty(g, fs);
    var (fs1, r) := DirectAlloc(g, fs);
    if r.Got? {
      WritePtrViews(g, fs1.img, parent, slot, r.id);
      if r.id != parent {
        var img := WritePtr(fs1.img, parent, slot, r.id);
        forall t | 0 <= t < SLOTS ensures ReadPtr(img, r.id, t) == 0 { SameWords(fs1.img, img, r.id, t); }
      }
    }
  }

  lemma SameWords(img: Image, img': Image, b: nat, t: nat)
    requires BlockBits(img', b) == BlockBits(img, b)
    ensures ReadPtr(img', b, t) == ReadPtr(img, b, t)
  {
  }

  /** Below an empty block nothing can stray. */
  lemma {:induction false} EmptyNeverStrays(g: Geometry, fs: Fs, parent: u64, path: seq<nat>)
    requires OnDisk(g, fs) && InSlots(path) && EmptyBlock(g, fs.img, parent)
    ensures var (fs', r) := DirectDescend(g, fs, parent, path);
            r.Got? || (r.NoSpace? && Exhausted(g, fs'))
    decreases |path|
  {
    hide ReadPtr, DirectAlloc, DirectChild, Exhausted;
    if path != [] {
      var slot := path[0];
      var (fs1, r) := DirectChild(g, fs, parent, slot);
      ChildOfEmpty(g, fs, parent, slot);
      if r.Got? { EmptyNeverStrays(g, fs1, r.id, path[1..]); }
    }
  }

  lemma ChildOfEmpty(g: Geometry, fs: Fs, parent: u64, slot: nat)
    requires OnDisk(g, fs) && slot < SLOTS && EmptyBlock(g, fs.img, parent)
    ensures var (fs', r) := DirectChild(g, fs, parent, slot);
            if r.Got? then EmptyBlock(g, fs'.img, r.id) else r.NoSpace? && fs' == fs && Exhausted(g, fs)
  {
    hide ReadPtr, Exhausted, DirectAlloc;
    if ReadPtr(fs.img, parent, slot) == 0 { LinkedIsEmpty(g, fs, parent, slot); }
  }

  /** A call answers as the lookup without allocation does, and changes nothing then, unless the lookup
      finds a hole; a hole is filled unless the allocator has run out. */
  ghost predicate Answers(g: Geometry, fs: Fs, fs': Fs, look: Reply, r: Reply)
    requires OnDisk(g, fs')
  {
    if look.Got? && look.id == 0 then r.Got? || (r.NoSpace? && Exhausted(g, fs')) else r == look && fs' == fs
  }

  lemma {:induction false} DescendAnswers(g: Geometry, fs: Fs, parent: u64, path: seq<nat>)
    requires OnDisk(g, fs) && InSlots(path) && IsData(g, parent) && parent != 0
    ensures var (fs', r) := DirectDescend(g, fs, parent, path);
            Answers(g, fs, fs', LookDown(g, fs.img, parent, path), r)
    decreases |path|
  {
    hide ReadPtr, DirectAlloc, Exhausted;
    if path != [] {
      var child := ReadPtr(fs.img, parent, path[0]);
      if child == 0 {
        LinkedIsEmpty(g, fs, parent, path[0]);
        var (fs1, r) := DirectChild(g, fs, parent, path[0]);
        if r.Got? { EmptyNeverStrays(g, fs1, r.id, path[1..]); }
      } else if IsData(g, child) {
        DescendAnswers(g, fs, child, path[1..]);
      }
    }
  }

  lemma GetAnswers(g: Geometry, fs: Fs, ino: Inode, idx: nat)
    requires OnDisk(g, fs) && U64Slots(ino)
    ensures var (fs', ino', r) := DirectGet(g, fs, ino, idx); var look := Look(g, fs.img, ino, idx);
            && Answers(g, fs, fs', look, r)
            && (!(look.Got? && look.id == 0) ==> ino' == ino)
  {
    hide ReadPtr, DirectAlloc, Exhausted, DirectDescend, LookDown, PathOf;
    LogicalRoundTrip(idx);
    match FromLogical(idx)
    case None =>
    case Some(p) =>
      var slot := RootSlot(ino, p);
      if slot == 0 {
        FreshIsEmpty(g, fs);
        var (fs1, r) := DirectAlloc(g, fs);
        if r.Got? { EmptyNeverStrays(g, fs1, r.id, PathOf(p)); }
        LookFromHole(g, fs.img, PathOf(p));
      } else if IsData(g, slot) {
        DescendAnswers(g, fs, slot, PathOf(p));
        SameRoot(ino, p);
      }
  }

  lemma LookFromHole(g: Geometry, img: Image, path: seq<nat>)
    ensures LookDown(g, img, 0, path) == Got(0)
  {
  }

  lemma SameRoot(ino: Inode, p: BlockPath)
    requires SlotsInBounds(p) && U64Slots(ino)
    ensures SetRoot(ino, p, RootSlot(ino, p)) == ino
  {
  }
}
