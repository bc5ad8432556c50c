/** The pointer tree of an inode as a set of named positions, and what clearing one slot does to it. */
module TreePositions {
  import opened Sizes
  import opened LastWins
  import opened ImageModel
  import opened PointerTree
  import opened BlockImage

  /** Every place of the tree that can hold a block id: the leaves by logical index, the indirect
      roots, and the pointer blocks below the double and triple roots. */
  datatype Pos = Leaf(k: nat) | Root1 | Root2 | Sib2(a: nat) | Root3 | Dib3(a: nat) | Sib3(a: nat, b: nat)

  predicate InTree(p: Pos) {
    match p
    case Leaf(k) => k < MAX_LOGICAL_BLOCKS
    case Sib2(a) => a < SLOTS
    case Dib3(a) => a < SLOTS
    case Sib3(a, b) => a < SLOTS && b < SLOTS
    case _ => true
  }

  /** The pointer block and slot that hold the id at `p`; none for a slot of the inode itself. */
  function Up(p: Pos): (r: Option<(Pos, nat)>)
    requires InTree(p)
    ensures r.Some? ==> InTree(r.value.0) && r.value.1 < SLOTS && Rank(r.value.0) < Rank(p)
  {
    match p
    case Leaf(k) =>
      LogicalRoundTrip(k);
      (match FromLogical(k)
       case Some(Direct(_)) => None
       case Some(Single(i)) => Some((Root1, i))
       case Some(Double(a, b)) => Some((Sib2(a), b))
       case Some(Triple(a, b, c)) => Some((Sib3(a, b), c)))
    case Sib2(a) => Some((Root2, a))
    case Dib3(a) => Some((Root3, a))
    case Sib3(a, b) => Some((Dib3(a), b))
    case _ => None
  }

  function Rank(p: Pos): nat {
    match p
    case Leaf(_) => 3
    case Sib3(_, _) => 2
    case Sib2(_) => 1
    case Dib3(_) => 1
    case _ => 0
  }

  /** No two positions share a slot. */
  lemma UpInjective(p: Pos, q: Pos)
    requires InTree(p) && InTree(q) && Up(p) == Up(q) && Up(p).Some?
    ensures p == q
  {
    if p.Leaf? && q.Leaf? {
      LogicalRoundTrip(p.k);
      LogicalRoundTrip(q.k);
    }
  }

  function InodeSlot(ino: Inode, p: Pos): nat
    requires InTree(p) && Up(p).None?
  {
    match p
    case Leaf(k) => ino.blocks[k]
    case Root1 => ino.blocks[10]
    case Root2 => ino.blocks[11]
    case Root3 => ino.tripleIndirect
  }

  function ClearSlot(ino: Inode, p: Pos): (r: Inode)
    requires InTree(p) && Up(p).None?
    ensures SameAttributes(r, ino)
  {
    match p
    case Leaf(k) => ino.(blocks := ino.blocks[k := 0])
    case Root1 => ino.(blocks := ino.blocks[10 := 0])
    case Root2 => ino.(blocks := ino.blocks[11 := 0])
    case Root3 => ino.(tripleIndirect := 0)
  }

  /** Equal but for the block slots. */
  predicate SameAttributes(a: Inode, b: Inode) {
    a.mode == b.mode && a.size == b.size && a.seekable == b.seekable
  }

  /** The slot value at `p`, 0 if there is none. */
  function Node(rd: Reader, ino: Inode, p: Pos): nat
    requires InTree(p)
    decreases Rank(p)
  {
    match Up(p)
    case None => InodeSlot(ino, p)
    case Some((t, s)) => Follow(rd, Node(rd, ino, t), s)
  }

  function At(img: Image, ino: Inode, p: Pos): nat
    requires InTree(p)
  {
    Node(PtrReader(img), ino, p)
  }

  /** The leaves are where resolution ends. */
  lemma NodeIsResolve(rd: Reader, ino: Inode, k: nat)
    requires k < MAX_LOGICAL_BLOCKS
    ensures Node(rd, ino, Leaf(k)) == Resolve(rd, ino, k)
  {
    LogicalRoundTrip(k);
    match FromLogical(k)
    case Some(Direct(_)) =>
    case Some(Single(_)) => assert Node(rd, ino, Root1) == ino.blocks[10];
    case Some(Double(a, _)) =>
      assert Node(rd, ino, Root2) == ino.blocks[11];
      assert Node(rd, ino, Sib2(a)) == Follow(rd, ino.blocks[11], a);
    case Some(Triple(a, b, _)) =>
      assert Node(rd, ino, Root3) == ino.tripleIndirect;
      assert Node(rd, ino, Dib3(a)) == Follow(rd, ino.tripleIndirect, a);
      assert Node(rd, ino, Sib3(a, b)) == Follow(rd, Node(rd, ino, Dib3(a)), b);
  }

  lemma LeafIsResolve(img: Image, ino: Inode, k: nat)
    requires k < MAX_LOGICAL_BLOCKS
    ensures At(img, ino, Leaf(k)) == Resolve(PtrReader(img), ino, k)
  {
    NodeIsResolve(PtrReader(img), ino, k);
  }

  /** `q` is `p` or lies below it. */
  predicate Under(q: Pos, p: Pos)
    requires InTree(q)
    decreases Rank(q)
  {
    q == p || (Up(q).Some? && Under(Up(q).value.0, p))
  }

  ghost predicate AllData(g: Geometry, img: Image, ino: Inode) {
    forall p :: InTree(p) && At(img, ino, p) != 0 ==> IsData(g, At(img, ino, p))
  }

  ghost predicate NamedOnce(img: Image, ino: Inode) {
    forall p, q :: InTree(p) && InTree(q) && p != q && At(img, ino, p) != 0 ==> At(img, ino, p) != At(img, ino, q)
  }

  /** Every block of the tree is a data block and sits at exactly one position. */
  ghost predicate WellFormed(g: Geometry, img: Image, ino: Inode) {
    Mounted(g, |img|) && AllData(g, img, ino) && NamedOnce(img, ino)
  }

  /** Clearing the slot of `p` removes what is under `p` and nothing else. */
  lemma {:induction false} ClearedSlot(g: Geometry, img: Image, ino: Inode, p: Pos, q: Pos)
    requires WellFormed(g, img, ino) && InTree(p) && InTree(q) && Up(p).Some? && At(img, ino, Up(p).value.0) != 0
    ensures var (t, s) := Up(p).value;
            At(WritePtr(img, At(img, ino, t), s, 0), ino, q) == if Under(q, p) then 0 else At(img, ino, q)
    decreases Rank(q)
  {
    hide ReadPtr, WritePtr, IsData;
    var (t, s) := Up(p).value;
    var table := At(img, ino, t);
    assert IsData(g, table);
    WritePtrViews(g, img, table, s, 0);
    SlotAfter(g, img, table, s);
    if Up(q).Some? {
      var (u, r) := Up(q).value;
      ClearedSlot(g, img, ino, p, u);
      if At(img, ino, u) != 0 && !Under(u, p) {
        if At(img, ino, u) == table && r == s {
          assert u == t;
          UpInjective(p, q);
        }
      }
    }
  }

  lemma SlotAfter(g: Geometry, img: Image, table: nat, s: nat)
    requires Mounted(g, |img|) && IsData(g, table) && s < SLOTS
    ensures forall b, r :: IsData(g, b) && 0 <= r < SLOTS ==>
              ReadPtr(WritePtr(img, table, s, 0), b, r) == if b == table && r == s then 0 else ReadPtr(img, b, r)
  {
    hide WritePtr, Word, BlockBits;
    WritePtrViews(g, img, table, s, 0);
  }

  lemma {:induction false} ClearedRoot(img: Image, ino: Inode, p: Pos, q: Pos)
    requires InTree(p) && InTree(q) && Up(p).None?
    ensures At(img, ClearSlot(ino, p), q) == if Under(q, p) then 0 else At(img, ino, q)
    decreases Rank(q)
  {
    hide ReadPtr;
    if Up(q).Some? { ClearedRoot(img, ino, p, Up(q).value.0); }
  }

  /** Removing positions keeps a tree well-formed. */
  lemma FewerIsWellFormed(g: Geometry, img: Image, ino: Inode, img': Image, ino': Inode)
    requires WellFormed(g, img, ino) && Mounted(g, |img'|)
    requires forall q :: InTree(q) ==> At(img', ino', q) == 0 || At(img', ino', q) == At(img, ino, q)
    ensures WellFormed(g, img', ino')
  {
    hide At, IsData;
  }

  /** Writing into a leaf block leaves the tree alone. */
  lemma {:induction false} PayloadWrite(g: Geometry, img: Image, img': Image, ino: Inode, leaf: nat, q: Pos)
    requires WellFormed(g, img, ino) && leaf < MAX_LOGICAL_BLOCKS && At(img, ino, Leaf(leaf)) != 0 && InTree(q)
    requires forall b :: IsData(g, b) && b != At(img, ino, Leaf(leaf)) ==> BlockBits(img', b) == BlockBits(img, b)
    ensures At(img', ino, q) == At(img, ino, q)
    decreases Rank(q)
  {
    hide IsData, BlockBits, Word;
    if Up(q).Some? {
      var (u, r) := Up(q).value;
      PayloadWrite(g, img, img', ino, leaf, u);
      if At(img, ino, u) != 0 {
        assert u != Leaf(leaf);
        assert At(img, ino, u) != At(img, ino, Leaf(leaf));
      }
    }
  }
}
