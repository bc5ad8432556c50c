/** What shrinking a raw file removes from its pointer tree, and what stays. */
module ShrinkTheory {
  import opened Sizes
  import opened ImageModel
  import opened PointerTree
  import opened BlockImage
  import opened TreePositions

  /** The positions a file of `n` blocks keeps. A triple tree is kept whole while any of it is needed. */
  predicate Kept(p: Pos, n: nat) {
    match p
    case Leaf(k) => k < n
    case Root1 => n > DIRECT_BLOCKS
    case Root2 => n > SINGLE_END
    case Sib2(a) => SINGLE_END + SLOTS * a < n
    case Root3 => n > DOUBLE_END
    case Dib3(_) => n > DOUBLE_END
    case Sib3(_, _) => n > DOUBLE_END
  }

  /** The tree after shrinking to `n` blocks. */
  ghost predicate Shrunk(img: Image, ino: Inode, img': Image, ino': Inode, n: nat) {
    forall p :: InTree(p) ==> At(img', ino', p) == if Kept(p, n) then At(img, ino, p) else 0
  }

  // ---------------------------------------------------------------------------
  // The order in which blocks are freed
  // ---------------------------------------------------------------------------

  function Leaves(n: nat, m: nat): (r: seq<Pos>)
    ensures |r| == (if n < m then m - n else 0) && forall i :: 0 <= i < |r| ==> r[i] == Leaf(n + i)
  {
    if n < m then seq(m - n, i requires 0 <= i => Leaf(n + i)) else []
  }

  function Sibs(lo: nat, hi: nat): (r: seq<Pos>)
    ensures |r| == (if lo < hi then hi - lo else 0) && forall i :: 0 <= i < |r| ==> r[i] == Sib2(lo + i)
  {
    if lo < hi then seq(hi - lo, i requires 0 <= i => Sib2(lo + i)) else []
  }

  function Sibs3(a: nat, n: nat): (r: seq<Pos>)
    ensures |r| == n && forall i :: 0 <= i < |r| ==> r[i] == Sib3(a, i)
  {
    seq(n, i requires 0 <= i => Sib3(a, i))
  }

  /** The pointer blocks under the first `n` slots of the triple root. */
  function TripleTables(n: nat): seq<Pos> {
    if n == 0 then [] else TripleTables(n - 1) + (Sibs3(n - 1, SLOTS) + [Dib3(n - 1)])
  }

  /** How many pointer blocks the double root keeps. */
  function KeepSibs(n: nat): nat {
    if n <= SINGLE_END then 0 else (n - SINGLE_END + SLOTS - 1) / SLOTS
  }

  function Tables(n: nat): seq<Pos> {
    (if n <= DIRECT_BLOCKS then [Root1] else [])
    + (if n <= SINGLE_END then Sibs(0, SLOTS) + [Root2] else Sibs(KeepSibs(n), SLOTS))
    + (if n <= DOUBLE_END then TripleTables(SLOTS) + [Root3] else [])
  }

  /** Everything a shrink from `m` to `n` blocks removes, in the order it is freed. */
  function Removed(n: nat, m: nat): seq<Pos> {
    Leaves(n, if m < MAX_LOGICAL_BLOCKS then m else MAX_LOGICAL_BLOCKS) + Tables(n)
  }

  ghost predicate Once<T(!new)>(s: seq<T>) {
    forall i, j :: 0 <= i < j < |s| ==> s[i] != s[j]
  }

  lemma OnceConcat<T(!new)>(a: seq<T>, b: seq<T>)
    requires Once(a) && Once(b) && forall x :: x in a ==> x !in b
    ensures Once(a + b)
  {
    forall i, j | 0 <= i < j < |a + b| ensures (a + b)[i] != (a + b)[j] {
      if i < |a| <= j { assert a[i] in a && b[j - |a|] in b; }
    }
  }

  lemma {:induction false} TripleTablesAre(n: nat)
    ensures Once(TripleTables(n))
    ensures forall p :: p in TripleTables(n) <==> (p.Dib3? && p.a < n) || (p.Sib3? && p.a < n && p.b < SLOTS)
  {
    if n > 0 {
      TripleTablesAre(n - 1);
      var last := Sibs3(n - 1, SLOTS) + [Dib3(n - 1)];
      LastTripleAre(n - 1);
      OnceConcat(TripleTables(n - 1), last);
    }
  }

  lemma LastTripleAre(a: nat)
    ensures var r := Sibs3(a, SLOTS) + [Dib3(a)];
            && Once(r)
            && forall p :: p in r <==> p == Dib3(a) || (p.Sib3? && p.a == a && p.b < SLOTS)
  {
    var r := Sibs3(a, SLOTS) + [Dib3(a)];
    assert |r| == SLOTS + 1 && r[SLOTS] == Dib3(a);
    forall p | p == Dib3(a) || (p.Sib3? && p.a == a && p.b < SLOTS) ensures p in r {
      if p.Sib3? { assert r[p.b] == p; } else { assert r[SLOTS] == p; }
    }
  }

  lemma SibsAre(lo: nat, hi: nat)
    ensures Once(Sibs(lo, hi)) && forall p :: p in Sibs(lo, hi) <==> p.Sib2? && lo <= p.a < hi
  {
    forall p: Pos | p.Sib2? && lo <= p.a < hi ensures p in Sibs(lo, hi) { assert Sibs(lo, hi)[p.a - lo] == p; }
  }

  lemma LeavesAre(n: nat, m: nat)
    ensures Once(Leaves(n, m)) && forall p :: p in Leaves(n, m) <==> p.Leaf? && n <= p.k < m
  {
    forall p: Pos | p.Leaf? && n <= p.k < m ensures p in Leaves(n, m) { assert Leaves(n, m)[p.k - n] == p; }
  }

  /** The three groups of pointer blocks, each complete and without repetition. */
  lemma TablesAre(n: nat)
    ensures Once(Tables(n))
    ensures forall p :: InTree(p) ==> (p in Tables(n) <==> !p.Leaf? && !Kept(p, n))
    ensures forall p :: p in Tables(n) ==> InTree(p) && !p.Leaf?
  {
    hide Sibs, TripleTables;
    var one := if n <= DIRECT_BLOCKS then [Root1] else [];
    var two := if n <= SINGLE_END then Sibs(0, SLOTS) + [Root2] else Sibs(KeepSibs(n), SLOTS);
    var three := if n <= DOUBLE_END then TripleTables(SLOTS) + [Root3] else [];
    SibsAre(0, SLOTS);
    SibsAre(KeepSibs(n), SLOTS);
    TripleTablesAre(SLOTS);
    OnceConcat(Sibs(0, SLOTS), [Root2]);
    OnceConcat(TripleTables(SLOTS), [Root3]);
    OnceConcat(one, two);
    OnceConcat(one + two, three);
    KeepExact(n);
  }

  lemma KeepExact(n: nat)
    ensures forall a: nat :: SINGLE_END + SLOTS * a < n <==> a < KeepSibs(n)
  {
  }

  lemma RemovedAre(n: nat, m: nat)
    ensures Once(Removed(n, m))
    ensures forall p :: p in Removed(n, m) ==> InTree(p)
    ensures forall p :: InTree(p) ==> (p in Removed(n, m) <==> !Kept(p, n) && (p.Leaf? ==> p.k < m))
  {
    hide Leaves, Tables;
    TablesAre(n);
    LeavesAre(n, if m < MAX_LOGICAL_BLOCKS then m else MAX_LOGICAL_BLOCKS);
    OnceConcat(Leaves(n, if m < MAX_LOGICAL_BLOCKS then m else MAX_LOGICAL_BLOCKS), Tables(n));
  }

  // ---------------------------------------------------------------------------
  // The blocks at a list of positions
  // ---------------------------------------------------------------------------

  predicate AllInTree(ps: seq<Pos>) {
    forall i :: 0 <= i < |ps| ==> InTree(ps[i])
  }

  function Live(b: nat): seq<nat> {
    if b != 0 then [b] else []
  }

  function Blocks(img: Image, ino: Inode, ps: seq<Pos>): seq<nat>
    requires AllInTree(ps)
  {
    if ps == [] then [] else Blocks(img, ino, ps[..|ps| - 1]) + Live(At(img, ino, ps[|ps| - 1]))
  }

  lemma BlocksSnoc(img: Image, ino: Inode, ps: seq<Pos>, p: Pos)
    requires AllInTree(ps) && InTree(p)
    ensures Blocks(img, ino, ps + [p]) == Blocks(img, ino, ps) + Live(At(img, ino, p))
  {
    assert (ps + [p])[..|ps|] == ps;
  }

  lemma {:induction false} BlocksConcat(img: Image, ino: Inode, a: seq<Pos>, b: seq<Pos>)
    requires AllInTree(a) && AllInTree(b)
    ensures AllInTree(a + b) && Blocks(img, ino, a + b) == Blocks(img, ino, a) + Blocks(img, ino, b)
  {
    hide At;
    if b == [] {
      assert a + b == a;
      assert Blocks(img, ino, a) + [] == Blocks(img, ino, a);
    } else {
      assert (a + b)[..|a + b| - 1] == a + b[..|b| - 1];
      BlocksConcat(img, ino, a, b[..|b| - 1]);
    }
  }

  lemma {:induction false} BlocksAre(img: Image, ino: Inode, ps: seq<Pos>)
    requires AllInTree(ps)
    ensures forall b :: b in Blocks(img, ino, ps) <==> b != 0 && exists p :: p in ps && At(img, ino, p) == b
  {
    hide At;
    if ps != [] {
      var n := |ps| - 1;
      BlocksAre(img, ino, ps[..n]);
      assert forall p :: p in ps <==> p in ps[..n] || p == ps[n] by { assert ps == ps[..n] + [ps[n]]; }
      forall b | b != 0 && exists p :: p in ps && At(img, ino, p) == b ensures b in Blocks(img, ino, ps) {
        var p :| p in ps && At(img, ino, p) == b;
        if p in ps[..n] { assert b in Blocks(img, ino, ps[..n]); }
      }
      forall b | b in Blocks(img, ino, ps) ensures b != 0 && exists p :: p in ps && At(img, ino, p) == b {
        if b in Blocks(img, ino, ps[..n]) {
          var p :| p in ps[..n] && At(img, ino, p) == b;
          assert p in ps;
        } else {
          assert ps[n] in ps && At(img, ino, ps[n]) == b;
        }
      }
    }
  }

  lemma {:induction false} BlocksOnce(img: Image, ino: Inode, ps: seq<Pos>)
    requires AllInTree(ps) && Once(ps) && NamedOnce(img, ino)
    ensures Once(Blocks(img, ino, ps))
  {
    hide At;
    if ps != [] {
      var n := |ps| - 1;
      BlocksOnce(img, ino, ps[..n]);
      BlocksAre(img, ino, ps[..n]);
      OnceConcat(Blocks(img, ino, ps[..n]), Live(At(img, ino, ps[n])));
    }
  }

  // ---------------------------------------------------------------------------
  // Conservation
  // ---------------------------------------------------------------------------

  ghost predicate Reachable(img: Image, ino: Inode, b: nat) {
    b != 0 && exists p :: InTree(p) && At(img, ino, p) == b
  }

  /** No index from `m` on is mapped. */
  ghost predicate EndsAt(img: Image, ino: Inode, m: nat) {
    forall k :: m <= k < MAX_LOGICAL_BLOCKS ==> At(img, ino, Leaf(k)) == 0
  }

  lemma RemovedInTree(n: nat, m: nat)
    ensures AllInTree(Removed(n, m))
  {
    hide Removed;
    RemovedAre(n, m);
  }

  /** The main result. The blocks freed and the blocks still reachable partition what was reachable,
      the indices below the new end resolve as before, those from it on to nothing, and the tree stays
      well-formed. */
  lemma ShrinkConserves(g: Geometry, img: Image, ino: Inode, img': Image, ino': Inode, n: nat, m: nat)
    requires WellFormed(g, img, ino) && EndsAt(img, ino, m) && Mounted(g, |img'|) && Shrunk(img, ino, img', ino', n)
    ensures AllInTree(Removed(n, m))
    ensures var freed := Blocks(img, ino, Removed(n, m));
            && Once(freed)
            && (forall b :: Reachable(img, ino, b) <==> b in freed || Reachable(img', ino', b))
            && (forall b :: b in freed ==> !Reachable(img', ino', b))
    ensures forall k :: 0 <= k < MAX_LOGICAL_BLOCKS ==>
              Resolve(PtrReader(img'), ino', k) == if k < n then Resolve(PtrReader(img), ino, k) else 0
    ensures WellFormed(g, img', ino')
  {
    hide At, Removed, Blocks, Kept, Resolve, IsData;
    RemovedAre(n, m);
    BlocksAre(img, ino, Removed(n, m));
    BlocksOnce(img, ino, Removed(n, m));
    Partition(img, ino, img', ino', n, m);
    FewerIsWellFormed(g, img, ino, img', ino');
    forall k | 0 <= k < MAX_LOGICAL_BLOCKS
      ensures Resolve(PtrReader(img'), ino', k) == if k < n then Resolve(PtrReader(img), ino, k) else 0
    {
      LeafIsResolve(img, ino, k);
      LeafIsResolve(img', ino', k);
      LeafKept(k, n);
    }
  }

  lemma LeafKept(k: nat, n: nat)
    ensures Kept(Leaf(k), n) <==> k < n
  {
  }

  lemma Partition(img: Image, ino: Inode, img': Image, ino': Inode, n: nat, m: nat)
    requires NamedOnce(img, ino) && EndsAt(img, ino, m) && Shrunk(img, ino, img', ino', n) && AllInTree(Removed(n, m))
    ensures var freed := Blocks(img, ino, Removed(n, m));
            && (forall b :: Reachable(img, ino, b) <==> b in freed || Reachable(img', ino', b))
            && (forall b :: b in freed ==> !Reachable(img', ino', b))
  {
    hide At, Removed, Blocks;
    RemovedAre(n, m);
    BlocksAre(img, ino, Removed(n, m));
    var freed := Blocks(img, ino, Removed(n, m));
    forall b | Reachable(img, ino, b) ensures b in freed || Reachable(img', ino', b) {
      var p :| InTree(p) && At(img, ino, p) == b;
      if Kept(p, n) { assert At(img', ino', p) == b; }
    }
    forall b | Reachable(img', ino', b) ensures Reachable(img, ino, b) && b !in freed {
      var p :| InTree(p) && At(img', ino', p) == b;
      assert Kept(p, n) && At(img, ino, p) == b;
    }
  }
}
