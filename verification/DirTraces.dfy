/** What holds over every run of directory operations on a fresh image: which inode each name stands for,
    and which inodes are lost. */
module DirTraces {
  import opened Sizes
  import opened Bytes
  import opened LastWins
  import opened Directory
  import opened DirBlocks
  import opened DirCache
  import opened DirRuns

  /** Entry `n` of directory `d` stands for inode `x`. */
  ghost predicate NamedAt(t: Tree, d: nat, n: Name, x: nat) {
    d in t.dirs && Scan(t.dirs[d], n).Some? && Scan(t.dirs[d], n).value as nat == x
  }

  ghost predicate NamedIn(t: Tree, d: nat, x: nat) {
    exists n :: NamedAt(t, d, n, x)
  }

  /** An inode that no name leads to. */
  ghost predicate Lost(t: Tree, x: nat) {
    x in t.inUse && forall d, n :: !NamedAt(t, d, n, x)
  }

  /** Every inode has at most one name, and only inodes in use have one. */
  ghost predicate NamedOnce(t: Tree) {
    && (forall d, n, x :: NamedAt(t, d, n, x) ==> x in t.inUse)
    && (forall d, n, d', n', x :: NamedAt(t, d, n, x) && NamedAt(t, d', n', x) ==> d == d' && n == n')
  }

  lemma EmptyNames(n: Name)
    ensures Scan([Zeros(BLOCK_SIZE)], n).None?
  {
    ZeroBlock(_ => 0, n);
    DirRecordsOne(Zeros(BLOCK_SIZE));
  }

  // ---------------------------------------------------------------------------
  // One request
  // ---------------------------------------------------------------------------

  /** The names a creation leaves: those there were, and the new one if it went through. */
  lemma NamesAfterCreate(a: Tree, q: Request, r: Outcome, b: Tree, d: nat, n: Name, x: nat)
    requires q.DoCreate? && CreateStep(a, q, r, b)
    ensures NamedAt(b, d, n, x) <==>
            NamedAt(a, d, n, x) || (r.Done? && d == q.parent && n == q.name && x == IdFor(a, q).value as nat)
  {
    hide Scan, ValidName, HasRoom;
    EmptyNames(n);
  }

  /** The names a deletion leaves: all but the one removed and those of a directory that went. */
  lemma NamesAfterDelete(a: Tree, parent: nat, name: Name, r: Outcome, b: Tree, d: nat, n: Name, x: nat)
    requires DeleteStep(a, parent, name, r, b) && r.Done?
    ensures NamedAt(b, d, n, x) <==>
            NamedAt(a, d, n, x) && !(d == parent && n == name) && d != Scan(a.dirs[parent], name).value as nat
  {
    hide Scan, SeemsFull;
  }

  lemma StepNamesOnce(a: Tree, q: Request, r: Reply, b: Tree)
    requires NamedOnce(a) && Step(a, q, r, b)
    ensures NamedOnce(b)
  {
    hide Scan, CreateStep, DeleteStep, NamedAt, IsListing;
    match q
    case DoCreate(_, _, _, _, _, _) =>
      InUseAfterCreate(a, q, r.outcome, b);
      forall d, n, x
        ensures NamedAt(b, d, n, x) <==>
                || NamedAt(a, d, n, x)
                || (r.outcome.Done? && d == q.parent && n == q.name && x == IdFor(a, q).value as nat)
      {
        NamesAfterCreate(a, q, r.outcome, b, d, n, x);
      }
    case DoDelete(parent, name) =>
      if r.outcome.Done? {
        var target := DeletedTarget(a, parent, name, r.outcome, b);
        forall d, n, x
          ensures NamedAt(b, d, n, x) <==> NamedAt(a, d, n, x) && !(d == parent && n == name) && d != target
        {
          NamesAfterDelete(a, parent, name, r.outcome, b, d, n, x);
        }
      } else {
        assert b == a by { NothingDeleted(a, parent, name, r.outcome, b); }
      }
    case DoLookup(_, _) =>
    case DoList(_) =>
  }

  lemma InUseAfterCreate(a: Tree, q: Request, r: Outcome, b: Tree)
    requires q.DoCreate? && CreateStep(a, q, r, b)
    ensures a.inUse <= b.inUse
    ensures r.Done? ==> IdFor(a, q).Some? && IdFor(a, q).value as nat in b.inUse && IdFor(a, q).value as nat !in a.inUse
    ensures forall x :: x in b.inUse <==>
              x in a.inUse || ((r.Done? || r.NoSpace?) && IdFor(a, q).Some? && x == IdFor(a, q).value as nat)
  {
  }

  lemma DeletedTarget(a: Tree, parent: nat, name: Name, r: Outcome, b: Tree) returns (target: nat)
    requires DeleteStep(a, parent, name, r, b) && r.Done?
    ensures parent in a.dirs && Scan(a.dirs[parent], name).Some? && target == Scan(a.dirs[parent], name).value as nat
    ensures NamedAt(a, parent, name, target) && b.inUse == a.inUse - {target} && b.dirs.Keys == a.dirs.Keys - {target}
  {
    hide Scan;
    target := Scan(a.dirs[parent], name).value as nat;
  }

  lemma NothingDeleted(a: Tree, parent: nat, name: Name, r: Outcome, b: Tree)
    requires DeleteStep(a, parent, name, r, b) && !r.Done?
    ensures b == a
  {
  }

  /** A creation loses an inode exactly if it ends without space after it took one. */
  lemma CreateLoses(a: Tree, q: Request, r: Outcome, b: Tree, x: nat)
    requires q.DoCreate? && NamedOnce(a) && CreateStep(a, q, r, b)
    ensures Lost(b, x) && !Lost(a, x) <==> r.NoSpace? && IdFor(a, q).Some? && x == IdFor(a, q).value as nat
  {
    hide Scan, CreateStep, NamedAt;
    InUseAfterCreate(a, q, r, b);
    forall d, n
      ensures NamedAt(b, d, n, x) <==>
              NamedAt(a, d, n, x) || (r.Done? && d == q.parent && n == q.name && x == IdFor(a, q).value as nat)
    {
      NamesAfterCreate(a, q, r, b, d, n, x);
    }
    if r.Done? && x == IdFor(a, q).value as nat { assert NamedAt(b, q.parent, q.name, x); }
  }

  /** A deletion loses exactly the inodes named in a directory that went. */
  lemma DeleteLoses(a: Tree, parent: nat, name: Name, r: Outcome, b: Tree, x: nat)
    requires NamedOnce(a) && DeleteStep(a, parent, name, r, b) && r.Done?
    ensures var target := Scan(a.dirs[parent], name).value as nat;
            Lost(b, x) && !Lost(a, x) <==> x != target && NamedIn(a, target, x)
  {
    hide Scan, DeleteStep, NamedAt;
    var target := DeletedTarget(a, parent, name, r, b);
    forall d, n
      ensures NamedAt(b, d, n, x) <==> NamedAt(a, d, n, x) && !(d == parent && n == name) && d != target
    {
      NamesAfterDelete(a, parent, name, r, b, d, n, x);
    }
    assert NamedAt(a, parent, name, target);
    if x in a.inUse && !Lost(a, x) {
      var d, n :| NamedAt(a, d, n, x);
      assert d == parent && n == name ==> x == target by { OneTarget(a, d, n, x, target); }
      assert d != target && x != target ==> NamedAt(b, d, n, x);
    }
  }

  lemma OneTarget(t: Tree, d: nat, n: Name, x: nat, y: nat)
    ensures NamedAt(t, d, n, x) && NamedAt(t, d, n, y) ==> x == y
  {
  }

  /** What is lost stays lost. */
  lemma StaysLost(a: Tree, q: Request, r: Reply, b: Tree, x: nat)
    requires Step(a, q, r, b) && Lost(a, x)
    ensures Lost(b, x)
  {
    hide Scan, CreateStep, DeleteStep, NamedAt, IsListing;
    match q
    case DoCreate(_, _, _, _, _, _) =>
      InUseAfterCreate(a, q, r.outcome, b);
      forall d, n ensures !NamedAt(b, d, n, x) { NamesAfterCreate(a, q, r.outcome, b, d, n, x); }
    case DoDelete(parent, name) =>
      if r.outcome.Done? {
        var target := DeletedTarget(a, parent, name, r.outcome, b);
        forall d, n ensures !NamedAt(b, d, n, x) { NamesAfterDelete(a, parent, name, r.outcome, b, d, n, x); }
      } else {
        NothingDeleted(a, parent, name, r.outcome, b);
      }
    case DoLookup(_, _) =>
    case DoList(_) =>
  }

  // ---------------------------------------------------------------------------
  // Whole runs
  // ---------------------------------------------------------------------------

  lemma FreshNames()
    ensures NamedOnce(Tree(FreshDirs(), {0}))
  {
    hide Scan;
    forall n ensures Scan([Zeros(BLOCK_SIZE)], n).None? { EmptyNames(n); }
  }

  lemma {:induction false} RunNamesOnce(qs: seq<Request>, rs: seq<Reply>, ts: seq<Tree>, i: nat)
    requires IsRun(qs, rs, ts) && i <= |qs|
    ensures NamedOnce(ts[i])
  {
    hide NamedOnce, Step;
    if i == 0 {
      FreshNames();
    } else {
      RunNamesOnce(qs, rs, ts, i - 1);
      StepNamesOnce(ts[i - 1], qs[i - 1], rs[i - 1], ts[i]);
    }
  }

  /** Request `i` takes an inode and ends without space. */
  ghost predicate TakesInVain(qs: seq<Request>, rs: seq<Reply>, ts: seq<Tree>, i: nat, x: nat)
    requires |rs| == |qs| && |ts| == |qs| + 1 && i < |qs|
  {
    qs[i].DoCreate? && rs[i] == Result(NoSpace) && IdFor(ts[i], qs[i]).Some? && IdFor(ts[i], qs[i]).value as nat == x
  }

  /** Request `i` removes a directory in which inode `x` has its name. */
  ghost predicate CutsOff(qs: seq<Request>, rs: seq<Reply>, ts: seq<Tree>, i: nat, x: nat)
    requires |rs| == |qs| && |ts| == |qs| + 1 && i < |qs|
  {
    qs[i].DoDelete? && rs[i] == Result(Done) && qs[i].parent in ts[i].dirs &&
    var found := Scan(ts[i].dirs[qs[i].parent], qs[i].name);
    found.Some? && x != found.value as nat && NamedIn(ts[i], found.value as nat, x)
  }

  /** The inodes in use that no name leads to, after any run: the root, and those that a creation took in
      vain or a deletion cut off. */
  lemma {:induction false} LostExactly(qs: seq<Request>, rs: seq<Reply>, ts: seq<Tree>, i: nat, x: nat)
    requires IsRun(qs, rs, ts) && i <= |qs|
    ensures Lost(ts[i], x) <==>
            x == 0 || exists k :: 0 <= k < i && (TakesInVain(qs, rs, ts, k, x) || CutsOff(qs, rs, ts, k, x))
  {
    hide Lost, Step, NamedOnce, TakesInVain, CutsOff;
    if i == 0 {
      FreshLost(x);
    } else {
      LostExactly(qs, rs, ts, i - 1, x);
      RunNamesOnce(qs, rs, ts, i - 1);
      StepLoses(qs, rs, ts, i - 1, x);
    }
  }

  lemma FreshLost(x: nat)
    ensures Lost(Tree(FreshDirs(), {0}), x) <==> x == 0
  {
    hide Scan;
    forall n ensures Scan([Zeros(BLOCK_SIZE)], n).None? { EmptyNames(n); }
  }

  lemma StepLoses(qs: seq<Request>, rs: seq<Reply>, ts: seq<Tree>, i: nat, x: nat)
    requires IsRun(qs, rs, ts) && i < |qs| && NamedOnce(ts[i])
    ensures Lost(ts[i + 1], x) <==> Lost(ts[i], x) || TakesInVain(qs, rs, ts, i, x) || CutsOff(qs, rs, ts, i, x)
  {
    hide Lost, NamedOnce, CreateStep, DeleteStep, IsListing, Scan, NamedIn;
    assert Step(ts[i], qs[i], rs[i], ts[i + 1]);
    if Lost(ts[i], x) { StaysLost(ts[i], qs[i], rs[i], ts[i + 1], x); }
    match qs[i]
    case DoCreate(_, _, _, _, _, _) => CreateLoses(ts[i], qs[i], rs[i].outcome, ts[i + 1], x);
    case DoDelete(parent, name) =>
      if rs[i].outcome.Done? {
        var _ := DeletedTarget(ts[i], parent, name, rs[i].outcome, ts[i + 1]);
        DeleteLoses(ts[i], parent, name, rs[i].outcome, ts[i + 1], x);
      } else {
        NothingDeleted(ts[i], parent, name, rs[i].outcome, ts[i + 1]);
      }
    case DoLookup(_, _) =>
    case DoList(_) =>
  }

  /** A name that was created stands for its inode until it is deleted, as long as its directory is there. */
  lemma {:induction false} FoundUntilDeleted(qs: seq<Request>, rs: seq<Reply>, ts: seq<Tree>, i: nat, j: nat)
    requires IsRun(qs, rs, ts) && i < j <= |qs| && qs[i].DoCreate? && rs[i] == Result(Done)
    requires forall k :: i < k <= j ==> qs[i].parent in ts[k].dirs
    requires forall k :: i < k < j ==> !(qs[k] == DoDelete(qs[i].parent, qs[i].name) && rs[k] == Result(Done))
    ensures IdFor(ts[i], qs[i]).Some?
    ensures NamedAt(ts[j], qs[i].parent, qs[i].name, IdFor(ts[i], qs[i]).value as nat)
    decreases j
  {
    hide Scan, CreateStep, DeleteStep, IsListing, NamedAt;
    var q, x := qs[i], IdFor(ts[i], qs[i]);
    assert Step(ts[i], q, rs[i], ts[i + 1]);
    InUseAfterCreate(ts[i], q, Done, ts[i + 1]);
    if j == i + 1 {
      NamesAfterCreate(ts[i], q, Done, ts[j], q.parent, q.name, x.value as nat);
    } else {
      FoundUntilDeleted(qs, rs, ts, i, j - 1);
      var a, p, r, b := ts[j - 1], qs[j - 1], rs[j - 1], ts[j];
      assert Step(a, p, r, b);
      match p {
        case DoCreate(_, _, _, _, _, _) => NamesAfterCreate(a, p, r.outcome, b, q.parent, q.name, x.value as nat);
        case DoDelete(parent, name) =>
          if r.outcome.Done? {
            var target := DeletedTarget(a, parent, name, r.outcome, b);
            assert q.parent in b.dirs.Keys;
            NamesAfterDelete(a, parent, name, r.outcome, b, q.parent, q.name, x.value as nat);
          } else {
            NothingDeleted(a, parent, name, r.outcome, b);
          }
        case DoLookup(_, _) =>
        case DoList(_) =>
      }
    }
  }
}
