/** Every run of directory operations from a fresh image stays far below the block limit of a directory,
    so the index and the scans always agree. */
module DirRuns {
  import opened Sizes
  import opened Bytes
  import opened LastWins
  import opened Directory
  import opened DirBlocks
  import opened DirCache

  /** One inode bitmap block. */
  const USABLE_INODES := 32768

  /** As many blocks as entries of that many inodes can fill, and one more. */
  const MOST_BLOCKS := 2341

  function Ids(es: seq<Entry>): (r: seq<nat>)
    ensures |r| == |es| && forall i :: 0 <= i < |es| ==> r[i] == es[i].inode
  {
    seq(|es|, i requires 0 <= i < |es| => es[i].inode)
  }

  ghost predicate Distinct(s: seq<nat>) {
    forall i, j :: 0 <= i < j < |s| ==> s[i] != s[j]
  }

  /** The inode ids a directory names. */
  function Names(d: Dir): seq<nat> {
    Ids(DirRecords(d))
  }

  /** Each id is named at most once over all directories, only ids in use are named or have a directory,
      and no directory is longer than its entries ever made it. */
  ghost predicate Tame(dirs: Dirs, inUse: set<nat>) {
    && (forall x :: x in inUse ==> x < USABLE_INODES)
    && dirs.Keys <= inUse
    && (forall a :: a in dirs ==> TameDir(dirs[a], inUse))
    && (forall a, b, x :: a in dirs && b in dirs && a != b && x in Names(dirs[a]) ==> x !in Names(dirs[b]))
  }

  ghost predicate TameDir(d: Dir, inUse: set<nat>) {
    |d| <= MOST_BLOCKS && Distinct(Names(d)) && forall x :: x in Names(d) ==> x in inUse
  }

  // ---------------------------------------------------------------------------
  // Counting
  // ---------------------------------------------------------------------------

  lemma {:induction false} DistinctFew(s: seq<nat>, bound: nat)
    requires Distinct(s) && forall x :: x in s ==> x < bound
    ensures |s| <= bound
    decreases bound
  {
    if s != [] {
      assert s[0] in s;
      if k :| 0 <= k < |s| && s[k] == bound - 1 {
        var t := s[..k] + s[k + 1..];
        assert forall i :: 0 <= i < |t| ==> t[i] == s[if i < k then i else i + 1];
        forall i | 0 <= i < |t| ensures t[i] < bound - 1 { assert t[i] in s; }
        DistinctFew(t, bound - 1);
      } else {
        DistinctFew(s, bound - 1);
      }
    }
  }

  lemma {:induction false} EncodedAtMost(es: seq<Entry>)
    requires ValidNames(es)
    ensures |EncodeAll(es)| <= 273 * |es|
  {
    hide ValidName, Encode;
    if es != [] { EncodedAtMost(es[1..]); }
  }

  /** A block without room for a name holds fourteen entries or more. */
  lemma FullHasMany(hash: Name -> u64, b: seq<byte>, len: nat)
    requires WellFormedBlock(hash, b) && len <= MAX_FILENAME_LEN && !RoomIn(b, len)
    ensures |Records(b, 0)| >= 14
  {
    hide Records, EndOfRecords, EncodeAll;
    WellFormedEnd(hash, b);
    EncodedAtMost(Records(b, 0));
  }

  lemma {:induction false} FullBlocksHaveMany(hash: Name -> u64, d: Dir, len: nat)
    requires AllWellFormed(hash, d) && len <= MAX_FILENAME_LEN && forall i :: 0 <= i < |d| ==> !RoomIn(d[i], len)
    ensures |DirRecords(d)| >= 14 * |d|
    decreases |d|
  {
    hide Records, RoomIn, WellFormedBlock;
    if d != [] {
      FullHasMany(hash, d[0], len);
      FullBlocksHaveMany(hash, d[1..], len);
    }
  }

  // ---------------------------------------------------------------------------
  // Steps
  // ---------------------------------------------------------------------------

  lemma InsertedName(a: seq<Entry>, e: Entry, c: seq<Entry>)
    ensures forall x :: x in Ids(a + [e] + c) <==> x == e.inode || x in Ids(a + c)
    ensures Distinct(Ids(a + [e] + c)) <==> Distinct(Ids(a + c)) && e.inode !in Ids(a + c)
  {
    var s, t := Ids(a + [e] + c), Ids(a + c);
    assert forall i :: 0 <= i < |t| ==> t[i] == s[if i < |a| then i else i + 1];
    assert forall i :: 0 <= i < |s| && i != |a| ==> s[i] == t[if i < |a| then i else i - 1];
    assert s[|a|] == e.inode;
    if Distinct(t) && e.inode !in t {
      forall i, j | 0 <= i < j < |s| ensures s[i] != s[j] {
        var x, y := (if i < |a| then i else i - 1), (if j < |a| then j else j - 1);
        assert i != |a| ==> s[i] == t[x];
        assert j != |a| ==> s[j] == t[y];
      }
    }
  }

  /** What an entry more does to the names of a directory. */
  lemma GrownNames(d: Dir, e: Entry, d': Dir)
    requires |d| <= MOST_BLOCKS && Grown(d, e, d')
    ensures forall x :: x in Names(d') <==> x == e.inode || x in Names(d)
    ensures Distinct(Names(d')) <==> Distinct(Names(d)) && e.inode !in Names(d)
    ensures |d'| == |d| || (|d'| == |d| + 1 && forall i :: 0 <= i < |d| ==> !RoomIn(d[i], |e.name|))
  {
    hide Records, DirRecords, Distinct, RoomIn, Ids;
    if i, b {:trigger d[i := b]} :|
      0 <= i < |Visible(d)| && d' == d[i := b] && Records(b, 0) == Records(d[i], 0) + [e]
    {
      DirRecordsAround(d, i);
      DirRecordsReplaced(d, i, b);
      var a, c := DirRecords(d[..i]) + Records(d[i], 0), DirRecords(d[i + 1..]);
      assert DirRecords(d') == a + [e] + c;
      InsertedName(a, e, c);
    } else {
      var b {:trigger [b]} :| d' == Visible(d) + [b] && Records(b, 0) == [e];
      DirRecordsConcat(d, [b]);
      DirRecordsOne(b);
      var es := DirRecords(d);
      assert es + [] == es && es + [e] + [] == es + [e];
      InsertedName(es, e, []);
    }
  }

  /** A directory grows only while its blocks are full, and there are not enough inodes to fill many. */
  lemma GrownIsTame(hash: Name -> u64, d: Dir, inUse: set<nat>, e: Entry, d': Dir)
    requires AllWellFormed(hash, d) && TameDir(d, inUse) && Grown(d, e, d') && |e.name| <= MAX_FILENAME_LEN
    requires e.inode in inUse && e.inode !in Names(d) && forall x :: x in inUse ==> x < USABLE_INODES
    ensures TameDir(d', inUse)
  {
    hide Grown, RoomIn, Names, Distinct, AllWellFormed;
    GrownNames(d, e, d');
    if |d'| == |d| + 1 {
      FullBlocksHaveMany(hash, d, |e.name|);
      assert |Names(d')| >= |DirRecords(d)| + 1 by { GrownCount(d, e, d'); }
      DistinctFew(Names(d'), USABLE_INODES);
    }
  }

  lemma GrownCount(d: Dir, e: Entry, d': Dir)
    requires |d| <= MOST_BLOCKS && Grown(d, e, d')
    ensures |Names(d')| == |DirRecords(d)| + 1
  {
    hide Records, DirRecords, RoomIn, HasRoom;
    if i, b {:trigger d[i := b]} :|
      0 <= i < |Visible(d)| && d' == d[i := b] && Records(b, 0) == Records(d[i], 0) + [e]
    {
      DirRecordsAround(d, i);
      DirRecordsReplaced(d, i, b);
    } else {
      var b {:trigger [b]} :| d' == Visible(d) + [b] && Records(b, 0) == [e];
      DirRecordsConcat(d, [b]);
      DirRecordsOne(b);
    }
  }

  lemma TameUse(dirs: Dirs, inUse: set<nat>, id: nat)
    requires Tame(dirs, inUse) && id < USABLE_INODES
    ensures Tame(dirs, inUse + {id})
    ensures id !in inUse ==> forall a :: a in dirs ==> id !in Names(dirs[a])
  {
    hide Names, Distinct;
  }

  lemma TameNewDir(dirs: Dirs, inUse: set<nat>, id: nat)
    requires Tame(dirs, inUse) && id in inUse && id !in dirs
    ensures Tame(dirs[id := [Zeros(BLOCK_SIZE)]], inUse) && Names([Zeros(BLOCK_SIZE)]) == []
  {
    hide Records, DirRecords;
    ZeroBlock(_ => 0, []);
    DirRecordsOne(Zeros(BLOCK_SIZE));
  }

  lemma TameLink(hash: Name -> u64, dirs: Dirs, inUse: set<nat>, parent: nat, e: Entry, d': Dir)
    requires AllDirs(hash, dirs) && Tame(dirs, inUse) && parent in dirs && |e.name| <= MAX_FILENAME_LEN
    requires e.inode in inUse && (forall a :: a in dirs ==> e.inode !in Names(dirs[a])) && Grown(dirs[parent], e, d')
    ensures Tame(dirs[parent := d'], inUse)
  {
    hide Names, Distinct, Grown, AllWellFormed, UniqueNames;
    var d := dirs[parent];
    assert WellFormedDir(hash, d);
    GrownIsTame(hash, d, inUse, e, d');
    GrownNames(d, e, d');
  }

  /** The entry that went, and those around it. */
  lemma RemovedParts(d: Dir, name: Name, d': Dir) returns (a: seq<Entry>, e: Entry, c: seq<Entry>)
    requires |d| <= MOST_BLOCKS && UniqueNames(DirRecords(d)) && Removed(d, name, d')
    ensures |d'| == |d| && DirRecords(d) == a + [e] + c && DirRecords(d') == a + c && e.name == name
  {
    hide Records, DirRecords, Find, Others, UniqueNames;
    var i, b {:trigger d[i := b]} :|
      && 0 <= i < |Visible(d)| && d' == d[i := b]
      && Find(Records(d[i], 0), name).Some? && Records(b, 0) == Others(Records(d[i], 0), name);
    DirRecordsAround(d, i);
    DirRecordsReplaced(d, i, b);
    var front, r, back := DirRecords(d[..i]), Records(d[i], 0), DirRecords(d[i + 1..]);
    UniquePart(front, r, back);
    var k := OthersDrop(r, name);
    a, e, c := front + r[..k], r[k], r[k + 1..] + back;
    assert r == r[..k] + [r[k]] + r[k + 1..];
  }

  /** What an entry less does to the names of a directory. */
  lemma RemovedNames(d: Dir, name: Name, d': Dir)
    requires |d| <= MOST_BLOCKS && UniqueNames(DirRecords(d)) && Distinct(Names(d)) && Removed(d, name, d')
    ensures |d'| == |d| && Distinct(Names(d')) && Scan(d, name).Some?
    ensures forall x :: x in Names(d') <==> x in Names(d) && x != Scan(d, name).value
  {
    hide DirRecords, Distinct, Ids, Find, UniqueNames, Removed;
    var a, e, c := RemovedParts(d, name, d');
    InsertedName(a, e, c);
    DropEntry(a, e, c);
    FindInserted(a, e, c, name);
  }

  /** Every remaining directory, with one entry and its inode gone. */
  lemma TameUnlink(hash: Name -> u64, dirs: Dirs, inUse: set<nat>, parent: nat, name: Name, d': Dir)
    requires AllDirs(hash, dirs) && Tame(dirs, inUse) && parent in dirs && Removed(dirs[parent], name, d')
    requires Scan(dirs[parent], name).Some?
    ensures var target := Scan(dirs[parent], name).value as nat;
            Tame(dirs[parent := d'] - {target}, inUse - {target})
  {
    hide Names, Distinct, Removed, AllWellFormed, UniqueNames, Find, DirRecords;
    var d := dirs[parent];
    assert WellFormedDir(hash, d);
    var target := Scan(d, name).value as nat;
    RemovedNames(d, name, d');
    assert target in Names(d) by { ScanIsNamed(d, name); }
    var dirs', inUse' := dirs[parent := d'] - {target}, inUse - {target};
    forall a | a in dirs' ensures TameDir(dirs'[a], inUse') {
      if a != parent { assert TameDir(dirs[a], inUse) && target !in Names(dirs[a]); }
    }
  }

  lemma ScanIsNamed(d: Dir, name: Name)
    requires |d| <= MOST_BLOCKS && Scan(d, name).Some?
    ensures Scan(d, name).value as nat in Names(d)
  {
    hide DirRecords;
    FoundIsThere(DirRecords(d), name);
  }

  lemma {:induction false} FoundIsThere(es: seq<Entry>, name: Name)
    requires Find(es, name).Some?
    ensures Find(es, name).value as nat in Ids(es)
  {
    if es[0].name == name {
      assert Ids(es)[0] == es[0].inode;
    } else {
      FoundIsThere(es[1..], name);
      var k :| 0 <= k < |es[1..]| && Ids(es[1..])[k] == Find(es, name).value;
      assert Ids(es)[k + 1] == Ids(es[1..])[k];
    }
  }

  // ---------------------------------------------------------------------------
  // Requests
  // ---------------------------------------------------------------------------

  datatype Request =
    | DoCreate(parent: nat, name: Name, isDir: bool, id: Option<u64>, blockOk: bool, grow: bool)
    | DoDelete(parent: nat, name: Name)
    | DoLookup(parent: nat, name: Name)
    | DoList(dir: nat)

  datatype Reply = Result(outcome: Outcome) | Looked(answer: Answer) | Listed(names: Option<map<Name, u64>>)

  /** The directories on the image and the inodes in use. */
  datatype Tree = Tree(dirs: Dirs, inUse: set<nat>)

  /** The inode a creation gets: one the allocator can find, or none. */
  function IdFor(t: Tree, q: Request): Option<u64>
    requires q.DoCreate?
  {
    if q.id.Some? && q.id.value as nat !in t.inUse && q.id.value < USABLE_INODES then q.id else None
  }

  /** Nothing but the directory `parent` is changed, and that only by `name`, which then stands for `to`. */
  ghost predicate Rebound(a: Dirs, b: Dirs, parent: nat, name: Name, to: Option<u64>) {
    && parent in a && (parent in b ==> forall n :: Scan(b[parent], n) == if n == name then to else Scan(a[parent], n))
    && forall d :: d in a && d in b && d != parent ==> b[d] == a[d]
  }

  /** What a creation may answer, and what it leaves: an inode taken for an entry that then finds no room
      stays in use, and so does its directory. */
  ghost predicate CreateStep(a: Tree, q: Request, r: Outcome, b: Tree)
    requires q.DoCreate?
  {
    var id := IdFor(a, q);
    && (r.InvalidName? <==> !ValidName(q.name))
    && (r.NotDirectory? <==> ValidName(q.name) && q.parent !in a.dirs)
    && (r.Exists? <==> ValidName(q.name) && q.parent in a.dirs && Scan(a.dirs[q.parent], q.name).Some?)
    && (r.Done? <==>
          && ValidName(q.name) && q.parent in a.dirs && Scan(a.dirs[q.parent], q.name).None?
          && id.Some? && (q.isDir ==> q.blockOk) && (q.grow || HasRoom(a.dirs[q.parent], |q.name|)))
    && (r.Done? || r.NoSpace? || r.InvalidName? || r.NotDirectory? || r.Exists?)
    && (r.Done? ==> Rebound(a.dirs, b.dirs, q.parent, q.name, id))
    && (!r.Done? ==> forall d :: d in a.dirs && d in b.dirs ==> b.dirs[d] == a.dirs[d])
    && var new' := if id.Some? && (r.Done? || r.NoSpace?) then {id.value as nat} else {};
    && b.inUse == a.inUse + new'
    && b.dirs.Keys == a.dirs.Keys + (if q.isDir && q.blockOk then new' else {})
    && (forall d :: d in b.dirs && d !in a.dirs ==> b.dirs[d] == [Zeros(BLOCK_SIZE)])
  }

  /** What a deletion may answer, and what it leaves: entry, inode and directory go together. */
  ghost predicate DeleteStep(a: Tree, parent: nat, name: Name, r: Outcome, b: Tree) {
    && (r.NotDirectory? <==> parent !in a.dirs)
    && (r.NotFound? <==> parent in a.dirs && Scan(a.dirs[parent], name).None?)
    && (r.NotEmpty? <==>
          && parent in a.dirs && Scan(a.dirs[parent], name).Some?
          && var target := Scan(a.dirs[parent], name).value; target in a.dirs && SeemsFull(a.dirs[target]))
    && (r.Done? || r.NotDirectory? || r.NotFound? || r.NotEmpty?)
    && (!r.Done? ==> b == a)
    && (r.Done? ==>
          var target := Scan(a.dirs[parent], name).value as nat;
          && Rebound(a.dirs, b.dirs, parent, name, None)
          && b.dirs.Keys == a.dirs.Keys - {target} && b.inUse == a.inUse - {target})
  }

  ghost predicate IsListing(d: Dir, m: map<Name, u64>) {
    forall n :: Scan(d, n) == if n in m then Some(m[n]) else None
  }

  /** Request `q` may answer `r` and lead from `a` to `b`. Lookups and listings answer as scans of the
      directory do, and change nothing. */
  ghost predicate Step(a: Tree, q: Request, r: Reply, b: Tree) {
    match q
    case DoCreate(_, _, _, _, _, _) => r.Result? && CreateStep(a, q, r.outcome, b)
    case DoDelete(parent, name) => r.Result? && DeleteStep(a, parent, name, r.outcome, b)
    case DoLookup(parent, name) =>
      && b == a
      && r == Looked(if parent !in a.dirs then NotADirectory
                     else match Scan(a.dirs[parent], name) case Some(id) => Present(id) case None => Absent)
    case DoList(dir) =>
      && b == a && r.Listed? && (r.names.Some? <==> dir in a.dirs)
      && (r.names.Some? ==> IsListing(a.dirs[dir], r.names.value))
  }

  /** The root directory, empty. */
  function FreshDirs(): Dirs {
    map[0 := [Zeros(BLOCK_SIZE)]]
  }

  /** A run on a fresh image: every request steps from one tree to the next. */
  ghost predicate IsRun(qs: seq<Request>, rs: seq<Reply>, ts: seq<Tree>) {
    && |rs| == |qs| && |ts| == |qs| + 1 && ts[0] == Tree(FreshDirs(), {0})
    && forall i :: 0 <= i < |qs| ==> Step(ts[i], qs[i], rs[i], ts[i + 1])
  }

  lemma FreshIsTame(hash: Name -> u64)
    ensures AllDirs(hash, FreshDirs()) && Tame(FreshDirs(), {0})
  {
    hide WellFormedDir, Names, Distinct;
    NewDir(hash);
    assert Tame(map[], {0});
    TameNewDir(map[], {0}, 0);
    assert map[][0 := [Zeros(BLOCK_SIZE)]] == FreshDirs();
  }

  /** A creation with an inode the allocator can find. Whatever comes of it, the index agrees with the
      directories. */
  method CreateTame(s: DirStore, q: Request) returns (r: Outcome)
    requires q.DoCreate? && s.Valid() && Tame(s.dirs, s.inUse)
    modifies s
    ensures s.Valid() && Tame(s.dirs, s.inUse)
    ensures CreateStep(Tree(old(s.dirs), old(s.inUse)), q, r, Tree(s.dirs, s.inUse))
  {
    hide Tame, Names, Grown, HasRoom, WellFormedDir, Scan, Agrees, CanHold, ValidName, Appended;
    ghost var dirs, inUse := s.dirs, s.inUse;
    assert dirs.Keys <= inUse by { TameKeys(dirs, inUse); }
    var id := IdFor(Tree(s.dirs, s.inUse), q);
    r := s.Create(q.parent, q.name, q.isDir, id, q.blockOk, q.grow);
    if id.Some? && (r.Done? || r.NoSpace?) {
      TameUse(dirs, inUse, id.value);
      TameAfter(s.hash, dirs, inUse + {id.value as nat}, q.(id := id), r, s.dirs);
    } else {
      assert s.dirs == dirs;
    }
    if r.Done? {
      AppendedScans(s.hash, dirs[q.parent], Entry(id.value, s.hash(q.name), q.name), s.dirs[q.parent]);
    }
  }

  lemma AppendedScans(hash: Name -> u64, d: Dir, e: Entry, d': Dir)
    requires Appended(hash, d, e, d') && CanHold(d, |e.name|)
    ensures forall n :: Scan(d', n) == if n == e.name then Some(e.inode) else Scan(d, n)
  {
  }

  lemma TameKeys(dirs: Dirs, inUse: set<nat>)
    requires Tame(dirs, inUse)
    ensures dirs.Keys <= inUse
  {
  }

  lemma TameHolds(dirs: Dirs, inUse: set<nat>, id: nat, len: nat)
    requires Tame(dirs, inUse) && id in dirs
    ensures CanHold(dirs[id], len)
  {
  }

  /** The directories a creation leaves. */
  lemma TameAfter(hash: Name -> u64, dirs: Dirs, inUse: set<nat>, q: Request, r: Outcome, dirs': Dirs)
    requires AllDirs(hash, dirs) && Tame(dirs, inUse) && q.DoCreate? && q.id.Some? && q.id.value as nat in inUse
    requires q.id.value !in dirs && forall a :: a in dirs ==> q.id.value as nat !in Names(dirs[a])
    requires r.Done? ==>
               && ValidName(q.name) && q.parent in dirs && q.parent in dirs'
               && Grown(dirs[q.parent], Entry(q.id.value, hash(q.name), q.name), dirs'[q.parent])
    requires forall d :: d in dirs && (d != q.parent || !r.Done?) ==> d in dirs' && dirs'[d] == dirs[d]
    requires if q.isDir && q.id.value in dirs'
             then dirs'.Keys == dirs.Keys + {q.id.value as nat} && dirs'[q.id.value] == [Zeros(BLOCK_SIZE)]
             else dirs'.Keys == dirs.Keys
    ensures Tame(dirs', inUse)
    ensures r.Done? ==> CanHold(dirs[q.parent], |q.name|)
  {
    hide Tame, Names, Grown, WellFormedDir, CanHold;
    var id := q.id.value as nat;
    var base := dirs;
    if q.isDir && id in dirs' {
      TameNewDir(dirs, inUse, id);
      NewDir(hash);
      base := dirs[id := [Zeros(BLOCK_SIZE)]];
    }
    if r.Done? {
      var e := Entry(q.id.value, hash(q.name), q.name);
      TameLink(hash, base, inUse, q.parent, e, dirs'[q.parent]);
      assert dirs' == base[q.parent := dirs'[q.parent]];
      TameHolds(dirs, inUse, q.parent, |q.name|);
    } else {
      assert dirs' == base;
    }
  }

  method DeleteTame(s: DirStore, parent: nat, name: Name) returns (r: Outcome)
    requires s.Valid() && Tame(s.dirs, s.inUse)
    modifies s
    ensures s.Valid() && Tame(s.dirs, s.inUse)
    ensures DeleteStep(Tree(old(s.dirs), old(s.inUse)), parent, name, r, Tree(s.dirs, s.inUse))
  {
    hide Tame, Names, Removed, WellFormedDir, Scan, Agrees;
    ghost var dirs, inUse := s.dirs, s.inUse;
    r := s.Delete(parent, name);
    if r.Done? {
      ghost var target := Scan(dirs[parent], name).value as nat;
      if parent in s.dirs {
        TameUnlink(s.hash, dirs, inUse, parent, name, s.dirs[parent]);
        assert s.dirs == dirs[parent := s.dirs[parent]] - {target};
      } else {
        TameForget(s.hash, dirs, inUse, parent, name);
        assert s.dirs == dirs - {target};
      }
    }
  }

  /** A directory that names itself goes with its entry. */
  lemma TameForget(hash: Name -> u64, dirs: Dirs, inUse: set<nat>, parent: nat, name: Name)
    requires Tame(dirs, inUse) && parent in dirs && Scan(dirs[parent], name) == Some(parent as u64)
    requires parent < 0x1_0000_0000_0000_0000
    ensures Tame(dirs - {parent}, inUse - {parent})
  {
    hide Names, Distinct, Scan;
    assert parent in Names(dirs[parent]) by { ScanIsNamed(dirs[parent], name); }
    forall a | a in dirs - {parent} ensures TameDir((dirs - {parent})[a], inUse - {parent}) {
      assert TameDir(dirs[a], inUse) && parent !in Names(dirs[a]);
    }
  }

  /** Any run of requests on a fresh image. */
  method Run(hash: Name -> u64, qs: seq<Request>) returns (s: DirStore, rs: seq<Reply>, ghost ts: seq<Tree>)
    ensures IsRun(qs, rs, ts) && ts[|qs|] == Tree(s.dirs, s.inUse)
    ensures forall i :: 0 <= i <= |qs| ==> AllDirs(hash, ts[i].dirs) && Tame(ts[i].dirs, ts[i].inUse)
    ensures fresh(s) && s.hash == hash && s.Valid()
  {
    hide Tame, WellFormedDir, Agrees, AllDirs, Scan, CreateStep, DeleteStep;
    FreshIsTame(hash);
    s := new DirStore(hash, FreshDirs(), {0});
    rs, ts := [], [Tree(s.dirs, s.inUse)];
    for i := 0 to |qs|
      invariant fresh(s) && s.hash == hash && s.Valid()
      invariant IsRun(qs[..i], rs, ts) && ts[i] == Tree(s.dirs, s.inUse)
      invariant forall j :: 0 <= j <= i ==> AllDirs(hash, ts[j].dirs) && Tame(ts[j].dirs, ts[j].inUse)
    {
      var r: Reply;
      match qs[i] {
        case DoCreate(_, _, _, _, _, _) =>
          var o := CreateTame(s, qs[i]);
          r := Result(o);
        case DoDelete(parent, name) =>
          var o := DeleteTame(s, parent, name);
          r := Result(o);
        case DoLookup(parent, name) =>
          var a := s.Lookup(parent, name);
          r := Looked(a);
        case DoList(dir) =>
          var m := s.List(dir);
          r := Listed(m);
      }
      assert Step(ts[i], qs[i], r, Tree(s.dirs, s.inUse));
      rs, ts := rs + [r], ts + [Tree(s.dirs, s.inUse)];
      assert qs[..i + 1] == qs[..i] + [qs[i]];
    }
    assert qs[..|qs|] == qs;
  }
}
