/** The directory operations and their index cache (src/disk.rs), on an unencrypted image without a
    journal. */
module DirCache {
  import opened Sizes
  import opened Bytes
  import opened LastWins
  import opened Directory
  import opened DirBlocks

  const DIR_INDEX_BUILD_AFTER_SCANS := 8

  datatype Index = Index(stored: map<Name, u64>, complete: bool, coldScans: nat)

  datatype Answer = Present(inode: u64) | Absent | NotADirectory

  datatype Outcome = Done | InvalidName | Exists | NotFound | NotEmpty | NoSpace | NotDirectory

  /** Everything the index knows is what a scan finds, and a complete index knows all of it. */
  ghost predicate IndexFits(ix: Index, d: Dir) {
    && (forall n :: n in ix.stored ==> Scan(d, n) == Some(ix.stored[n]))
    && (ix.complete ==> forall n :: Scan(d, n).Some? ==> n in ix.stored)
  }

  /** Room for one more entry with a name of `len` bytes; two bytes more than it takes are asked for. */
  predicate RoomIn(b: seq<byte>, len: nat) {
    EndOfRecords(b, 0) + 20 + len <= BLOCK_SIZE
  }

  lemma RoomIsTwoMore(b: seq<byte>, e: Entry)
    requires ValidName(e.name)
    ensures RoomIn(b, |e.name|) <==> EndOfRecords(b, 0) + |Encode(e)| + 2 <= BLOCK_SIZE
  {
    hide Encode, EndOfRecords;
  }

  ghost predicate HasRoom(d: Dir, len: nat) {
    exists i :: 0 <= i < |Visible(d)| && RoomIn(d[i], len)
  }

  /** An entry with a name of `len` bytes finds a place that scans see. */
  ghost predicate CanHold(d: Dir, len: nat) {
    |d| < MAX_DIR_BLOCKS || HasRoom(d, len)
  }

  /** Block `i` is the one to take: the last one if it has room, else the first one that has. */
  ghost predicate Chosen(d: Dir, len: nat, i: int) {
    && 0 <= i < |Visible(d)| && RoomIn(d[i], len)
    && var last := |Visible(d)| - 1;
    i == last || (!RoomIn(d[last], len) && forall k :: 0 <= k < i ==> !RoomIn(d[k], len))
  }

  /** The entry went behind those of the chosen block, or into a new block when none had room. */
  ghost predicate Grown(d: Dir, e: Entry, d': Dir) {
    || (exists i, b {:trigger d[i := b]} ::
          Chosen(d, |e.name|, i) && d' == d[i := b] && Records(b, 0) == Records(d[i], 0) + [e])
    || (!HasRoom(d, |e.name|) && exists b {:trigger [b]} :: d' == Visible(d) + [b] && Records(b, 0) == [e])
  }

  /** The blocks an append that put `e` at `i` leaves, or one more block if no block had room. */
  ghost predicate Appended(hash: Name -> u64, d: Dir, e: Entry, d': Dir) {
    && AllWellFormed(hash, d')
    && (CanHold(d, |e.name|) ==>
          && UniqueNames(DirRecords(Visible(d')))
          && forall n :: Scan(d', n) == if n == e.name then Some(e.inode) else Scan(d, n))
    && (!CanHold(d, |e.name|) ==> Visible(d') == Visible(d))
  }

  lemma PutInBlock(hash: Name -> u64, d: Dir, i: nat, b: seq<byte>, e: Entry)
    requires WellFormedDir(hash, d) && Chosen(d, |e.name|, i)
    requires WellFormedBlock(hash, b) && Records(b, 0) == Records(d[i], 0) + [e] && Scan(d, e.name).None?
    ensures Appended(hash, d, e, d[i := b]) && Grown(d, e, d[i := b])
  {
    hide Records, DirRecords, Find, UniqueNames, WellFormedBlock, EndOfRecords;
    var v := Visible(d);
    BlockGained(v, i, b, e);
    assert Visible(d[i := b]) == v[i := b];
  }

  lemma PutInNewBlock(hash: Name -> u64, d: Dir, b: seq<byte>, e: Entry)
    requires WellFormedDir(hash, d) && WellFormedBlock(hash, b) && Records(b, 0) == [e] && Scan(d, e.name).None?
    requires forall i :: 0 <= i < |Visible(d)| ==> !RoomIn(d[i], |e.name|)
    ensures Appended(hash, d, e, Visible(d) + [b]) && Grown(d, e, Visible(d) + [b])
  {
    hide Records, DirRecords, Find, UniqueNames, WellFormedBlock, RoomIn;
    var v := Visible(d);
    if |d| < MAX_DIR_BLOCKS {
      BlockAdded(v, b, e);
      assert Visible(v + [b]) == v + [b];
    } else {
      assert Visible(v + [b]) == v;
    }
  }

  lemma ScanBlock(d: Dir, i: nat, name: Name)
    requires i < |Visible(d)| && Find(DirRecords(Visible(d)[..i]), name).None?
    ensures Find(DirRecords(Visible(d)[..i + 1]), name) == Find(Records(d[i], 0), name)
  {
    hide Records, DirRecords, Find;
    var v := Visible(d);
    assert v[..i + 1] == v[..i] + [v[i]];
    DirRecordsConcat(v[..i], [v[i]]);
    DirRecordsOne(v[i]);
    FindConcat(DirRecords(v[..i]), Records(v[i], 0), name);
  }

  lemma ScanFound(d: Dir, i: nat, name: Name)
    requires i <= |Visible(d)| && Find(DirRecords(Visible(d)[..i]), name).Some?
    ensures Scan(d, name) == Find(DirRecords(Visible(d)[..i]), name)
  {
    hide Records, DirRecords, Find;
    var v := Visible(d);
    assert v == v[..i] + v[i..];
    DirRecordsConcat(v[..i], v[i..]);
    FindConcat(DirRecords(v[..i]), DirRecords(v[i..]), name);
  }

  /** `locate_entry_in_dir`: the inode, and the block that holds the entry. */
  method Locate(hash: Name -> u64, d: Dir, name: Name) returns (r: Option<(u64, nat)>)
    requires AllWellFormed(hash, d)
    ensures r.None? ==> Scan(d, name).None?
    ensures r.Some? ==> Scan(d, name) == Some(r.value.0) && r.value.1 < |Visible(d)|
    ensures r.Some? ==> Find(Records(d[r.value.1], 0), name) == Some(r.value.0)
  {
    hide Records, DirRecords, Find, WellFormedBlock;
    var n := if |d| <= MAX_DIR_BLOCKS then |d| else MAX_DIR_BLOCKS;
    assert Find(DirRecords(Visible(d)[..0]), name).None? by { EmptyDir(Visible(d), name); }
    for i := 0 to n
      invariant Find(DirRecords(Visible(d)[..i]), name).None?
    {
      var found := FindInBlock(hash, d[i], name);
      ScanBlock(d, i, name);
      if found.Some? {
        ScanFound(d, i + 1, name);
        return Some((found.value, i));
      }
    }
    assert Visible(d)[..n] == Visible(d);
    return None;
  }

  lemma EmptyDir(v: Dir, name: Name)
    ensures Find(DirRecords(v[..0]), name).None?
  {
  }

  /** The map `m` holds exactly what `Find` finds in `es`. */
  ghost predicate IsMapOf(m: map<Name, u64>, es: seq<Entry>) {
    && (forall n :: n in m ==> Find(es, n) == Some(m[n]))
    && (forall n :: Find(es, n).Some? ==> n in m)
  }

  /** Adding an entry, keeping the first of a name, or the last where names are unique. */
  lemma MapSnoc(m: map<Name, u64>, es: seq<Entry>, e: Entry)
    requires IsMapOf(m, es)
    ensures IsMapOf(if e.name in m then m else m[e.name := e.inode], es + [e])
    ensures Find(es, e.name).None? ==> IsMapOf(m[e.name := e.inode], es + [e])
  {
    hide Find;
    forall n
      ensures Find(es + [e], n) ==
              if Find(es, n).Some? then Find(es, n) else if n == e.name then Some(e.inode) else None
    {
      FindConcat(es, [e], n);
      assert [e] + [] == [e];
      FindHead(e, [], n);
      FindNone([], n);
    }
  }

  lemma EmptyMap()
    ensures IsMapOf(map[], [])
  {
  }

  method AddFirst(m: map<Name, u64>, ghost before: seq<Entry>, es: seq<Entry>) returns (r: map<Name, u64>)
    requires IsMapOf(m, before)
    ensures IsMapOf(r, before + es)
  {
    hide IsMapOf;
    r := m;
    assert before + es[..0] == before;
    for i := 0 to |es|
      invariant IsMapOf(r, before + es[..i])
    {
      MapSnoc(r, before + es[..i], es[i]);
      assert before + es[..i + 1] == before + es[..i] + [es[i]];
      if es[i].name !in r {
        r := r[es[i].name := es[i].inode];
      }
    }
    assert es[..|es|] == es;
  }

  /** `build_dir_index`: every entry, the first of a name kept. */
  method BuildIndex(hash: Name -> u64, d: Dir) returns (r: Option<map<Name, u64>>)
    requires AllWellFormed(hash, d)
    ensures r.Some? && IsMapOf(r.value, DirRecords(Visible(d)))
  {
    hide Records, DirRecords, IsMapOf, WellFormedBlock, Items;
    var m: map<Name, u64> := map[];
    var n := if |d| <= MAX_DIR_BLOCKS then |d| else MAX_DIR_BLOCKS;
    assert DirRecords(Visible(d)[..0]) == [] by { NoBlocks(Visible(d)); }
    EmptyMap();
    for i := 0 to n
      invariant IsMapOf(m, DirRecords(Visible(d)[..i]))
    {
      ItemsOfBlock(hash, d[i]);
      var es := ReadEntries(d[i]);
      if es.None? {
        return None;
      }
      RecordsSnoc(Visible(d), i);
      m := AddFirst(m, DirRecords(Visible(d)[..i]), es.value);
    }
    assert Visible(d)[..n] == Visible(d);
    return Some(m);
  }

  lemma NoBlocks(v: Dir)
    ensures DirRecords(v[..0]) == []
  {
  }

  lemma RecordsSnoc(v: Dir, i: nat)
    requires i < |v|
    ensures DirRecords(v[..i + 1]) == DirRecords(v[..i]) + Records(v[i], 0)
  {
    hide Records, DirRecords;
    assert v[..i + 1] == v[..i] + [v[i]];
    DirRecordsConcat(v[..i], [v[i]]);
    DirRecordsOne(v[i]);
  }

  /** The slow path of `list_dir`: all entries, in order. */
  method ReadAll(hash: Name -> u64, d: Dir) returns (r: Option<seq<Entry>>)
    requires AllWellFormed(hash, d)
    ensures r == Some(DirRecords(Visible(d)))
  {
    hide Records, DirRecords, WellFormedBlock, Items;
    var all: seq<Entry> := [];
    var n := if |d| <= MAX_DIR_BLOCKS then |d| else MAX_DIR_BLOCKS;
    assert DirRecords(Visible(d)[..0]) == [] by { NoBlocks(Visible(d)); }
    for i := 0 to n
      invariant all == DirRecords(Visible(d)[..i])
    {
      ItemsOfBlock(hash, d[i]);
      var es := ReadEntries(d[i]);
      if es.None? {
        return None;
      }
      RecordsSnoc(Visible(d), i);
      all := all + es.value;
    }
    assert Visible(d)[..n] == Visible(d);
    return Some(all);
  }

  /** Its index: the last of a name kept, which is the first where names are unique. */
  method IndexLast(es: seq<Entry>) returns (m: map<Name, u64>)
    requires UniqueNames(es)
    ensures IsMapOf(m, es)
  {
    hide IsMapOf, Find;
    m := map[];
    EmptyMap();
    for i := 0 to |es|
      invariant IsMapOf(m, es[..i])
    {
      FindNone(es[..i], es[i].name);
      MapSnoc(m, es[..i], es[i]);
      assert es[..i + 1] == es[..i] + [es[i]];
      m := m[es[i].name := es[i].inode];
    }
    assert es[..|es|] == es;
  }

  /** `append_dir_entry_to_block`, where there is room. */
  method AppendToBlock(hash: Name -> u64, b: seq<byte>, e: Entry) returns (r: seq<byte>)
    requires WellFormedBlock(hash, b) && ValidName(e.name) && e.hash == hash(e.name) && RoomIn(b, |e.name|)
    ensures WellFormedBlock(hash, r) && Records(r, 0) == Records(b, 0) + [e]
  {
    hide Records, EndOfRecords, Encode;
    var off := FindInsertOffset(b);
    AppendEntry(hash, b, e);
    var bytes := Encode(e);
    r := b[..off] + bytes + b[off + |bytes|..];
  }

  /** `append_dir_entry_to_dir`: the last block first, then the others, then a new one if `grow` says
      that one can be allocated. */
  method AppendToDir(hash: Name -> u64, d: Dir, e: Entry, grow: bool) returns (r: Option<Dir>)
    requires WellFormedDir(hash, d) && ValidName(e.name) && e.hash == hash(e.name) && Scan(d, e.name).None?
    ensures r.Some? ==> Appended(hash, d, e, r.value) && Grown(d, e, r.value)
    ensures r.Some? <==> grow || HasRoom(d, |e.name|)
  {
    hide Records, DirRecords, Find, UniqueNames, WellFormedBlock, EndOfRecords, Appended, RoomIn, Scan, Grown;
    var n := if |d| <= MAX_DIR_BLOCKS then |d| else MAX_DIR_BLOCKS;
    for probe := 0 to n
      invariant probe > 0 ==> !RoomIn(d[n - 1], |e.name|)
      invariant forall i :: 0 <= i < probe - 1 ==> !RoomIn(d[i], |e.name|)
    {
      var i := if probe == 0 then n - 1 else probe - 1;
      if RoomIn(d[i], |e.name|) {
        var b := AppendToBlock(hash, d[i], e);
        PutInBlock(hash, d, i, b, e);
        return Some(d[i := b]);
      }
    }
    if !grow {
      return None;
    }
    ZeroBlock(hash, e.name);
    var b := AppendToBlock(hash, Zeros(BLOCK_SIZE), e);
    assert [] + [e] == [e];
    PutInNewBlock(hash, d, b, e);
    assert d[..n] == Visible(d);
    return Some(d[..n] + [b]);
  }

  lemma ZeroBlock(hash: Name -> u64, name: Name)
    ensures WellFormedBlock(hash, Zeros(BLOCK_SIZE)) && Records(Zeros(BLOCK_SIZE), 0) == []
    ensures |name| <= MAX_FILENAME_LEN ==> RoomIn(Zeros(BLOCK_SIZE), |name|)
  {
    hide Records, EndOfRecords;
    BlockOfIsWellFormed(hash, []);
    assert BlockOf([]) == Zeros(BLOCK_SIZE);
  }

  /** `rewrite_dir_entries_in_block`. */
  method RewriteBlock(hash: Name -> u64, es: seq<Entry>) returns (b: seq<byte>)
    requires Fitting(hash, es)
    ensures WellFormedBlock(hash, b) && Records(b, 0) == es
  {
    hide Records, EndOfRecords, Encode;
    var out: seq<byte> := [];
    for i := 0 to |es|
      invariant ValidNames(es[..i]) && out == EncodeAll(es[..i])
    {
      EncodeAllConcat(es[..i], [es[i]]);
      assert es[..i + 1] == es[..i] + [es[i]];
      assert EncodeAll([es[i]]) == Encode(es[i]) by {
        assert [es[i]][1..] == [];
        assert Encode(es[i]) + [] == Encode(es[i]);
      }
      out := out + Encode(es[i]);
    }
    assert es[..|es|] == es;
    BlockOfIsWellFormed(hash, es);
    b := out + Zeros(BLOCK_SIZE - |out|);
  }

  method KeepOthers(es: seq<Entry>, name: Name) returns (r: seq<Entry>)
    ensures r == Others(es, name)
  {
    r := [];
    var i := 0;
    assert es[0..] == es;
    while i < |es|
      invariant i <= |es| && r + Others(es[i..], name) == Others(es, name)
    {
      assert es[i..][1..] == es[i + 1..];
      if es[i].name != name {
        assert r + ([es[i]] + Others(es[i + 1..], name)) == (r + [es[i]]) + Others(es[i + 1..], name);
        r := r + [es[i]];
      } else {
        assert [] + Others(es[i + 1..], name) == Others(es[i + 1..], name);
      }
      i := i + 1;
    }
    assert r + [] == r;
  }

  // ---------------------------------------------------------------------------
  // The operations
  // ---------------------------------------------------------------------------

  lemma NewDir(hash: Name -> u64)
    ensures WellFormedDir(hash, [Zeros(BLOCK_SIZE)])
  {
    hide Records, WellFormedBlock;
    ZeroBlock(hash, []);
    DirRecordsOne(Zeros(BLOCK_SIZE));
  }

  lemma AppendedIsWellFormed(hash: Name -> u64, d: Dir, e: Entry, d': Dir)
    requires WellFormedDir(hash, d) && Appended(hash, d, e, d')
    ensures WellFormedDir(hash, d')
  {
    hide Records, DirRecords, WellFormedBlock, CanHold;
  }

  /** A complete index, told of the new entry, fits exactly if scans see that entry. */
  lemma IndexAfterCreate(hash: Name -> u64, ix: Index, d: Dir, e: Entry, d': Dir)
    requires IndexFits(ix, d) && Appended(hash, d, e, d') && Scan(d, e.name).None?
    ensures IndexFits(ix.(stored := ix.stored[e.name := e.inode]), d') <==> CanHold(d, |e.name|)
  {
    hide Scan, CanHold, AllWellFormed, UniqueNames;
    var ix' := ix.(stored := ix.stored[e.name := e.inode]);
    if !CanHold(d, |e.name|) {
      assert Scan(d', e.name) == Scan(d, e.name) by { SameScan(d, d', e.name); }
      assert e.name in ix'.stored;
    }
  }

  lemma SameScan(d: Dir, d': Dir, n: Name)
    requires Visible(d') == Visible(d)
    ensures Scan(d', n) == Scan(d, n)
  {
  }

  type Dirs = map<nat, Dir>

  type Cache = map<nat, Index>

  ghost predicate AllDirs(hash: Name -> u64, dirs: Dirs) {
    forall id :: id in dirs ==> WellFormedDir(hash, dirs[id])
  }

  ghost predicate Agrees(dirs: Dirs, cache: Cache) {
    forall id :: id in cache ==> id in dirs && IndexFits(cache[id], dirs[id])
  }

  lemma SetIndex(dirs: Dirs, cache: Cache, id: nat, ix: Index)
    requires Agrees(dirs, cache) && id in dirs && IndexFits(ix, dirs[id])
    ensures Agrees(dirs, cache[id := ix])
  {
    hide IndexFits;
  }

  lemma SetDir(hash: Name -> u64, dirs: Dirs, cache: Cache, id: nat, d: Dir)
    requires AllDirs(hash, dirs) && Agrees(dirs, cache) && WellFormedDir(hash, d)
    ensures AllDirs(hash, dirs[id := d])
    ensures Agrees(dirs[id := d], cache) <==> id !in cache || IndexFits(cache[id], d)
  {
    hide IndexFits, WellFormedDir;
    if id in cache && IndexFits(cache[id], d) {
      assert forall j :: j in cache ==> j in dirs[id := d] && IndexFits(cache[j], dirs[id := d][j]);
    }
  }

  /** A directory and its index change together. */
  lemma SetBoth(hash: Name -> u64, dirs: Dirs, cache: Cache, id: nat, d: Dir, ix: Index)
    requires AllDirs(hash, dirs) && Agrees(dirs, cache) && WellFormedDir(hash, d)
    ensures AllDirs(hash, dirs[id := d])
    ensures Agrees(dirs[id := d], cache[id := ix]) <==> IndexFits(ix, d)
  {
    hide IndexFits, WellFormedDir;
    var dirs', cache' := dirs[id := d], cache[id := ix];
    if Agrees(dirs', cache') { assert id in cache' && IndexFits(cache'[id], dirs'[id]); }
  }

  lemma Forget(hash: Name -> u64, dirs: Dirs, cache: Cache, id: nat)
    requires AllDirs(hash, dirs) && Agrees(dirs, cache)
    ensures AllDirs(hash, dirs - {id}) && Agrees(dirs - {id}, cache - {id})
  {
    hide IndexFits, WellFormedDir;
  }

  lemma Known(dirs: Dirs, cache: Cache, id: nat)
    requires Agrees(dirs, cache) && id in cache
    ensures id in dirs && IndexFits(cache[id], dirs[id])
  {
  }

  /** The test `delete_file` makes before it removes a directory: the first block holds entries. */
  predicate SeemsFull(d: Dir) {
    |d| > 0 && Records(d[0], 0) != []
  }

  /** It tells a directory with entries from one without exactly if no entry lies behind an empty first
      block. */
  lemma FirstBlockDecides(d: Dir)
    ensures (SeemsFull(d) <==> exists n :: Scan(d, n).Some?) <==>
            !(|d| > 0 && Records(d[0], 0) == [] && DirRecords(Visible(d)[1..]) != [])
  {
    hide Find, Records;
    var es := DirRecords(Visible(d));
    if es != [] {
      assert Scan(d, es[0].name).Some? by { FindHead(es[0], es[1..], es[0].name); assert [es[0]] + es[1..] == es; }
    } else {
      forall n ensures Scan(d, n).None? { FindNone(es, n); }
    }
    if |d| > 0 {
      assert Visible(d)[0] == d[0];
      assert es == Records(d[0], 0) + DirRecords(Visible(d)[1..]);
    }
  }

  /** A directory whose first block was emptied and whose second one holds an entry passes for empty. */
  lemma OrphansPossible(hash: Name -> u64)
    ensures ValidNames([Entry(5, 0, [97])]) && |EncodeAll([Entry(5, 0, [97])])| <= BLOCK_SIZE
    ensures var d := [Zeros(BLOCK_SIZE), BlockOf([Entry(5, 0, [97])])];
            WellFormedDir(hash, d) && !SeemsFull(d) && Scan(d, [97]) == Some(5)
  {
    hide Records, EndOfRecords, WellFormedBlock, Encode;
    var es := [Entry(5, 0, [97])];
    assert EncodeAll(es) == Encode(es[0]) by { assert es[1..] == []; assert Encode(es[0]) + [] == Encode(es[0]); }
    BlockOfIsWellFormed(hash, es);
    ZeroBlock(hash, []);
    var d := [Zeros(BLOCK_SIZE), BlockOf(es)];
    assert d == [Zeros(BLOCK_SIZE)] + [BlockOf(es)];
    DirRecordsConcat([Zeros(BLOCK_SIZE)], [BlockOf(es)]);
    DirRecordsOne(Zeros(BLOCK_SIZE));
    DirRecordsOne(BlockOf(es));
    assert DirRecords(Visible(d)) == es;
  }

  /** The directories of an image, each with its blocks, the inode ids in use, and the index cache. */
  class DirStore {
    const hash: Name -> u64
    var dirs: Dirs
    var inUse: set<nat>
    var cache: Cache

    ghost predicate Valid()
      reads this
    {
      AllDirs(hash, dirs) && Agrees(dirs, cache)
    }

    /** A mounted image starts without an index. */
    constructor (hash: Name -> u64, dirs: Dirs, inUse: set<nat>)
      requires AllDirs(hash, dirs)
      ensures Valid() && this.hash == hash && this.dirs == dirs && this.inUse == inUse && cache == map[]
    {
      this.hash, this.dirs, this.inUse, cache := hash, dirs, inUse, map[];
    }

    /** `dir_lookup` answers as a scan of the directory would, and changes nothing but the index. */
    method Lookup(parent: nat, name: Name) returns (r: Answer)
      requires Valid()
      modifies this`cache
      ensures Valid()
      ensures r == if parent !in dirs then NotADirectory
                   else match Scan(dirs[parent], name) case Some(id) => Present(id) case None => Absent
      ensures r.Absent? ==> parent in cache && cache[parent].complete
      ensures r.Present? ==> parent in cache && name in cache[parent].stored
      ensures cache.Keys == if parent in dirs then old(cache).Keys + {parent} else old(cache).Keys
      ensures forall d :: d in old(cache) && (d != parent || old(cache[d]).complete) ==> cache[d] == old(cache[d])
    {
      hide Scan, Find, Agrees;
      if parent in cache {
        Known(dirs, cache, parent);
        var ix := cache[parent];
        if name in ix.stored {
          return Present(ix.stored[name]);
        }
        if ix.complete {
          return Absent;
        }
      }
      if parent !in dirs {
        return NotADirectory;
      }
      var d := dirs[parent];
      var found, ix := Learn(d, name, if parent in cache then cache[parent] else Index(map[], false, 0));
      SetIndex(dirs, cache, parent, ix);
      cache := cache[parent := ix];
      return if found.Some? then Present(found.value) else Absent;
    }

    /** The targeted scan, and what it does to an index that is not complete. */
    method Learn(d: Dir, name: Name, was: Index) returns (found: Option<u64>, ix: Index)
      requires WellFormedDir(hash, d) && IndexFits(was, d)
      ensures found == Scan(d, name) && IndexFits(ix, d)
      ensures ix.coldScans == was.coldScans + 1
      ensures ix.complete <==> was.complete || found.None? || ix.coldScans >= DIR_INDEX_BUILD_AFTER_SCANS
      ensures !ix.complete ==> found.Some? && ix.stored == was.stored[name := found.value]
    {
      hide Scan, Find, WellFormedDir, IndexFits, IsMapOf;
      DirIsWellFormed(hash, d);
      var place := Locate(hash, d, name);
      found := if place.Some? then Some(place.value.0) else None;
      ix := was.(coldScans := was.coldScans + 1);
      SameEntries(was, ix, d);
      if !ix.complete && (found.None? || ix.coldScans >= DIR_INDEX_BUILD_AFTER_SCANS) {
        var m := BuildIndex(hash, d);
        ix := ix.(stored := m.value, complete := true);
        BuiltFits(ix, d);
      }
      if found.Some? {
        LearnedFits(ix, d, name, found.value);
        ix := ix.(stored := ix.stored[name := found.value]);
      }
    }

    /** `list_dir`, as the set of names with their inodes. */
    method List(dir: nat) returns (r: Option<map<Name, u64>>)
      requires Valid()
      modifies this`cache
      ensures Valid()
      ensures r.Some? <==> dir in dirs
      ensures r.Some? ==> forall n :: Scan(dirs[dir], n) == if n in r.value then Some(r.value[n]) else None
    {
      hide Scan, Find, DirRecords, Agrees, UniqueNames;
      if dir !in dirs {
        return None;
      }
      if dir in cache {
        Known(dirs, cache, dir);
      }
      if dir in cache && cache[dir].complete {
        return Some(cache[dir].stored);
      }
      var d := dirs[dir];
      DirIsWellFormed(hash, d);
      var es := ReadAll(hash, d);
      var m := IndexLast(es.value);
      MapFits(m, d);
      var ix := if dir in cache then cache[dir] else Index(map[], false, 0);
      ix := ix.(stored := m, complete := true);
      SetIndex(dirs, cache, dir, ix);
      cache := cache[dir := ix];
      return Some(m);
    }

    /** `create_entry_internal`. `id` is the inode the allocator found, if any; `blockOk` and `grow` say
        whether a block can be had for a new directory and for a grown parent. The index stays in
        agreement exactly if the entry lands where scans see it. */
    method Create(parent: nat, name: Name, isDir: bool, id: Option<u64>, blockOk: bool, grow: bool) returns (r: Outcome)
      requires Valid() && (id.Some? ==> id.value !in dirs)
      modifies this
      ensures r.InvalidName? <==> !ValidName(name)
      ensures r.NotDirectory? <==> ValidName(name) && parent !in old(dirs)
      ensures r.Exists? <==> ValidName(name) && parent in old(dirs) && Scan(old(dirs[parent]), name).Some?
      ensures r.Done? <==>
                && ValidName(name) && parent in old(dirs) && Scan(old(dirs[parent]), name).None?
                && id.Some? && (isDir ==> blockOk) && (grow || HasRoom(old(dirs[parent]), |name|))
      ensures r.NoSpace? || r.InvalidName? || r.NotDirectory? || r.Exists? || r.Done?
      ensures AllDirs(hash, dirs)
      ensures !r.Done? ==> Valid()
      ensures !r.Done? ==> forall d :: d in old(dirs) ==> d in dirs && dirs[d] == old(dirs[d])
      ensures r.Done? ==>
                && parent in dirs
                && Appended(hash, old(dirs[parent]), Entry(id.value, hash(name), name), dirs[parent])
                && Grown(old(dirs[parent]), Entry(id.value, hash(name), name), dirs[parent])
                && (Valid() <==> CanHold(old(dirs[parent]), |name|))
      ensures forall d :: d in old(dirs) && d != parent ==> d in dirs && dirs[d] == old(dirs[d])
      ensures if isDir && id.Some? && id.value in dirs
              then dirs.Keys == old(dirs).Keys + {id.value as nat} && dirs[id.value] == [Zeros(BLOCK_SIZE)]
              else dirs.Keys == old(dirs).Keys
      ensures id.Some? ==> (id.value in dirs <==> isDir && blockOk && (r.Done? || r.NoSpace?))
      ensures !r.Done? && !r.NoSpace? ==> dirs == old(dirs)
      ensures inUse == if (r.Done? || r.NoSpace?) && id.Some? then old(inUse) + {id.value as nat} else old(inUse)
    {
      hide Scan, WellFormedDir, Find, DirRecords, Appended, CanHold, ValidName, IndexFits, Agrees, AllDirs, Grown,
           HasRoom;
      if !ValidName(name) {
        return InvalidName;
      }
      if parent !in dirs {
        return NotDirectory;
      }
      var seen := Lookup(parent, name);
      if seen.Present? {
        return Exists;
      }
      seen := Lookup(parent, name);
      if seen.Present? {
        return Exists;
      }
      if id.None? {
        return NoSpace;
      }
      inUse := inUse + {id.value as nat};
      if isDir {
        if !blockOk {
          return NoSpace;
        }
        NewDir(hash);
        NotCached(dirs, cache, id.value);
        SetDir(hash, dirs, cache, id.value, [Zeros(BLOCK_SIZE)]);
        dirs := dirs[id.value := [Zeros(BLOCK_SIZE)]];
      }
      r := Link(parent, Entry(id.value, hash(name), name), grow);
    }

    /** The second half of a creation: the entry goes into the parent and its index. */
    method Link(parent: nat, e: Entry, grow: bool) returns (r: Outcome)
      requires Valid() && parent in dirs && parent in cache && ValidName(e.name) && e.hash == hash(e.name)
      requires Scan(dirs[parent], e.name).None?
      modifies this
      ensures AllDirs(hash, dirs)
      ensures r == NoSpace || r == Done
      ensures r == Done <==> grow || HasRoom(old(dirs[parent]), |e.name|)
      ensures inUse == old(inUse)
      ensures r == NoSpace ==> Valid() && dirs == old(dirs)
      ensures r == Done ==>
                && dirs.Keys == old(dirs).Keys && Appended(hash, old(dirs[parent]), e, dirs[parent])
                && Grown(old(dirs[parent]), e, dirs[parent])
                && (forall d :: d in dirs && d != parent ==> dirs[d] == old(dirs[d]))
                && (Valid() <==> CanHold(old(dirs[parent]), |e.name|))
    {
      hide Scan, WellFormedDir, Find, DirRecords, Appended, CanHold, ValidName, IndexFits, Agrees, Grown, HasRoom;
      var d := dirs[parent];
      var d' := AppendToDir(hash, d, e, grow);
      if d'.None? {
        return NoSpace;
      }
      AppendedIsWellFormed(hash, d, e, d'.value);
      Known(dirs, cache, parent);
      var ix := cache[parent];
      IndexAfterCreate(hash, ix, d, e, d'.value);
      SetBoth(hash, dirs, cache, parent, d'.value, ix.(stored := ix.stored[e.name := e.inode]));
      dirs := dirs[parent := d'.value];
      cache := cache[parent := ix.(stored := ix.stored[e.name := e.inode])];
      return Done;
    }

    /** `delete_file`: unlinks the entry and forgets the target, unless it is a directory whose first block
        still holds entries. */
    method Delete(parent: nat, name: Name) returns (r: Outcome)
      requires Valid()
      modifies this
      ensures Valid()
      ensures !r.Done? ==> dirs == old(dirs) && cache == old(cache) && inUse == old(inUse)
      ensures r.NotDirectory? <==> parent !in old(dirs)
      ensures r.NotFound? <==> parent in old(dirs) && Scan(old(dirs[parent]), name).None?
      ensures r.NotEmpty? <==>
                && parent in old(dirs) && Scan(old(dirs[parent]), name).Some?
                && var target := Scan(old(dirs[parent]), name).value;
                target in old(dirs) && SeemsFull(old(dirs[target]))
      ensures r.Done? || r.NotDirectory? || r.NotFound? || r.NotEmpty?
      ensures r.Done? ==>
                && parent in old(dirs) && Scan(old(dirs[parent]), name).Some?
                && var target := Scan(old(dirs[parent]), name).value;
                && dirs.Keys == old(dirs).Keys - {target as nat} && inUse == old(inUse) - {target as nat}
                && (parent in dirs ==>
                      && Removed(old(dirs[parent]), name, dirs[parent])
                      && forall n :: Scan(dirs[parent], n) == if n == name then None else Scan(old(dirs[parent]), n))
                && (forall d :: d in dirs && d != parent ==> dirs[d] == old(dirs[d]))
    {
      hide Scan, WellFormedDir, Find, DirRecords, IndexFits, Agrees, Records, WellFormedBlock, Removed, Items;
      if parent !in dirs {
        return NotDirectory;
      }
      var d := dirs[parent];
      DirIsWellFormed(hash, d);
      var found := Locate(hash, d, name);
      if found.None? {
        return NotFound;
      }
      var (target, i) := found.value;
      if target in dirs && |dirs[target]| > 0 {
        DirIsWellFormed(hash, dirs[target]);
        ItemsOfBlock(hash, dirs[target][0]);
        var inner := ReadEntries(dirs[target][0]);
        if inner.value != [] {
          return NotEmpty;
        }
      }
      Drop(parent, i, name, target);
      return Done;
    }

    /** The second half of a deletion: the entry leaves the parent and its index, and the target goes. */
    method Drop(parent: nat, i: nat, name: Name, target: u64)
      requires Valid() && parent in dirs && i < |Visible(dirs[parent])| && Find(Records(dirs[parent][i], 0), name).Some?
      modifies this
      ensures Valid()
      ensures dirs.Keys == old(dirs).Keys - {target as nat} && inUse == old(inUse) - {target as nat}
      ensures parent in dirs ==>
                && Removed(old(dirs[parent]), name, dirs[parent])
                && forall n :: Scan(dirs[parent], n) == if n == name then None else Scan(old(dirs[parent]), n)
      ensures forall d :: d in dirs && d != parent ==> dirs[d] == old(dirs[d])
    {
      hide Scan, WellFormedDir, Find, DirRecords, IndexFits, Agrees, Records, Removed;
      var d := dirs[parent];
      var d' := Unlink(d, i, name);
      if parent in cache {
        Known(dirs, cache, parent);
        var ix := cache[parent];
        IndexAfterDelete(ix, d, d', name);
        SetBoth(hash, dirs, cache, parent, d', ix.(stored := ix.stored - {name}));
        cache := cache[parent := ix.(stored := ix.stored - {name})];
      } else {
        SetDir(hash, dirs, cache, parent, d');
      }
      dirs := dirs[parent := d'];
      Forget(hash, dirs, cache, target);
      cache := cache - {target as nat};
      dirs := dirs - {target as nat};
      inUse := inUse - {target as nat};
    }

    /** Rewrites block `i` without the entry. */
    method Unlink(d: Dir, i: nat, name: Name) returns (d': Dir)
      requires WellFormedDir(hash, d) && i < |Visible(d)| && Find(Records(d[i], 0), name).Some?
      ensures WellFormedDir(hash, d') && Removed(d, name, d')
      ensures forall n :: Scan(d', n) == if n == name then None else Scan(d, n)
    {
      hide Scan, WellFormedDir, Find, DirRecords, Others, Fitting, Records, WellFormedBlock, Items;
      DirIsWellFormed(hash, d);
      ItemsOfBlock(hash, d[i]);
      var es := ReadEntries(d[i]);
      var rest := KeepOthers(es.value, name);
      RestFits(hash, d, i, name);
      var b := RewriteBlock(hash, rest);
      RemovedEntry(hash, d, i, b, name);
      d' := d[i := b];
    }
  }

  /** One block with an entry of that name lost it. */
  ghost predicate Removed(d: Dir, name: Name, d': Dir) {
    exists i, b {:trigger d[i := b]} ::
      && 0 <= i < |Visible(d)| && d' == d[i := b]
      && Find(Records(d[i], 0), name).Some? && Records(b, 0) == Others(Records(d[i], 0), name)
  }

  lemma NotCached(dirs: Dirs, cache: Cache, id: nat)
    requires Agrees(dirs, cache) && id !in dirs
    ensures id !in cache
  {
  }

  lemma DirIsWellFormed(hash: Name -> u64, d: Dir)
    requires WellFormedDir(hash, d)
    ensures AllWellFormed(hash, d) && UniqueNames(DirRecords(Visible(d)))
    ensures forall i :: 0 <= i < |d| ==> WellFormedBlock(hash, d[i])
  {
  }

  lemma MapFits(m: map<Name, u64>, d: Dir)
    requires IsMapOf(m, DirRecords(Visible(d)))
    ensures forall n :: n in m ==> Scan(d, n) == Some(m[n])
    ensures forall n :: Scan(d, n).Some? ==> n in m
  {
    hide Find, DirRecords;
  }

  lemma SameEntries(a: Index, b: Index, d: Dir)
    requires IndexFits(a, d) && b.stored == a.stored && b.complete == a.complete
    ensures IndexFits(b, d)
  {
    hide Scan;
  }

  lemma BuiltFits(ix: Index, d: Dir)
    requires IsMapOf(ix.stored, DirRecords(Visible(d)))
    ensures IndexFits(ix, d)
  {
    hide Scan;
    MapFits(ix.stored, d);
  }

  lemma LearnedFits(ix: Index, d: Dir, name: Name, id: u64)
    requires IndexFits(ix, d) && Scan(d, name) == Some(id)
    ensures IndexFits(ix.(stored := ix.stored[name := id]), d)
  {
    hide Scan;
  }

  lemma RestFits(hash: Name -> u64, d: Dir, i: nat, name: Name)
    requires WellFormedDir(hash, d) && i < |d|
    ensures Fitting(hash, Others(Records(d[i], 0), name))
  {
    hide Records, DirRecords, Others, EndOfRecords, Fitting;
    WellFormedEnd(hash, d[i]);
    OthersFit(hash, Records(d[i], 0), name);
  }

  lemma RemovedEntry(hash: Name -> u64, d: Dir, i: nat, b: seq<byte>, name: Name)
    requires WellFormedDir(hash, d) && i < |Visible(d)| && Find(Records(d[i], 0), name).Some?
    requires WellFormedBlock(hash, b) && Records(b, 0) == Others(Records(d[i], 0), name)
    ensures WellFormedDir(hash, d[i := b])
    ensures forall n :: Scan(d[i := b], n) == if n == name then None else Scan(d, n)
  {
    hide Records, DirRecords, Find, Others, UniqueNames, WellFormedBlock;
    BlockLost(Visible(d), i, b, name);
    assert Visible(d[i := b]) == Visible(d)[i := b];
    forall n ensures Scan(d[i := b], n) == if n == name then None else Scan(d, n) {
      assert Scan(d[i := b], n) == Find(DirRecords(Visible(d)[i := b]), n);
      assert Scan(d, n) == Find(DirRecords(Visible(d)), n);
    }
  }

  lemma IndexAfterDelete(ix: Index, d: Dir, d': Dir, name: Name)
    requires IndexFits(ix, d) && forall n :: Scan(d', n) == if n == name then None else Scan(d, n)
    ensures IndexFits(ix.(stored := ix.stored - {name}), d')
  {
    hide Scan;
  }
}
