/** A directory as its list of blocks: the entries it holds, and how they change (src/disk.rs). */
module DirBlocks {
  import opened Bytes
  import opened LastWins
  import opened Directory

  const MAX_DIR_BLOCKS := 65536

  type Dir = seq<seq<byte>>

  /** Scans see at most the first 65536 blocks. */
  function Visible(d: Dir): Dir {
    if |d| <= MAX_DIR_BLOCKS then d else d[..MAX_DIR_BLOCKS]
  }

  function DirRecords(bs: Dir): seq<Entry> {
    if bs == [] then [] else Records(bs[0], 0) + DirRecords(bs[1..])
  }

  /** What a plain scan of the directory finds. */
  function Scan(d: Dir, name: Name): Option<u64> {
    Find(DirRecords(Visible(d)), name)
  }

  ghost predicate UniqueNames(es: seq<Entry>) {
    forall i, j :: 0 <= i < j < |es| ==> es[i].name != es[j].name
  }

  ghost predicate AllWellFormed(hash: Name -> u64, d: Dir) {
    forall i :: 0 <= i < |d| ==> WellFormedBlock(hash, d[i])
  }

  ghost predicate WellFormedDir(hash: Name -> u64, d: Dir) {
    AllWellFormed(hash, d) && UniqueNames(DirRecords(Visible(d)))
  }

  // ---------------------------------------------------------------------------
  // Entry lists
  // ---------------------------------------------------------------------------

  lemma {:induction false} FindNone(es: seq<Entry>, name: Name)
    ensures Find(es, name).None? <==> forall i :: 0 <= i < |es| ==> es[i].name != name
  {
    if es != [] {
      FindNone(es[1..], name);
      assert forall i :: 1 <= i < |es| ==> es[i] == es[1..][i - 1];
    }
  }

  /** One entry more, anywhere, under a name that was free. */
  lemma InsertEntry(a: seq<Entry>, e: Entry, c: seq<Entry>)
    requires UniqueNames(a + c) && Find(a + c, e.name).None?
    ensures UniqueNames(a + [e] + c)
    ensures forall n :: Find(a + [e] + c, n) == if n == e.name then Some(e.inode) else Find(a + c, n)
  {
    hide Find;
    FindNone(a + c, e.name);
    var es := a + [e] + c;
    forall i, j | 0 <= i < j < |es| ensures es[i].name != es[j].name {
      var x, y := (if i < |a| then i else i - 1), (if j < |a| then j else j - 1);
      if i != |a| { assert es[i] == (a + c)[x]; }
      if j != |a| { assert es[j] == (a + c)[y]; }
    }
    forall n ensures Find(es, n) == if n == e.name then Some(e.inode) else Find(a + c, n) { FindInserted(a, e, c, n); }
  }

  lemma FindInserted(a: seq<Entry>, e: Entry, c: seq<Entry>, n: Name)
    ensures n != e.name ==> Find(a + [e] + c, n) == Find(a + c, n)
    ensures Find(a + c, e.name).None? ==> Find(a + [e] + c, e.name) == Some(e.inode)
  {
    hide Find;
    FindConcat(a, [e] + c, n);
    assert a + [e] + c == a + ([e] + c);
    FindConcat(a, c, n);
    FindConcat(a, [e] + c, e.name);
    FindConcat(a, c, e.name);
    FindHead(e, c, n);
    FindHead(e, c, e.name);
  }

  lemma FindHead(e: Entry, c: seq<Entry>, n: Name)
    ensures Find([e] + c, n) == if n == e.name then Some(e.inode) else Find(c, n)
  {
    assert ([e] + c)[1..] == c;
  }

  /** One entry less. */
  lemma DropEntry(a: seq<Entry>, e: Entry, c: seq<Entry>)
    requires UniqueNames(a + [e] + c)
    ensures UniqueNames(a + c)
    ensures forall n :: Find(a + c, n) == if n == e.name then None else Find(a + [e] + c, n)
  {
    hide Find;
    var es := a + [e] + c;
    assert forall i :: 0 <= i < |a + c| ==> (a + c)[i] == es[if i < |a| then i else i + 1];
    assert es[|a|] == e;
    FindNone(a + c, e.name);
    forall n ensures Find(a + c, n) == if n == e.name then None else Find(es, n) { FindInserted(a, e, c, n); }
  }

  function Others(es: seq<Entry>, name: Name): seq<Entry> {
    if es == [] then [] else (if es[0].name == name then [] else [es[0]]) + Others(es[1..], name)
  }

  lemma {:induction false} OthersAll(es: seq<Entry>, name: Name)
    requires forall i :: 0 <= i < |es| ==> es[i].name != name
    ensures Others(es, name) == es
  {
    if es != [] { OthersAll(es[1..], name); }
  }

  /** Filtering out a name that occurs once drops that one entry. */
  lemma {:induction false} OthersDrop(es: seq<Entry>, name: Name) returns (k: nat)
    requires UniqueNames(es) && Find(es, name).Some?
    ensures k < |es| && es[k].name == name && Find(es, name) == Some(es[k].inode)
    ensures Others(es, name) == es[..k] + es[k + 1..]
  {
    if es[0].name == name {
      k := 0;
      OthersAll(es[1..], name);
      assert es[..0] == [];
    } else {
      var j := OthersDrop(es[1..], name);
      k := j + 1;
      ConsDrop(es, j);
    }
  }

  lemma ConsDrop(es: seq<Entry>, j: nat)
    requires j + 1 < |es|
    ensures [es[0]] + (es[1..][..j] + es[1..][j + 1..]) == es[..j + 1] + es[j + 2..]
  {
  }

  // ---------------------------------------------------------------------------
  // Changing one block
  // ---------------------------------------------------------------------------

  lemma {:induction false} DirRecordsConcat(a: Dir, c: Dir)
    ensures DirRecords(a + c) == DirRecords(a) + DirRecords(c)
    decreases |a|
  {
    hide Records;
    if a == [] {
      assert a + c == c;
    } else {
      assert (a + c)[1..] == a[1..] + c;
      DirRecordsConcat(a[1..], c);
    }
  }

  lemma DirRecordsOne(b: seq<byte>)
    ensures DirRecords([b]) == Records(b, 0)
  {
    hide Records;
    assert [b][1..] == [];
    assert Records(b, 0) + [] == Records(b, 0);
  }

  lemma DirRecordsAround(bs: Dir, i: nat)
    requires i < |bs|
    ensures DirRecords(bs) == DirRecords(bs[..i]) + Records(bs[i], 0) + DirRecords(bs[i + 1..])
  {
    hide Records, DirRecords;
    SplitAround(bs, i);
    DirRecordsConcat(bs[..i], [bs[i]] + bs[i + 1..]);
    DirRecordsConcat([bs[i]], bs[i + 1..]);
    DirRecordsOne(bs[i]);
    Assoc(DirRecords(bs[..i]), Records(bs[i], 0), DirRecords(bs[i + 1..]));
  }

  lemma SplitAround(bs: Dir, i: nat)
    requires i < |bs|
    ensures bs == bs[..i] + ([bs[i]] + bs[i + 1..])
  {
  }

  lemma Assoc(a: seq<Entry>, b: seq<Entry>, c: seq<Entry>)
    ensures a + (b + c) == (a + b) + c
  {
  }

  lemma DirRecordsReplaced(bs: Dir, i: nat, b: seq<byte>)
    requires i < |bs|
    ensures DirRecords(bs[i := b]) == DirRecords(bs[..i]) + Records(b, 0) + DirRecords(bs[i + 1..])
  {
    hide Records, DirRecords;
    DirRecordsAround(bs[i := b], i);
    assert bs[i := b][..i] == bs[..i] && bs[i := b][i + 1..] == bs[i + 1..];
  }

  /** A block that gained an entry, seen from the whole directory. */
  lemma BlockGained(bs: Dir, i: nat, b: seq<byte>, e: Entry)
    requires i < |bs| && Records(b, 0) == Records(bs[i], 0) + [e]
    requires UniqueNames(DirRecords(bs)) && Find(DirRecords(bs), e.name).None?
    ensures UniqueNames(DirRecords(bs[i := b]))
    ensures forall n :: Find(DirRecords(bs[i := b]), n) ==
              if n == e.name then Some(e.inode) else Find(DirRecords(bs), n)
  {
    hide Records, DirRecords, Find, UniqueNames;
    DirRecordsAround(bs, i);
    DirRecordsReplaced(bs, i, b);
    var a, c := DirRecords(bs[..i]) + Records(bs[i], 0), DirRecords(bs[i + 1..]);
    assert DirRecords(bs[i := b]) == a + [e] + c;
    InsertEntry(a, e, c);
  }

  /** A block from which a name was filtered. */
  lemma BlockLost(bs: Dir, i: nat, b: seq<byte>, name: Name)
    requires i < |bs| && Find(Records(bs[i], 0), name).Some? && Records(b, 0) == Others(Records(bs[i], 0), name)
    requires UniqueNames(DirRecords(bs))
    ensures UniqueNames(DirRecords(bs[i := b]))
    ensures forall n :: Find(DirRecords(bs[i := b]), n) == if n == name then None else Find(DirRecords(bs), n)
  {
    hide Records, DirRecords, Find, Others, UniqueNames;
    DirRecordsAround(bs, i);
    DirRecordsReplaced(bs, i, b);
    var front, r, back := DirRecords(bs[..i]), Records(bs[i], 0), DirRecords(bs[i + 1..]);
    UniquePart(front, r, back);
    var k := OthersDrop(r, name);
    assert r == r[..k] + [r[k]] + r[k + 1..];
    assert DirRecords(bs) == (front + r[..k]) + [r[k]] + (r[k + 1..] + back);
    assert DirRecords(bs[i := b]) == (front + r[..k]) + (r[k + 1..] + back);
    DropEntry(front + r[..k], r[k], r[k + 1..] + back);
  }

  lemma UniquePart(a: seq<Entry>, b: seq<Entry>, c: seq<Entry>)
    requires UniqueNames(a + b + c)
    ensures UniqueNames(b)
  {
    assert forall i :: 0 <= i < |b| ==> b[i] == (a + b + c)[|a| + i];
  }

  /** One more block with one entry. */
  lemma BlockAdded(bs: Dir, b: seq<byte>, e: Entry)
    requires Records(b, 0) == [e] && UniqueNames(DirRecords(bs)) && Find(DirRecords(bs), e.name).None?
    ensures UniqueNames(DirRecords(bs + [b]))
    ensures forall n :: Find(DirRecords(bs + [b]), n) == if n == e.name then Some(e.inode) else Find(DirRecords(bs), n)
  {
    hide Records, DirRecords, Find, UniqueNames;
    DirRecordsConcat(bs, [b]);
    DirRecordsOne(b);
    var es := DirRecords(bs);
    assert es + [] == es && es + [e] + [] == es + [e];
    InsertEntry(es, e, []);
  }

  /** Filtering keeps a block's entries encodable. */
  lemma {:induction false} OthersFit(hash: Name -> u64, es: seq<Entry>, name: Name)
    requires Fitting(hash, es)
    ensures Fitting(hash, Others(es, name)) && |EncodeAll(Others(es, name))| <= |EncodeAll(es)|
    decreases |es|
  {
    hide ValidName, Encode;
    if es != [] {
      OthersFit(hash, es[1..], name);
      var rest := Others(es[1..], name);
      if es[0].name != name {
        assert Others(es, name)[1..] == rest;
        assert forall i :: 0 <= i < |Others(es, name)| ==> Others(es, name)[i] == if i == 0 then es[0] else rest[i - 1];
      } else {
        assert Others(es, name) == rest;
      }
    }
  }
}
