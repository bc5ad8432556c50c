/** A directory at its block limit: the one case in which the index and the scans come apart. */
module DirLimit {
  import opened Bytes
  import opened Directory
  import opened DirBlocks
  import opened DirCache

  const PER_BLOCK := 14

  /** Names of 255 letters, numbered in base 16. */
  function NameOf(m: nat): (n: Name)
    ensures |n| == MAX_FILENAME_LEN
  {
    [97 + Digit(m, 0), 97 + Digit(m, 1), 97 + Digit(m, 2), 97 + Digit(m, 3), 97 + Digit(m, 4)] + seq(250, _ => 97)
  }

  function Digit(m: nat, k: nat): (r: nat)
    ensures r < 16
  {
    if k == 0 then m % 16 else Digit(m / 16, k - 1)
  }

  lemma NamesDiffer(a: nat, b: nat)
    requires a < Power16(5) && b < Power16(5) && NameOf(a) == NameOf(b)
    ensures a == b
  {
    var x, y := NameOf(a), NameOf(b);
    assert x[0] == y[0] && x[1] == y[1] && x[2] == y[2] && x[3] == y[3] && x[4] == y[4];
    DigitsDecide(a, b, 5);
  }

  function Power16(k: nat): nat {
    if k == 0 then 1 else 16 * Power16(k - 1)
  }

  lemma {:induction false} DigitsDecide(a: nat, b: nat, k: nat)
    requires a < Power16(k) && b < Power16(k) && forall i :: 0 <= i < k ==> Digit(a, i) == Digit(b, i)
    ensures a == b
    decreases k
  {
    if k > 0 {
      assert Digit(a, 0) == Digit(b, 0);
      forall i | 0 <= i < k - 1 ensures Digit(a / 16, i) == Digit(b / 16, i) {
        assert Digit(a, i + 1) == Digit(b, i + 1);
      }
      DigitsDecide(a / 16, b / 16, k - 1);
    }
  }

  function Numbered(from: nat, count: nat): (es: seq<Entry>)
    ensures |es| == count && forall i :: 0 <= i < count ==> es[i] == Entry(0, 0, NameOf(from + i))
  {
    seq(count, i requires 0 <= i => Entry(0, 0, NameOf(from + i)))
  }

  lemma {:induction false} NumberedFit(from: nat, count: nat)
    ensures ValidNames(Numbered(from, count)) && |EncodeAll(Numbered(from, count))| == 273 * count
    decreases count
  {
    hide NameOf, Encode;
    forall i | 0 <= i < count ensures ValidName(Numbered(from, count)[i].name) { NameIsValid(from + i); }
    if count > 0 {
      NumberedFit(from + 1, count - 1);
      assert Numbered(from, count)[1..] == Numbered(from + 1, count - 1);
    }
  }

  lemma NameIsValid(m: nat)
    ensures ValidName(NameOf(m))
  {
    assert forall i :: 0 <= i < MAX_FILENAME_LEN ==> 97 <= NameOf(m)[i] <= 112;
  }

  function FullBlock(k: nat): (b: seq<byte>) {
    NumberedFit(PER_BLOCK * k, PER_BLOCK);
    BlockOf(Numbered(PER_BLOCK * k, PER_BLOCK))
  }

  function FullDir(n: nat): (d: Dir)
    ensures |d| == n && forall i :: 0 <= i < n ==> d[i] == FullBlock(i)
  {
    seq(n, i requires 0 <= i => FullBlock(i))
  }

  lemma FullBlockIs(hash: Name -> u64, k: nat)
    ensures WellFormedBlock(hash, FullBlock(k)) && Records(FullBlock(k), 0) == Numbered(PER_BLOCK * k, PER_BLOCK)
    ensures !RoomIn(FullBlock(k), MAX_FILENAME_LEN)
  {
    hide NameOf, Records, EndOfRecords;
    NumberedFit(PER_BLOCK * k, PER_BLOCK);
    BlockOfIsWellFormed(hash, Numbered(PER_BLOCK * k, PER_BLOCK));
  }

  lemma {:induction false} FullRecords(n: nat)
    ensures DirRecords(FullDir(n)) == Numbered(0, PER_BLOCK * n)
  {
    hide NameOf, Records, FullBlock, DirRecords;
    if n == 0 {
      assert DirRecords([]) == [] by { NothingInNothing(); }
      assert FullDir(0) == [];
    } else {
      FullRecords(n - 1);
      assert FullDir(n) == FullDir(n - 1) + [FullBlock(n - 1)];
      DirRecordsConcat(FullDir(n - 1), [FullBlock(n - 1)]);
      DirRecordsOne(FullBlock(n - 1));
      FullBlockIs(_ => 0, n - 1);
    }
  }

  lemma NothingInNothing()
    ensures DirRecords([]) == []
  {
  }

  /** With 65536 full blocks a directory is well-formed and cannot hold a long name: creating one
      then leaves an index that answers where scans do not. */
  lemma FullDirCannotHold(hash: Name -> u64)
    ensures WellFormedDir(hash, FullDir(MAX_DIR_BLOCKS)) && !CanHold(FullDir(MAX_DIR_BLOCKS), MAX_FILENAME_LEN)
  {
    hide NameOf, FullBlock, Records, RoomIn, WellFormedBlock;
    var d := FullDir(MAX_DIR_BLOCKS);
    forall i | 0 <= i < |d| ensures WellFormedBlock(hash, d[i]) && !RoomIn(d[i], MAX_FILENAME_LEN) {
      FullBlockIs(hash, i);
    }
    FullRecords(MAX_DIR_BLOCKS);
    var es := DirRecords(d);
    forall i, j | 0 <= i < j < |es| ensures es[i].name != es[j].name {
      assert Power16(5) == 1048576;
      if es[i].name == es[j].name { NamesDiffer(i, j); }
    }
  }
}
