/** Directory blocks (src/directory.rs): the entry codec and the scans over a raw block. */
module Directory {
  import opened Sizes
  import opened Bytes
  import opened LastWins

  const HEADER := 18
  const MAX_FILENAME_LEN := 255

  /** File names are byte strings. */
  type Name = seq<byte>

  datatype Entry = Entry(inode: u64, hash: u64, name: Name)

  predicate ValidName(n: Name): (r: bool)
    ensures r ==> 0 < |n| <= MAX_FILENAME_LEN
  {
    && 0 < |n| <= MAX_FILENAME_LEN
    && n != [46] && n != [46, 46]
    && 47 !in n && 92 !in n && 0 !in n
  }

  // ---------------------------------------------------------------------------
  // The codec
  // ---------------------------------------------------------------------------

  /** The bytes of an entry whose name has been validated. */
  function Encode(e: Entry): (s: seq<byte>)
    requires |e.name| <= MAX_FILENAME_LEN
    ensures |s| == HEADER + |e.name|
  {
    LE64(e.inode) + LE64(e.hash) + LE16(|e.name|) + e.name
  }

  predicate ValidNames(es: seq<Entry>) {
    forall i :: 0 <= i < |es| ==> ValidName(es[i].name)
  }

  function EncodeAll(es: seq<Entry>): seq<byte>
    requires ValidNames(es)
  {
    if es == [] then [] else Encode(es[0]) + EncodeAll(es[1..])
  }

  /** Length field of the record at `off`. */
  function NameLen(b: seq<byte>, off: nat): u16
    requires off + HEADER <= |b|
  {
    From16(b[off + 16..off + 18])
  }

  /** The scans go on as long as a whole record with a name is there. */
  predicate HasRecord(b: seq<byte>, off: nat) {
    off + HEADER <= |b| && NameLen(b, off) != 0 && off + HEADER + NameLen(b, off) <= |b|
  }

  function RecordAt(b: seq<byte>, off: nat): (e: Entry)
    requires HasRecord(b, off)
    ensures |e.name| == NameLen(b, off)
  {
    Entry(From64(b[off..off + 8]), From64(b[off + 8..off + 16]), b[off + HEADER..off + HEADER + NameLen(b, off)])
  }

  function NextRecord(b: seq<byte>, off: nat): (n: nat)
    requires HasRecord(b, off)
    ensures off < n <= |b|
  {
    off + HEADER + NameLen(b, off)
  }

  /** The records a raw scan sees from `off` on, and where it stops. */
  function Records(b: seq<byte>, off: nat): seq<Entry>
    decreases |b| - off
  {
    if HasRecord(b, off) then [RecordAt(b, off)] + Records(b, NextRecord(b, off)) else []
  }

  function EndOfRecords(b: seq<byte>, off: nat): nat
    decreases |b| - off
  {
    if HasRecord(b, off) then EndOfRecords(b, NextRecord(b, off)) else off
  }

  lemma EncodedFields(e: Entry, pre: seq<byte>, post: seq<byte>)
    requires ValidName(e.name)
    ensures var b := pre + Encode(e) + post;
            HasRecord(b, |pre|) && RecordAt(b, |pre|) == e && NextRecord(b, |pre|) == |pre + Encode(e)|
  {
    hide LE, From16, From64;
    var b := pre + Encode(e) + post;
    var off := |pre|;
    assert b[off..off + 8] == LE64(e.inode);
    assert b[off + 8..off + 16] == LE64(e.hash);
    assert b[off + 16..off + 18] == LE16(|e.name|);
    assert b[off + 18..off + 18 + |e.name|] == e.name;
    RoundTrip64(e.inode);
    RoundTrip64(e.hash);
    RoundTrip16(|e.name|);
  }

  lemma NoRecordInZeros(pre: seq<byte>, k: nat)
    ensures !HasRecord(pre + Zeros(k), |pre|)
  {
    var b := pre + Zeros(k);
    if |pre| + HEADER <= |b| {
      assert b[|pre| + 16..|pre| + 18] == Zeros(2);
      ZeroLength();
    }
  }

  lemma ZeroLength()
    ensures From16(Zeros(2)) == 0
  {
    RoundTrip16(0);
    ZeroLE(2);
  }

  /** A block of encoded entries followed by zeros scans back to those entries. */
  lemma {:induction false} ScanEncoded(pre: seq<byte>, es: seq<Entry>, k: nat)
    requires ValidNames(es)
    ensures var b := pre + EncodeAll(es) + Zeros(k);
            Records(b, |pre|) == es && EndOfRecords(b, |pre|) == |pre| + |EncodeAll(es)|
    decreases |es|
  {
    hide Encode, HasRecord, RecordAt, NextRecord;
    var b := pre + EncodeAll(es) + Zeros(k);
    if es == [] {
      assert b == pre + Zeros(k);
      NoRecordInZeros(pre, k);
    } else {
      var pre' := pre + Encode(es[0]);
      assert b == pre' + EncodeAll(es[1..]) + Zeros(k);
      assert b == pre + Encode(es[0]) + (EncodeAll(es[1..]) + Zeros(k));
      EncodedFields(es[0], pre, EncodeAll(es[1..]) + Zeros(k));
      ScanEncoded(pre', es[1..], k);
    }
  }

  lemma {:induction false} EncodeAllConcat(a: seq<Entry>, c: seq<Entry>)
    requires ValidNames(a) && ValidNames(c)
    ensures ValidNames(a + c) && EncodeAll(a + c) == EncodeAll(a) + EncodeAll(c)
    decreases |a|
  {
    hide Encode, ValidName;
    if a == [] {
      assert a + c == c;
    } else {
      assert (a + c)[1..] == a[1..] + c;
      EncodeAllConcat(a[1..], c);
      Joined(Encode(a[0]), EncodeAll(a[1..]), EncodeAll(c));
    }
  }

  lemma Joined(a: seq<byte>, b: seq<byte>, c: seq<byte>)
    ensures a + (b + c) == (a + b) + c
  {
  }

  // ---------------------------------------------------------------------------
  // Well-formed blocks
  // ---------------------------------------------------------------------------

  /** Stored hashes are 0 (unknown) or the hash of the name. */
  ghost predicate HashesFit(hash: Name -> u64, es: seq<Entry>) {
    forall i :: 0 <= i < |es| ==> es[i].hash == 0 || es[i].hash == hash(es[i].name)
  }

  /** Encoded entries, then zeros. */
  ghost predicate WellFormedBlock(hash: Name -> u64, b: seq<byte>) {
    var es := Records(b, 0);
    && |b| == BLOCK_SIZE && ValidNames(es) && HashesFit(hash, es)
    && |EncodeAll(es)| <= BLOCK_SIZE && b == EncodeAll(es) + Zeros(BLOCK_SIZE - |EncodeAll(es)|)
  }

  ghost predicate Fitting(hash: Name -> u64, es: seq<Entry>) {
    ValidNames(es) && HashesFit(hash, es) && |EncodeAll(es)| <= BLOCK_SIZE
  }

  function BlockOf(es: seq<Entry>): (b: seq<byte>)
    requires ValidNames(es) && |EncodeAll(es)| <= BLOCK_SIZE
    ensures |b| == BLOCK_SIZE
  {
    EncodeAll(es) + Zeros(BLOCK_SIZE - |EncodeAll(es)|)
  }

  lemma BlockOfIsWellFormed(hash: Name -> u64, es: seq<Entry>)
    requires Fitting(hash, es)
    ensures Records(BlockOf(es), 0) == es && EndOfRecords(BlockOf(es), 0) == |EncodeAll(es)|
    ensures WellFormedBlock(hash, BlockOf(es))
  {
    hide Records, EndOfRecords, EncodeAll;
    assert [] + EncodeAll(es) + Zeros(BLOCK_SIZE - |EncodeAll(es)|) == BlockOf(es);
    ScanEncoded([], es, BLOCK_SIZE - |EncodeAll(es)|);
  }

  /** A well-formed block is determined by its entries. */
  lemma WellFormedEnd(hash: Name -> u64, b: seq<byte>)
    requires WellFormedBlock(hash, b)
    ensures Fitting(hash, Records(b, 0)) && b == BlockOf(Records(b, 0))
    ensures EndOfRecords(b, 0) == |EncodeAll(Records(b, 0))|
  {
    hide Records, EndOfRecords, EncodeAll;
    BlockOfIsWellFormed(hash, Records(b, 0));
  }

  /** Writing one more entry behind the last keeps a block well-formed. */
  lemma AppendEntry(hash: Name -> u64, b: seq<byte>, e: Entry)
    requires WellFormedBlock(hash, b) && ValidName(e.name) && (e.hash == 0 || e.hash == hash(e.name))
    requires EndOfRecords(b, 0) + |Encode(e)| <= BLOCK_SIZE
    ensures var off := EndOfRecords(b, 0); var b' := b[..off] + Encode(e) + b[off + |Encode(e)|..];
            WellFormedBlock(hash, b') && Records(b', 0) == Records(b, 0) + [e]
  {
    hide Records, EndOfRecords, Encode;
    WellFormedEnd(hash, b);
    var es := Records(b, 0);
    EncodeAllConcat(es, [e]);
    assert EncodeAll([e]) == Encode(e) by { assert [e][1..] == []; assert Encode(e) + [] == Encode(e); }
    BlockOfIsWellFormed(hash, es + [e]);
    var off := EndOfRecords(b, 0);
    assert b[..off] == EncodeAll(es);
    assert b[off + |Encode(e)|..] == Zeros(BLOCK_SIZE - |EncodeAll(es + [e])|);
    assert b[..off] + Encode(e) + b[off + |Encode(e)|..] == BlockOf(es + [e]);
  }

  // ---------------------------------------------------------------------------
  // Finding a name
  // ---------------------------------------------------------------------------

  /** The inode of the first entry called `name`. */
  function Find(es: seq<Entry>, name: Name): Option<u64> {
    if es == [] then None else if es[0].name == name then Some(es[0].inode) else Find(es[1..], name)
  }

  lemma {:induction false} FindConcat(a: seq<Entry>, c: seq<Entry>, name: Name)
    ensures Find(a + c, name) == if Find(a, name).Some? then Find(a, name) else Find(c, name)
    decreases |a|
  {
    if a == [] {
      assert a + c == c;
    } else {
      assert (a + c)[1..] == a[1..] + c;
      FindConcat(a[1..], c, name);
    }
  }

  /** `find_entry_in_block_with_hash`: the hash filter never hides an entry of a well-formed block. */
  method FindInBlock(hash: Name -> u64, b: seq<byte>, name: Name) returns (r: Option<u64>)
    requires WellFormedBlock(hash, b)
    ensures r == Find(Records(b, 0), name)
  {
    hide RecordAt, NextRecord, WellFormedBlock;
    assert HashesFit(hash, Records(b, 0)) by { WellFormedEnd(hash, b); }
    var target := hash(name);
    var off := 0;
    while HasRecord(b, off)
      invariant off <= |b| && HashesFit(hash, Records(b, off))
      invariant Find(Records(b, 0), name) == Find(Records(b, off), name)
      decreases |b| - off
    {
      var e := RecordAt(b, off);
      assert Records(b, off)[0] == e && Records(b, off)[1..] == Records(b, NextRecord(b, off));
      if (e.hash == 0 || target == 0 || e.hash == target) && e.name == name {
        return Some(e.inode);
      }
      off := NextRecord(b, off);
    }
    return None;
  }

  /** `find_insert_offset_in_block`. */
  method FindInsertOffset(b: seq<byte>) returns (off: nat)
    ensures off == EndOfRecords(b, 0)
  {
    off := 0;
    while HasRecord(b, off)
      invariant off <= |b| && EndOfRecords(b, 0) == EndOfRecords(b, off)
      decreases |b| - off
    {
      off := NextRecord(b, off);
    }
  }

  // ---------------------------------------------------------------------------
  // The strict iterator
  // ---------------------------------------------------------------------------

  datatype Item = End | Bad | Good(entry: Entry, next: nat)

  /** `DirectoryIterator::next`: short input and a zero length end the list, anything else that is not
      a valid record is an error. */
  function NextItem(b: seq<byte>, off: nat): (i: Item)
    ensures i.Good? ==> off < i.next <= |b|
  {
    if off + HEADER > |b| || NameLen(b, off) == 0 then End
    else if NameLen(b, off) > MAX_FILENAME_LEN || off + HEADER + NameLen(b, off) > |b| then Bad
    else if ValidName(RecordAt(b, off).name) then Good(RecordAt(b, off), NextRecord(b, off)) else Bad
  }

  /** Every item up to the end of the list, or none at all after an error. */
  function Items(b: seq<byte>, off: nat): Option<seq<Entry>>
    decreases |b| - off
  {
    match NextItem(b, off)
    case End => Some([])
    case Bad => None
    case Good(e, next) => Before([e], Items(b, next))
  }

  function Before(es: seq<Entry>, rest: Option<seq<Entry>>): Option<seq<Entry>> {
    if rest.None? then None else Some(es + rest.value)
  }

  /** `read_dir_entries_from_block`. */
  method ReadEntries(b: seq<byte>) returns (r: Option<seq<Entry>>)
    ensures r == Items(b, 0)
  {
    hide NextItem;
    var es: seq<Entry>, off := [], 0;
    assert Items(b, 0).Some? ==> [] + Items(b, 0).value == Items(b, 0).value;
    while true
      invariant off <= |b| && Items(b, 0) == Before(es, Items(b, off))
      decreases |b| - off
    {
      match NextItem(b, off)
      case End =>
        assert es + [] == es;
        return Some(es);
      case Bad =>
        return None;
      case Good(e, next) =>
        BeforeTwice(es, e, Items(b, next));
        es, off := es + [e], next;
    }
  }

  /** On a well-formed block the strict iterator never fails and agrees with the scans. */
  lemma {:induction false} ItemsAreRecords(hash: Name -> u64, b: seq<byte>, off: nat)
    requires WellFormedBlock(hash, b) && ValidNames(Records(b, off)) && EndOfRecords(b, off) == EndOfRecords(b, 0)
    ensures Items(b, off) == Some(Records(b, off))
    decreases |b| - off
  {
    hide RecordAt, NextRecord, WellFormedBlock, ValidName;
    StrictItem(b, off);
    match NextItem(b, off)
    case End =>
    case Bad => if !NameFits(b, off) { ZeroTailEnds(hash, b, off); }
    case Good(e, next) => ItemsAreRecords(hash, b, next);
  }

  lemma ItemsOfBlock(hash: Name -> u64, b: seq<byte>)
    requires WellFormedBlock(hash, b)
    ensures Items(b, 0) == Some(Records(b, 0))
  {
    hide Records, EndOfRecords, Items;
    WellFormedEnd(hash, b);
    ItemsAreRecords(hash, b, 0);
  }

  lemma BeforeTwice(es: seq<Entry>, e: Entry, rest: Option<seq<Entry>>)
    ensures Before(es, Before([e], rest)) == Before(es + [e], rest)
  {
    if rest.Some? { assert es + ([e] + rest.value) == (es + [e]) + rest.value; }
  }

  lemma StrictItem(b: seq<byte>, off: nat)
    ensures NextItem(b, off).Good? ==>
              && Records(b, off) == [NextItem(b, off).entry] + Records(b, NextItem(b, off).next)
              && (ValidNames(Records(b, off)) ==> ValidNames(Records(b, NextItem(b, off).next)))
    ensures NextItem(b, off).End? ==> Records(b, off) == []
    ensures NextItem(b, off).Bad? && NameFits(b, off) ==> !ValidNames(Records(b, off))
    ensures NextItem(b, off).Good? ==> EndOfRecords(b, off) == EndOfRecords(b, NextItem(b, off).next)
    ensures NextItem(b, off).Bad? && !NameFits(b, off) ==> EndOfRecords(b, off) == off
  {
    if NextItem(b, off).Good? {
      var rest := Records(b, NextItem(b, off).next);
      assert forall i :: 0 <= i < |rest| ==> Records(b, off)[i + 1] == rest[i];
    }
    if NextItem(b, off).Bad? && NameFits(b, off) { assert Records(b, off)[0] == RecordAt(b, off); }
  }

  /** Where the records of a well-formed block end, the length field is zero or missing. */
  lemma ZeroTailEnds(hash: Name -> u64, b: seq<byte>, off: nat)
    requires WellFormedBlock(hash, b) && off == EndOfRecords(b, 0)
    ensures NextItem(b, off).End?
  {
    hide Records, EndOfRecords, EncodeAll, ValidName;
    WellFormedEnd(hash, b);
    if off + HEADER <= |b| {
      assert b[off + 16..off + 18] == Zeros(2);
      ZeroLength();
    }
  }

  predicate NameFits(b: seq<byte>, off: nat) {
    off + HEADER <= |b| && off + HEADER + NameLen(b, off) <= |b|
  }
}
