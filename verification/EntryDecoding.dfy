/** What the strict directory iterator believes (src/directory.rs): a block is read exactly if encoded
    entries with valid names stand at its start and nothing that looks like an entry follows. */
module EntryDecoding {
  import opened Bytes
  import opened LastWins
  import opened Directory
  import Decoding

  /** The list ends at `n`: no room for another header, or a name length of 0. */
  predicate EndsAt(b: seq<byte>, n: nat) {
    n + 18 > |b| || (b[n + 16] == 0 && b[n + 17] == 0)
  }

  /** The entries stand at `off`, and the list ends behind them. */
  ghost predicate Lists(b: seq<byte>, off: nat, es: seq<Entry>) {
    && ValidNames(es) && off + |EncodeAll(es)| <= |b|
    && b[off..off + |EncodeAll(es)|] == EncodeAll(es) && EndsAt(b, off + |EncodeAll(es)|)
  }

  lemma Field16(s: seq<byte>, v: u16)
    requires |s| == 2
    ensures From16(s) == v <==> s == LE16(v)
  {
    hide FromLE, LE;
    FromLERoundTrip(s);
    RoundTrip16(v);
  }

  lemma EndExactly(b: seq<byte>, off: nat)
    ensures NextItem(b, off).End? <==> EndsAt(b, off)
  {
    hide From16, LE, ValidName, RecordAt, NextRecord;
    if off + 18 <= |b| {
      Field16(b[off + 16..off + 18], 0);
      assert LE16(0) == [0, 0] by { ZeroLE(2); }
      assert b[off + 16..off + 18] == [b[off + 16], b[off + 17]];
    }
  }

  lemma ItemExactly(b: seq<byte>, off: nat, e: Entry, next: nat)
    ensures NextItem(b, off) == Good(e, next) <==>
            ValidName(e.name) && next == off + |Encode(e)| <= |b| && b[off..next] == Encode(e)
  {
    hide From16, From64, LE, ValidName;
    ValidLength(e.name);
    var n := off + 18 + |e.name|;
    if n <= |b| && |e.name| <= MAX_FILENAME_LEN {
      Decoding.Field64(b[off..off + 8], e.inode);
      Decoding.Field64(b[off + 8..off + 16], e.hash);
      Field16(b[off + 16..off + 18], |e.name|);
      FieldsAreEntry(b, off, e);
    }
  }

  lemma ValidLength(n: Name)
    ensures ValidName(n) ==> 0 < |n| <= MAX_FILENAME_LEN
  {
  }

  lemma FieldsAreEntry(b: seq<byte>, off: nat, e: Entry)
    requires |e.name| <= MAX_FILENAME_LEN && off + 18 + |e.name| <= |b|
    ensures b[off..off + 18 + |e.name|] == Encode(e) <==>
            && b[off..off + 8] == LE64(e.inode) && b[off + 8..off + 16] == LE64(e.hash)
            && b[off + 16..off + 18] == LE16(|e.name|) && b[off + 18..off + 18 + |e.name|] == e.name
  {
    hide LE;
    var x, y, z := LE64(e.inode), LE64(e.hash), LE16(|e.name|);
    Apart(b, off, x + y + z, e.name);
    Apart(b, off, x + y, z);
    Apart(b, off, x, y);
  }

  /** Two pieces one after the other are read as each on its own. */
  lemma Apart(b: seq<byte>, off: nat, x: seq<byte>, y: seq<byte>)
    requires off + |x| + |y| <= |b|
    ensures b[off..off + |x| + |y|] == x + y <==>
            b[off..off + |x|] == x && b[off + |x|..off + |x| + |y|] == y
  {
    var s := b[off..off + |x| + |y|];
    forall i, j | 0 <= i <= j <= |s| ensures s[i..j] == b[off + i..off + j] {
      forall k | 0 <= k < j - i ensures s[i..j][k] == b[off + i..off + j][k] {}
    }
    assert s == s[..|x|] + s[|x|..];
    assert (x + y)[..|x|] == x && (x + y)[|x|..] == y;
    assert s[..|x|] == s[0..|x|] && s[|x|..] == s[|x|..|s|];
  }

  lemma {:induction false} BlockDecodesExactly(b: seq<byte>, off: nat, es: seq<Entry>)
    requires off <= |b|
    ensures Items(b, off) == Some(es) <==> Lists(b, off, es)
    decreases |b| - off
  {
    hide NextItem, Encode, ValidName, EndsAt, Lists;
    EndExactly(b, off);
    if es == [] {
      NothingListed(b, off);
    } else {
      ListedMore(b, off, es);
      var next := off + 18 + |es[0].name|;
      ItemExactly(b, off, es[0], next);
      match NextItem(b, off)
      case End =>
      case Bad =>
      case Good(e, n) =>
        ItemExactly(b, off, e, n);
        BlockDecodesExactly(b, n, es[1..]);
        assert [es[0]] + es[1..] == es;
    }
  }

  lemma NothingListed(b: seq<byte>, off: nat)
    requires off <= |b|
    ensures Lists(b, off, []) <==> EndsAt(b, off)
  {
  }

  lemma ListedMore(b: seq<byte>, off: nat, es: seq<Entry>)
    requires es != [] && off <= |b|
    ensures Lists(b, off, es) <==>
            && ValidName(es[0].name) && |es[0].name| <= MAX_FILENAME_LEN
            && off + |Encode(es[0])| <= |b| && b[off..off + |Encode(es[0])|] == Encode(es[0])
            && Lists(b, off + |Encode(es[0])|, es[1..])
  {
    hide Encode, EndsAt, ValidName;
    ValidLength(es[0].name);
    if |es[0].name| <= MAX_FILENAME_LEN && ValidNames(es[1..]) {
      var x, y := Encode(es[0]), EncodeAll(es[1..]);
      if off + |x| + |y| <= |b| { Apart(b, off, x, y); }
      assert ValidName(es[0].name) ==> ValidNames(es);
    }
  }
}
