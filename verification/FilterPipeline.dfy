/** Byte and bit shuffling, and the pipeline that chains the filters (src/filters.rs). */
module FilterPipeline {
  import opened Arith
  import opened Bytes
  import opened Transpose
  import opened Filters

  // ---------------------------------------------------------------------------
  // Byte shuffle
  // ---------------------------------------------------------------------------

  /** Position `col` of row `row`, in rows of `width`. */
  function At(row: nat, width: nat, col: nat): nat {
    row * width + col
  }

  lemma AtSplit(row: nat, width: nat, col: nat)
    requires col < width
    ensures At(row, width, col) / width == row && At(row, width, col) % width == col
  {
    Split(col, row, width, At(row, width, col));
  }

  lemma AtBounds(row: nat, rows: nat, width: nat, col: nat)
    requires row < rows && col < width
    ensures At(row, width, col) < rows * width
  {
    MulGap(width, row, rows);
  }

  lemma SplitAt(p: nat, width: nat, rows: nat)
    requires p < rows * width
    ensures width > 0 && p % width < width && p / width < rows && At(p / width, width, p % width) == p
  {
    if p / width >= rows { MulMono(width, rows, p / width); }
  }

  /** Transposes the matrix of `Count(d, ts)` elements by `ts` bytes; the tail stays. */
  function ShuffleEncode(d: seq<byte>, ts: nat): (r: seq<byte>)
    ensures |r| == |d|
  {
    if ts <= 1 || d == [] then d
    else
      var n := Count(d, ts);
      seq(|d|, p requires 0 <= p < |d| => if p < n * ts then ShuffleSource(d, ts, p) else d[p])
  }

  function ShuffleSource(d: seq<byte>, ts: nat, p: nat): byte
    requires ts > 0 && p < Count(d, ts) * ts
  {
    var n := Count(d, ts);
    SplitAt(p, n, ts);
    AtBounds(p % n, n, ts, p / n);
    d[At(p % n, ts, p / n)]
  }

  function ShuffleDecode(d: seq<byte>, ts: nat): (r: seq<byte>)
    ensures |r| == |d|
  {
    if ts <= 1 || d == [] then d
    else
      var n := Count(d, ts);
      seq(|d|, p requires 0 <= p < |d| => if p < n * ts then UnshuffleSource(d, ts, p) else d[p])
  }

  function UnshuffleSource(d: seq<byte>, ts: nat, p: nat): byte
    requires ts > 0 && p < Count(d, ts) * ts
  {
    var n := Count(d, ts);
    SplitAt(p, ts, n);
    AtBounds(p % ts, ts, n, p / ts);
    d[At(p % ts, n, p / ts)]
  }

  lemma ShuffleRoundTrip(d: seq<byte>, ts: nat)
    ensures ShuffleDecode(ShuffleEncode(d, ts), ts) == d
  {
    hide ShuffleSource, UnshuffleSource;
    if ts > 1 && d != [] {
      var n := Count(d, ts);
      var e := ShuffleEncode(d, ts);
      forall p | 0 <= p < n * ts ensures UnshuffleSource(e, ts, p) == d[p] { ShuffleBack(d, ts, p); }
    }
  }

  lemma ShuffleBack(d: seq<byte>, ts: nat, p: nat)
    requires ts > 1 && d != [] && p < Count(d, ts) * ts
    ensures UnshuffleSource(ShuffleEncode(d, ts), ts, p) == d[p]
  {
    hide At;
    var n := Count(d, ts);
    SplitAt(p, ts, n);
    var row, col := p / ts, p % ts;
    AtBounds(col, ts, n, row);
    AtSplit(col, n, row);
    AtBounds(row, n, ts, col);
    var q := At(col, n, row);
    assert ShuffleEncode(d, ts)[q] == ShuffleSource(d, ts, q);
  }

  /** Byte `c` of element `e` comes to place `e` among the bytes `c`; what is left over stays. */
  ghost predicate BytesGathered(d: seq<byte>, ts: nat, r: seq<byte>) {
    && |r| == |d| && (ts == 0 ==> r == d)
    && (ts > 0 ==>
          && (forall e, c {:trigger At(c, Count(d, ts), e)} :: 0 <= e < Count(d, ts) && 0 <= c < ts ==>
                At(c, Count(d, ts), e) < |d| && At(e, ts, c) < |d| && r[At(c, Count(d, ts), e)] == d[At(e, ts, c)])
          && (forall p :: Count(d, ts) * ts <= p < |d| ==> r[p] == d[p]))
  }

  lemma ShuffleGathers(d: seq<byte>, ts: nat)
    ensures BytesGathered(d, ts, ShuffleEncode(d, ts))
  {
    hide ShuffleSource, Count;
    if ts > 0 {
      var n, r := Count(d, ts), ShuffleEncode(d, ts);
      forall e, c | 0 <= e < n && 0 <= c < ts
        ensures At(c, n, e) < |d| && At(e, ts, c) < |d| && r[At(c, n, e)] == d[At(e, ts, c)]
      {
        ShuffleStep(d, ts, e, c);
      }
    }
  }

  /** The encoding loop writes column by column. */
  method Shuffle(d: seq<byte>, ts: nat) returns (r: seq<byte>)
    ensures r == ShuffleEncode(d, ts) && BytesGathered(d, ts, r)
  {
    hide ShuffleSource, At, BytesGathered, Placed;
    ShuffleGathers(d, ts);
    if ts <= 1 || d == [] {
      return d;
    }
    var out := new byte[|d|](_ => 0);
    var n := Count(d, ts);
    NonePlaced(out[..], d, ts);
    for i := 0 to n
      invariant Placed(out[..], d, ts, i, 0)
    {
      for j := 0 to ts
        invariant Placed(out[..], d, ts, i, j)
      {
        PlaceNext(out[..], d, ts, i, j);
        out[At(j, n, i)] := d[At(i, ts, j)];
      }
      ColumnPlaced(out[..], d, ts, i);
    }
    AllPlaced(out[..], d, ts);
    CopyTail(out, d, n * ts);
    r := out[..];
  }

  ghost function ColOf(p: nat, n: nat): nat
    requires n > 0
  {
    p % n
  }

  ghost function RowOf(p: nat, n: nat): nat
    requires n > 0
  {
    p / n
  }

  /** The columns below `i` are in place, and the first `j` bytes of column `i`. */
  ghost predicate Placed(s: seq<byte>, d: seq<byte>, ts: nat, i: nat, j: nat)
    requires ts > 0
  {
    var n := Count(d, ts);
    && |s| == |d| && n * ts <= |d|
    && forall p :: 0 <= p < n * ts && (ColOf(p, n) < i || (ColOf(p, n) == i && RowOf(p, n) < j)) ==>
      s[p] == ShuffleSource(d, ts, p)
  }

  lemma NonePlaced(s: seq<byte>, d: seq<byte>, ts: nat)
    requires ts > 0 && |s| == |d|
    ensures Placed(s, d, ts, 0, 0)
  {
  }

  lemma PlaceNext(s: seq<byte>, d: seq<byte>, ts: nat, i: nat, j: nat)
    requires ts > 0 && i < Count(d, ts) && j < ts && Placed(s, d, ts, i, j)
    ensures var q := At(j, Count(d, ts), i);
            q < |s| && At(i, ts, j) < |d| && Placed(s[q := d[At(i, ts, j)]], d, ts, i, j + 1)
  {
    hide ShuffleSource, At, Count;
    ShuffleStep(d, ts, i, j);
    Places(j, Count(d, ts), i, ts);
  }

  lemma ColumnPlaced(s: seq<byte>, d: seq<byte>, ts: nat, i: nat)
    requires ts > 0 && i < Count(d, ts) && Placed(s, d, ts, i, ts)
    ensures Placed(s, d, ts, i + 1, 0)
  {
    hide ShuffleSource, Count;
    var n := Count(d, ts);
    forall p | 0 <= p < n * ts ensures RowOf(p, n) < ts { SplitAt(p, n, ts); }
  }

  lemma AllPlaced(s: seq<byte>, d: seq<byte>, ts: nat)
    requires ts > 0 && Placed(s, d, ts, Count(d, ts), 0)
    ensures |s| == |d| && Count(d, ts) * ts <= |d|
    ensures forall p :: 0 <= p < Count(d, ts) * ts ==> s[p] == ShuffleSource(d, ts, p)
  {
    hide ShuffleSource, Count;
    var n := Count(d, ts);
    forall p | 0 <= p < n * ts ensures ColOf(p, n) < n { SplitAt(p, n, ts); }
  }

  lemma Places(j: nat, n: nat, i: nat, ts: nat)
    requires i < n && j < ts
    ensures forall p :: 0 <= p < n * ts && ColOf(p, n) == i && RowOf(p, n) == j ==> p == At(j, n, i)
    ensures ColOf(At(j, n, i), n) == i && RowOf(At(j, n, i), n) == j
  {
    AtSplit(j, n, i);
    forall p | 0 <= p < n * ts && ColOf(p, n) == i && RowOf(p, n) == j ensures p == At(j, n, i) { SplitAt(p, n, ts); }
  }

  lemma ShuffleStep(d: seq<byte>, ts: nat, i: nat, j: nat)
    requires ts > 0 && i < Count(d, ts) && j < ts
    ensures At(j, Count(d, ts), i) < Count(d, ts) * ts && At(i, ts, j) < |d|
    ensures ShuffleSource(d, ts, At(j, Count(d, ts), i)) == d[At(i, ts, j)]
  {
    AtBounds(j, ts, Count(d, ts), i);
    AtBounds(i, Count(d, ts), ts, j);
    AtSplit(j, Count(d, ts), i);
  }

  method CopyTail(out: array<byte>, d: seq<byte>, start: nat)
    requires out.Length == |d| && start <= |d|
    modifies out
    ensures forall p :: 0 <= p < |d| ==> out[p] == if p < start then old(out[p]) else d[p]
  {
    for k := start to |d|
      invariant forall p :: 0 <= p < |d| ==> out[p] == if start <= p < k then d[p] else old(out[p])
    {
      out[k] := d[k];
    }
  }

  /** The decoding loop writes element by element, in order. */
  method Unshuffle(d: seq<byte>, ts: nat) returns (r: seq<byte>)
    ensures r == ShuffleDecode(d, ts)
  {
    hide UnshuffleSource, At;
    if ts <= 1 || d == [] {
      return d;
    }
    var out := new byte[|d|](_ => 0);
    var n := Count(d, ts);
    AtEnds(n, ts);
    for i := 0 to n
      invariant forall p :: 0 <= p < At(i, ts, 0) && p < n * ts ==> out[p] == UnshuffleSource(d, ts, p)
    {
      for j := 0 to ts
        invariant forall p :: 0 <= p < At(i, ts, j) && p < n * ts ==> out[p] == UnshuffleSource(d, ts, p)
      {
        AtBounds(j, ts, n, i);
        AtBounds(i, n, ts, j);
        AtNext(i, ts, j);
        UnshuffleStep(d, ts, i, j);
        out[At(i, ts, j)] := d[At(j, n, i)];
      }
      AtTurn(i, ts);
    }
    CopyTail(out, d, n * ts);
    r := out[..];
  }

  lemma AtNext(i: nat, ts: nat, j: nat)
    ensures At(i, ts, j + 1) == At(i, ts, j) + 1
  {
  }

  lemma AtTurn(i: nat, ts: nat)
    ensures At(i, ts, ts) == At(i + 1, ts, 0)
  {
  }

  lemma AtEnds(n: nat, ts: nat)
    ensures At(0, ts, 0) == 0 && At(n, ts, 0) == n * ts
  {
  }

  lemma UnshuffleStep(d: seq<byte>, ts: nat, i: nat, j: nat)
    requires ts > 0 && i < Count(d, ts) && j < ts
    ensures At(i, ts, j) < Count(d, ts) * ts && At(j, Count(d, ts), i) < |d|
    ensures UnshuffleSource(d, ts, At(i, ts, j)) == d[At(j, Count(d, ts), i)]
  {
    AtBounds(j, ts, Count(d, ts), i);
    AtBounds(i, Count(d, ts), ts, j);
    AtSplit(i, ts, j);
  }

  // ---------------------------------------------------------------------------
  // Bit shuffle
  // ---------------------------------------------------------------------------

  function Join(b0: bv8, b1: bv8, b2: bv8, b3: bv8, b4: bv8, b5: bv8, b6: bv8, b7: bv8): bv64 {
    b0 as bv64 | (b1 as bv64 << 8) | (b2 as bv64 << 16) | (b3 as bv64 << 24) |
    (b4 as bv64 << 32) | (b5 as bv64 << 40) | (b6 as bv64 << 48) | (b7 as bv64 << 56)
  }

  function JoinWord(b: seq<bv8>): bv64
    requires |b| == 8
  {
    Join(b[0], b[1], b[2], b[3], b[4], b[5], b[6], b[7])
  }

  function Low(x: bv64): bv8 {
    (x & 0xFF) as bv8
  }

  /** The bytes of a word, lowest first. */
  function SplitWord(w: bv64): (b: seq<bv8>)
    ensures |b| == 8
  {
    [Low(Row(w, 0)), Low(Row(w, 1)), Low(Row(w, 2)), Low(Row(w, 3)),
     Low(Row(w, 4)), Low(Row(w, 5)), Low(Row(w, 6)), Low(Row(w, 7))]
  }

  lemma JoinRows(w: bv64)
    ensures Join(Low(Row(w, 0)), Low(Row(w, 1)), Low(Row(w, 2)), Low(Row(w, 3)),
                 Low(Row(w, 4)), Low(Row(w, 5)), Low(Row(w, 6)), Low(Row(w, 7))) == w
  {
  }

  lemma RowsOfJoin(b0: bv8, b1: bv8, b2: bv8, b3: bv8, b4: bv8, b5: bv8, b6: bv8, b7: bv8)
    ensures var w := Join(b0, b1, b2, b3, b4, b5, b6, b7);
            && Low(Row(w, 0)) == b0 && Low(Row(w, 1)) == b1 && Low(Row(w, 2)) == b2 && Low(Row(w, 3)) == b3
            && Low(Row(w, 4)) == b4 && Low(Row(w, 5)) == b5 && Low(Row(w, 6)) == b6 && Low(Row(w, 7)) == b7
  {
  }

  lemma WordRoundTrip(w: bv64, b: seq<bv8>)
    requires |b| == 8
    ensures JoinWord(SplitWord(w)) == w && SplitWord(JoinWord(b)) == b
  {
    hide Low, Row, Join;
    JoinRows(w);
    RowsOfJoin(b[0], b[1], b[2], b[3], b[4], b[5], b[6], b[7]);
  }

  /** The bits of a word byte, lowest first. */
  function Flags(y: bv8): (s: seq<bool>)
    ensures |s| == 8
  {
    [y & 1 != 0, y & 2 != 0, y & 4 != 0, y & 8 != 0, y & 16 != 0, y & 32 != 0, y & 64 != 0, y & 128 != 0]
  }

  function Flag(b: bool, v: bv8): bv8 {
    if b then v else 0
  }

  function Pack(b0: bool, b1: bool, b2: bool, b3: bool, b4: bool, b5: bool, b6: bool, b7: bool): bv8 {
    Flag(b0, 1) | Flag(b1, 2) | Flag(b2, 4) | Flag(b3, 8) | Flag(b4, 16) | Flag(b5, 32) | Flag(b6, 64) | Flag(b7, 128)
  }

  function FromFlags(s: seq<bool>): bv8
    requires |s| == 8
  {
    Pack(s[0], s[1], s[2], s[3], s[4], s[5], s[6], s[7])
  }

  lemma PackBits(b0: bool, b1: bool, b2: bool, b3: bool, b4: bool, b5: bool, b6: bool, b7: bool)
    ensures var y := Pack(b0, b1, b2, b3, b4, b5, b6, b7);
            && (y & 1 != 0) == b0 && (y & 2 != 0) == b1 && (y & 4 != 0) == b2 && (y & 8 != 0) == b3
            && (y & 16 != 0) == b4 && (y & 32 != 0) == b5 && (y & 64 != 0) == b6 && (y & 128 != 0) == b7
  {
  }

  lemma PackFlags(y: bv8)
    ensures Pack(y & 1 != 0, y & 2 != 0, y & 4 != 0, y & 8 != 0,
                 y & 16 != 0, y & 32 != 0, y & 64 != 0, y & 128 != 0) == y
  {
  }

  lemma FlagsBack(s: seq<bool>)
    requires |s| == 8
    ensures Flags(FromFlags(s)) == s
  {
    hide Pack;
    PackBits(s[0], s[1], s[2], s[3], s[4], s[5], s[6], s[7]);
  }

  lemma BitsBack(y: bv8)
    ensures FromFlags(Flags(y)) == y
  {
    hide Pack;
    PackFlags(y);
  }

  function ByteBits(x: byte): bv8 {
    FromFlags(ToBits(x, 8))
  }

  function BitsByte(y: bv8): byte {
    FromBitsRoundTrip(Flags(y));
    assert Pow2(8) == 256;
    FromBits(Flags(y))
  }

  lemma ByteRoundTrip(x: byte, y: bv8)
    ensures BitsByte(ByteBits(x)) == x && ByteBits(BitsByte(y)) == y
  {
    hide Flags, FromFlags, ToBits, FromBits;
    FlagsBack(ToBits(x, 8));
    BitsBack(y);
    assert Pow2(8) == 256;
    BitsRoundTrip(x, 8);
    FromBitsRoundTrip(Flags(y));
  }

  function ToBv(e: seq<byte>): (b: seq<bv8>)
    ensures |b| == |e| && forall i :: 0 <= i < |e| ==> b[i] == ByteBits(e[i])
  {
    seq(|e|, i requires 0 <= i < |e| => ByteBits(e[i]))
  }

  function FromBv(b: seq<bv8>): (e: seq<byte>)
    ensures |e| == |b| && forall i :: 0 <= i < |b| ==> e[i] == BitsByte(b[i])
  {
    seq(|b|, i requires 0 <= i < |b| => BitsByte(b[i]))
  }

  lemma BvRoundTrip(e: seq<byte>, b: seq<bv8>)
    ensures FromBv(ToBv(e)) == e && ToBv(FromBv(b)) == b
  {
    hide ByteBits, BitsByte;
    forall i | 0 <= i < |e| ensures FromBv(ToBv(e))[i] == e[i] { ByteRoundTrip(e[i], 0); }
    forall i | 0 <= i < |b| ensures ToBv(FromBv(b))[i] == b[i] { ByteRoundTrip(0, b[i]); }
  }

  /** Eight bytes, read as a little-endian word, transposed and written back. */
  function SwapBlock(e: seq<byte>): (r: seq<byte>)
    requires |e| == 8
    ensures |r| == 8
  {
    FromBv(SplitWord(Transpose8x8(JoinWord(ToBv(e)))))
  }

  lemma SwapBlockTwice(e: seq<byte>)
    requires |e| == 8
    ensures SwapBlock(SwapBlock(e)) == e
  {
    hide FromBv, ToBv, SplitWord, JoinWord, Transpose8x8;
    var w := JoinWord(ToBv(e));
    BvRoundTrip(e, SplitWord(Transpose8x8(w)));
    WordRoundTrip(Transpose8x8(w), ToBv(e));
    TransposeInvolution(w);
  }

  function Bit(y: bv8, r: bv7): bool
    requires r < 8
  {
    (y >> r) & 1 != 0
  }

  /** Column `r` of the joined word holds bit `r` of each byte. */
  lemma ColumnOfJoin(b0: bv8, b1: bv8, b2: bv8, b3: bv8, b4: bv8, b5: bv8, b6: bv8, b7: bv8, r: bv7)
    requires r < 8
    ensures Column(Join(b0, b1, b2, b3, b4, b5, b6, b7), r) ==
            Pack(Bit(b0, r), Bit(b1, r), Bit(b2, r), Bit(b3, r), Bit(b4, r), Bit(b5, r), Bit(b6, r), Bit(b7, r)) as bv64
  {
    if r == 0 {} else if r == 1 {} else if r == 2 {} else if r == 3 {}
    else if r == 4 {} else if r == 5 {} else if r == 6 {} else {}
  }

  function BvOf(i: nat): (r: bv7)
    requires i < 8
    ensures r < 8
  {
    if i == 0 then 0 else if i == 1 then 1 else if i == 2 then 2 else if i == 3 then 3
    else if i == 4 then 4 else if i == 5 then 5 else if i == 6 then 6 else 7
  }

  lemma SplitIsRow(w: bv64, i: nat)
    requires i < 8
    ensures SplitWord(w)[i] == Low(Row(w, BvOf(i)))
  {
    hide Low, Row;
  }

  lemma LowOfWide(b: bv8)
    ensures Low(b as bv64) == b
  {
  }

  lemma FlagIsBit(y: bv8, i: nat)
    requires i < 8
    ensures Flags(y)[i] == Bit(y, BvOf(i))
  {
    if i == 0 {} else if i == 1 {} else if i == 2 {} else if i == 3 {}
    else if i == 4 {} else if i == 5 {} else if i == 6 {} else {}
  }

  lemma FlagsAreBits(x: byte, y: bv8)
    ensures Flags(ByteBits(x)) == ToBits(x, 8) && ToBits(BitsByte(y), 8) == Flags(y)
  {
    hide Flags, FromFlags, ToBits, FromBits;
    FlagsBack(ToBits(x, 8));
    assert Pow2(8) == 256;
    FromBitsRoundTrip(Flags(y));
  }

  /** Bit `r` of each byte. */
  function BitsAt(b: seq<bv8>, r: bv7): (s: seq<bool>)
    requires |b| == 8 && r < 8
    ensures |s| == 8
  {
    [Bit(b[0], r), Bit(b[1], r), Bit(b[2], r), Bit(b[3], r), Bit(b[4], r), Bit(b[5], r), Bit(b[6], r), Bit(b[7], r)]
  }

  lemma BitsAtIs(b: seq<bv8>, r: bv7, j: nat)
    requires |b| == 8 && r < 8 && j < 8
    ensures BitsAt(b, r)[j] == Bit(b[j], r)
  {
    hide Bit;
  }

  lemma TransposedByte(b: seq<bv8>, i: nat)
    requires |b| == 8 && i < 8
    ensures SplitWord(Transpose8x8(JoinWord(b)))[i] == FromFlags(BitsAt(b, BvOf(i)))
  {
    hide SplitWord, Join, Transpose8x8, Row, Column, Pack, Bit, BvOf, Low;
    var w, r := JoinWord(b), BvOf(i);
    SplitIsRow(Transpose8x8(w), i);
    TransposeIsTranspose(w, r);
    ColumnOfJoin(b[0], b[1], b[2], b[3], b[4], b[5], b[6], b[7], r);
    LowOfWide(FromFlags(BitsAt(b, r)));
  }

  /** Bit `j` of byte `i` is bit `i` of byte `j`. */
  lemma SwapBlockBits(e: seq<byte>, i: nat, j: nat)
    requires |e| == 8 && i < 8 && j < 8
    ensures ToBits(SwapBlock(e)[i], 8)[j] == ToBits(e[j], 8)[i]
  {
    hide FromBv, ToBv, SplitWord, JoinWord, Transpose8x8, Flags, ToBits, ByteBits, BitsByte, Bit, BvOf, FromFlags,
         BitsAt;
    var b := ToBv(e);
    TransposedByte(b, i);
    FlagsBack(BitsAt(b, BvOf(i)));
    BitsAtIs(b, BvOf(i), j);
    FlagIsBit(b[j], i);
    FlagsAreBits(e[j], SplitWord(Transpose8x8(JoinWord(b)))[i]);
  }

  /** Every whole block of eight bytes is transposed; a shorter rest stays. */
  function SwapBlocks(d: seq<byte>): (r: seq<byte>)
    ensures |r| == |d|
  {
    seq(|d|, p requires 0 <= p < |d| =>
      if p < |d| / 8 * 8 then SwapBlock(d[p / 8 * 8..p / 8 * 8 + 8])[p % 8] else d[p])
  }

  lemma SwapBlockAt(d: seq<byte>, b: nat)
    requires b < |d| / 8
    ensures SwapBlocks(d)[b * 8..b * 8 + 8] == SwapBlock(d[b * 8..b * 8 + 8])
  {
    hide SwapBlock;
    var block, e := SwapBlocks(d)[b * 8..b * 8 + 8], SwapBlock(d[b * 8..b * 8 + 8]);
    forall k | 0 <= k < 8 ensures block[k] == e[k] {
      assert (b * 8 + k) / 8 == b && (b * 8 + k) % 8 == k;
    }
  }

  lemma SwapBlocksTwice(d: seq<byte>)
    ensures SwapBlocks(SwapBlocks(d)) == d
  {
    hide SwapBlock;
    var e := SwapBlocks(d);
    forall p | 0 <= p < |d| ensures SwapBlocks(e)[p] == d[p] {
      if p < |d| / 8 * 8 {
        SwapBlockAt(d, p / 8);
        SwapBlockTwice(d[p / 8 * 8..p / 8 * 8 + 8]);
      }
    }
  }

  /** In every whole block of eight bytes, bit `j` of byte `i` is what bit `i` of byte `j` was; the rest stays. */
  ghost predicate BitsCrossed(d: seq<byte>, r: seq<byte>) {
    && |r| == |d|
    && (forall p, j :: 0 <= p < |d| / 8 * 8 && 0 <= j < 8 ==> BitCrossed(d, r, p, j))
    && (forall p :: |d| / 8 * 8 <= p < |d| ==> r[p] == d[p])
  }

  ghost predicate BitCrossed(d: seq<byte>, r: seq<byte>, p: nat, j: nat)
    requires |r| == |d| && p < |d| / 8 * 8 && j < 8
  {
    ToBits(r[p], 8)[j] == ToBits(d[p / 8 * 8 + j], 8)[p % 8]
  }

  lemma SwapCrosses(d: seq<byte>)
    ensures BitsCrossed(d, SwapBlocks(d))
  {
    hide SwapBlock, BitCrossed;
    forall p, j | 0 <= p < |d| / 8 * 8 && 0 <= j < 8 ensures BitCrossed(d, SwapBlocks(d), p, j) { CrossedAt(d, p, j); }
  }

  lemma CrossedAt(d: seq<byte>, p: nat, j: nat)
    requires p < |d| / 8 * 8 && j < 8
    ensures BitCrossed(d, SwapBlocks(d), p, j)
  {
    hide SwapBlock, ToBits;
    var at := p / 8 * 8;
    assert d[at..at + 8][j] == d[at + j];
    SwapBlockBits(d[at..at + 8], p % 8, j);
  }

  method TransposeBlocks(d: seq<byte>) returns (r: seq<byte>)
    ensures r == SwapBlocks(d) && BitsCrossed(d, r)
  {
    hide SwapBlock, BitsCrossed;
    SwapCrosses(d);
    var out := new byte[|d|](_ => 0);
    var blocks := |d| / 8;
    for b := 0 to blocks
      invariant forall p :: 0 <= p < b * 8 ==> out[p] == SwapBlocks(d)[p]
    {
      var e := SwapBlock(d[b * 8..b * 8 + 8]);
      SwapBlockAt(d, b);
      assert forall k :: 0 <= k < 8 ==> SwapBlocks(d)[b * 8..b * 8 + 8][k] == e[k];
      for k := 0 to 8
        invariant forall p :: 0 <= p < b * 8 + k ==> out[p] == SwapBlocks(d)[p]
      {
        assert SwapBlocks(d)[b * 8..b * 8 + 8][k] == SwapBlocks(d)[b * 8 + k];
        out[b * 8 + k] := e[k];
      }
    }
    CopyTail(out, d, blocks * 8);
    r := out[..];
  }

  function BitShuffleEncode(d: seq<byte>, ts: nat): seq<byte> {
    if d == [] || ts == 0 then d else SwapBlocks(ShuffleEncode(d, ts))
  }

  function BitShuffleDecode(d: seq<byte>, ts: nat): seq<byte> {
    if d == [] || ts == 0 then d else ShuffleDecode(SwapBlocks(d), ts)
  }

  lemma BitShuffleRoundTrip(d: seq<byte>, ts: nat)
    ensures BitShuffleDecode(BitShuffleEncode(d, ts), ts) == d
  {
    hide SwapBlocks, ShuffleEncode, ShuffleDecode;
    SwapBlocksTwice(ShuffleEncode(d, ts));
    ShuffleRoundTrip(d, ts);
  }

  // ---------------------------------------------------------------------------
  // The pipeline
  // ---------------------------------------------------------------------------

  datatype Filter = Delta | ByteShuffle | BitShuffle

  function ApplyOne(f: Filter, ts: nat, d: seq<byte>): seq<byte> {
    match f
    case Delta => DeltaEncode(d, ts)
    case ByteShuffle => ShuffleEncode(d, ts)
    case BitShuffle => BitShuffleEncode(d, ts)
  }

  function UnapplyOne(f: Filter, ts: nat, d: seq<byte>): seq<byte> {
    match f
    case Delta => DeltaDecode(d, ts)
    case ByteShuffle => ShuffleDecode(d, ts)
    case BitShuffle => BitShuffleDecode(d, ts)
  }

  /** Filters in order. */
  function ApplyAll(fs: seq<Filter>, ts: nat, d: seq<byte>): seq<byte> {
    if fs == [] then d else ApplyOne(fs[|fs| - 1], ts, ApplyAll(fs[..|fs| - 1], ts, d))
  }

  /** Inverse filters in reverse order. */
  function UnapplyAll(fs: seq<Filter>, ts: nat, d: seq<byte>): seq<byte> {
    if fs == [] then d else UnapplyAll(fs[..|fs| - 1], ts, UnapplyOne(fs[|fs| - 1], ts, d))
  }

  /** Every pipeline is lossless, for every buffer, length and element size. */
  lemma {:induction false} PipelineInverts(fs: seq<Filter>, ts: nat, d: seq<byte>)
    ensures UnapplyAll(fs, ts, ApplyAll(fs, ts, d)) == d
  {
    hide DeltaEncode, DeltaDecode, ShuffleEncode, ShuffleDecode, BitShuffleEncode, BitShuffleDecode;
    if fs != [] {
      var before := ApplyAll(fs[..|fs| - 1], ts, d);
      DeltaRoundTrip(before, ts);
      ShuffleRoundTrip(before, ts);
      BitShuffleRoundTrip(before, ts);
      PipelineInverts(fs[..|fs| - 1], ts, d);
    }
  }

  /** What one filter does, in terms of the bytes. */
  ghost predicate Filtered(f: Filter, ts: nat, d: seq<byte>, r: seq<byte>) {
    match f
    case Delta => Differences(d, ts, r)
    case ByteShuffle => BytesGathered(d, ts, r)
    case BitShuffle =>
      if ts == 0 then r == d else exists m :: BytesGathered(d, ts, m) && BitsCrossed(m, r)
  }

  lemma OneFilter(f: Filter, ts: nat, d: seq<byte>)
    ensures Filtered(f, ts, d, ApplyOne(f, ts, d))
  {
    hide Differences, BytesGathered, BitsCrossed, DeltaEncode, ShuffleEncode, SwapBlocks;
    EncodesDifferences(d, ts);
    ShuffleGathers(d, ts);
    SwapCrosses(ShuffleEncode(d, ts));
    if d == [] {
      NothingToFilter(ts);
    }
  }

  lemma NothingToFilter(ts: nat)
    ensures BytesGathered([], ts, []) && BitsCrossed([], [])
  {
    hide At;
    ShuffleGathers([], ts);
    SwapCrosses([]);
  }

  /** The filters of a pipeline work one after the other, from the first to the last. */
  lemma {:induction false} PipelineComposes(fs: seq<Filter>, gs: seq<Filter>, ts: nat, d: seq<byte>)
    ensures ApplyAll([], ts, d) == d
    ensures ApplyAll(fs + gs, ts, d) == ApplyAll(gs, ts, ApplyAll(fs, ts, d))
    decreases |gs|
  {
    hide ApplyOne;
    if gs == [] {
      assert fs + gs == fs;
    } else {
      assert (fs + gs)[..|fs + gs| - 1] == fs + gs[..|gs| - 1];
      PipelineComposes(fs, gs[..|gs| - 1], ts, d);
    }
  }

  /** `r` is what the filters make of `d`, each of what the one before it made. */
  ghost predicate Pipelined(fs: seq<Filter>, ts: nat, d: seq<byte>, r: seq<byte>) {
    if fs == [] then r == d
    else
      var n := |fs| - 1;
      exists m :: Pipelined(fs[..n], ts, d, m) && Filtered(fs[n], ts, m, r)
  }

  lemma {:induction false} PipelineFilters(fs: seq<Filter>, ts: nat, d: seq<byte>)
    ensures Pipelined(fs, ts, d, ApplyAll(fs, ts, d))
  {
    hide Filtered, ApplyOne;
    if fs != [] {
      var n := |fs| - 1;
      PipelineFilters(fs[..n], ts, d);
      OneFilter(fs[n], ts, ApplyAll(fs[..n], ts, d));
    }
  }

  method Apply(fs: seq<Filter>, ts: nat, d: seq<byte>) returns (r: seq<byte>)
    ensures r == ApplyAll(fs, ts, d) && Pipelined(fs, ts, d, r)
  {
    hide DeltaEncode, ShuffleEncode, SwapBlocks, Pipelined;
    PipelineFilters(fs, ts, d);
    r := d;
    for i := 0 to |fs|
      invariant r == ApplyAll(fs[..i], ts, d)
    {
      assert fs[..i + 1][..i] == fs[..i];
      match fs[i]
      case Delta => r := DeltaBuffer(r, ts, true);
      case ByteShuffle => r := Shuffle(r, ts);
      case BitShuffle =>
        if r != [] && ts != 0 {
          r := Shuffle(r, ts);
          r := TransposeBlocks(r);
        }
    }
    assert fs[..|fs|] == fs;
  }

  method Unapply(fs: seq<Filter>, ts: nat, d: seq<byte>) returns (r: seq<byte>)
    ensures r == UnapplyAll(fs, ts, d)
  {
    hide DeltaDecode, ShuffleDecode, SwapBlocks;
    r := d;
    var i := |fs|;
    assert fs[..i] == fs;
    while i > 0
      invariant i <= |fs| && UnapplyAll(fs[..i], ts, r) == UnapplyAll(fs, ts, d)
    {
      assert fs[..i][..i - 1] == fs[..i - 1];
      i := i - 1;
      match fs[i]
      case Delta => r := DeltaBuffer(r, ts, false);
      case ByteShuffle => r := Unshuffle(r, ts);
      case BitShuffle =>
        if r != [] && ts != 0 {
          r := TransposeBlocks(r);
          r := Unshuffle(r, ts);
        }
    }
  }

  method DeltaBuffer(d: seq<byte>, ts: nat, encode: bool) returns (r: seq<byte>)
    ensures r == if encode then DeltaEncode(d, ts) else DeltaDecode(d, ts)
  {
    hide DeltaEncode, DeltaDecode;
    var a := new byte[|d|](i requires 0 <= i < |d| => d[i]);
    assert a[..] == d;
    if encode {
      DeltaEncodeInPlace(a, ts);
    } else {
      DeltaDecodeInPlace(a, ts);
    }
    r := a[..];
  }
}
