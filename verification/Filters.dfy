/** The filter pipeline of compressed chunks (src/filters.rs): delta, byte shuffle and bit shuffle. */
module Filters {
  import opened Arith
  import opened Bytes

  // ---------------------------------------------------------------------------
  // Elements of a buffer
  // ---------------------------------------------------------------------------

  /** Element `i` of the buffer, for elements of `ts` bytes. */
  function Elem(d: seq<byte>, ts: nat, i: nat): (e: seq<byte>)
    requires i * ts + ts <= |d|
    ensures |e| == ts
  {
    d[i * ts..i * ts + ts]
  }

  function SetElem(d: seq<byte>, ts: nat, i: nat, e: seq<byte>): (r: seq<byte>)
    requires i * ts + ts <= |d| && |e| == ts
    ensures |r| == |d|
  {
    d[..i * ts] + e + d[i * ts + ts..]
  }

  function Count(d: seq<byte>, ts: nat): (n: nat)
    requires ts > 0
    ensures n * ts <= |d| < n * ts + ts
  {
    |d| / ts
  }

  lemma ElemFits(d: seq<byte>, ts: nat, i: nat)
    requires ts > 0 && i < Count(d, ts)
    ensures i * ts + ts <= Count(d, ts) * ts <= |d|
  {
    MulGap(ts, i, Count(d, ts));
  }

  lemma ElemOfSet(d: seq<byte>, ts: nat, i: nat, e: seq<byte>, j: nat)
    requires ts > 0 && i * ts + ts <= |d| && j * ts + ts <= |d| && |e| == ts
    ensures Elem(SetElem(d, ts, i, e), ts, j) == if i == j then e else Elem(d, ts, j)
  {
    if i < j {
      MulGap(ts, i, j);
    } else if j < i {
      MulGap(ts, j, i);
    }
  }

  lemma TailOfSet(d: seq<byte>, ts: nat, i: nat, e: seq<byte>, p: nat)
    requires ts > 0 && i < Count(d, ts) && |e| == ts && Count(d, ts) * ts <= p < |d|
    ensures i * ts + ts <= |d| && SetElem(d, ts, i, e)[p] == d[p]
  {
    ElemFits(d, ts, i);
  }

  /** Buffers with the same elements and the same tail are equal. */
  lemma ElemsDecide(a: seq<byte>, b: seq<byte>, ts: nat)
    requires ts > 0 && |a| == |b|
    requires forall i :: 0 <= i < Count(a, ts) ==> i * ts + ts <= |a| && Elem(a, ts, i) == Elem(b, ts, i)
    requires forall p :: Count(a, ts) * ts <= p < |a| ==> a[p] == b[p]
    ensures a == b
  {
    forall p | 0 <= p < |a| ensures a[p] == b[p] {
      if p < Count(a, ts) * ts {
        var i := p / ts;
        if i >= Count(a, ts) { MulMono(ts, Count(a, ts), i); }
        assert Elem(a, ts, i)[p % ts] == Elem(b, ts, i)[p % ts];
      }
    }
  }

  lemma MulMono(m: nat, a: nat, b: nat)
    requires a <= b
    ensures a * m <= b * m
  {
  }

  // ---------------------------------------------------------------------------
  // Delta
  // ---------------------------------------------------------------------------

  /** The element sizes delta coding knows; any other leaves the data alone. */
  predicate DeltaSize(ts: nat) {
    ts == 1 || ts == 2 || ts == 4 || ts == 8
  }

  /** Wrapping subtraction of little-endian elements. */
  function Minus(e: seq<byte>, prev: seq<byte>): (r: seq<byte>)
    ensures |r| == |e|
  {
    LE((FromLE(e) - FromLE(prev)) % Pow256(|e|), |e|)
  }

  /** Wrapping addition. */
  function Plus(prev: seq<byte>, e: seq<byte>): (r: seq<byte>)
    ensures |r| == |e|
  {
    LE((FromLE(prev) + FromLE(e)) % Pow256(|e|), |e|)
  }

  lemma PlusMinus(e: seq<byte>, prev: seq<byte>)
    requires |prev| == |e|
    ensures Plus(prev, Minus(e, prev)) == e
  {
    hide LE, FromLE, Pow256;
    var m: int, a: int, p: int := Pow256(|e|), FromLE(e), FromLE(prev);
    FromLEBound(e);
    LERoundTrip((a - p) % m, |e|);
    ModCancel(a, p, m);
    FromLERoundTrip(e);
  }

  lemma ModCancel(a: nat, p: nat, m: nat)
    requires a < m
    ensures (p + (a - p) % m) % m == a
  {
    var q := (a - p) / m;
    assert p + (a - p) % m == a + m * -q;
    ModShift(a, -q, m);
  }

  lemma ModShift(a: nat, q: int, m: nat)
    requires a < m
    ensures (a + m * q) % m == a
  {
    var x := a + m * q;
    var d := q - x / m;
    assert m * d == x % m - a;
    assert d >= 1 ==> m * d >= m;
    assert d <= -1 ==> m * d + m <= 0;
  }

  /** The buffer after the encoding loop, which runs downwards, has handled elements `i` and above. */
  function EncodeFrom(d: seq<byte>, ts: nat, i: nat): (r: seq<byte>)
    requires ts > 0 && 1 <= i <= Count(d, ts)
    ensures |r| == |d|
    decreases Count(d, ts) - i
  {
    if i == Count(d, ts) then d
    else
      var cur := EncodeFrom(d, ts, i + 1);
      ElemFits(d, ts, i);
      ElemFits(d, ts, i - 1);
      SetElem(cur, ts, i, Minus(Elem(cur, ts, i), Elem(cur, ts, i - 1)))
  }

  /** The buffer after the decoding loop, which runs upwards, has handled the elements below `i`. */
  function DecodeTo(d: seq<byte>, ts: nat, i: nat): (r: seq<byte>)
    requires ts > 0 && 1 <= i <= Count(d, ts)
    ensures |r| == |d|
  {
    if i == 1 then d
    else
      var cur := DecodeTo(d, ts, i - 1);
      ElemFits(d, ts, i - 1);
      ElemFits(d, ts, i - 2);
      SetElem(cur, ts, i - 1, Plus(Elem(cur, ts, i - 2), Elem(cur, ts, i - 1)))
  }

  function DeltaEncode(d: seq<byte>, ts: nat): (r: seq<byte>)
    ensures |r| == |d|
  {
    if DeltaSize(ts) && Count(d, ts) > 1 then EncodeFrom(d, ts, 1) else d
  }

  function DeltaDecode(d: seq<byte>, ts: nat): (r: seq<byte>)
    ensures |r| == |d|
  {
    if DeltaSize(ts) && Count(d, ts) > 1 then DecodeTo(d, ts, Count(d, ts)) else d
  }

  /** An encoded element is the difference to the original element before it. */
  lemma {:induction false} EncodedElem(d: seq<byte>, ts: nat, i: nat, j: nat)
    requires ts > 0 && 1 <= i <= Count(d, ts) && j < Count(d, ts)
    ensures j * ts + ts <= |d| && (j >= i ==> (j - 1) * ts + ts <= |d|)
    ensures Elem(EncodeFrom(d, ts, i), ts, j) ==
            if j >= i then Minus(Elem(d, ts, j), Elem(d, ts, j - 1)) else Elem(d, ts, j)
    decreases Count(d, ts) - i
  {
    hide Elem, SetElem, Minus, Count;
    ElemFits(d, ts, j);
    if j >= 1 { ElemFits(d, ts, j - 1); }
    if i < Count(d, ts) {
      ElemFits(d, ts, i);
      ElemFits(d, ts, i - 1);
      var cur := EncodeFrom(d, ts, i + 1);
      EncodedElem(d, ts, i + 1, j);
      EncodedElem(d, ts, i + 1, i);
      EncodedElem(d, ts, i + 1, i - 1);
      ElemOfSet(cur, ts, i, Minus(Elem(cur, ts, i), Elem(cur, ts, i - 1)), j);
    }
  }

  lemma {:induction false} EncodedTail(d: seq<byte>, ts: nat, i: nat, p: nat)
    requires ts > 0 && 1 <= i <= Count(d, ts) && Count(d, ts) * ts <= p < |d|
    ensures EncodeFrom(d, ts, i)[p] == d[p]
    decreases Count(d, ts) - i
  {
    hide Elem, SetElem, Minus;
    if i < Count(d, ts) {
      ElemFits(d, ts, i);
      ElemFits(d, ts, i - 1);
      var cur := EncodeFrom(d, ts, i + 1);
      EncodedTail(d, ts, i + 1, p);
      TailOfSet(cur, ts, i, Minus(Elem(cur, ts, i), Elem(cur, ts, i - 1)), p);
    }
  }

  /** Decoding restores the elements one by one. */
  lemma {:induction false} DecodedElem(d: seq<byte>, ts: nat, i: nat, j: nat)
    requires ts > 0 && 1 <= i <= Count(d, ts) && j < Count(d, ts)
    ensures j * ts + ts <= |d|
    ensures Elem(DecodeTo(EncodeFrom(d, ts, 1), ts, i), ts, j) ==
            if j < i then Elem(d, ts, j) else Elem(EncodeFrom(d, ts, 1), ts, j)
  {
    hide Elem, SetElem, Minus, Plus;
    ElemFits(d, ts, j);
    var enc := EncodeFrom(d, ts, 1);
    if i == 1 {
      EncodedElem(d, ts, 1, j);
    } else {
      ElemFits(d, ts, i - 1);
      ElemFits(d, ts, i - 2);
      var cur := DecodeTo(enc, ts, i - 1);
      DecodedElem(d, ts, i - 1, j);
      DecodedElem(d, ts, i - 1, i - 1);
      DecodedElem(d, ts, i - 1, i - 2);
      EncodedElem(d, ts, 1, i - 1);
      PlusMinus(Elem(d, ts, i - 1), Elem(d, ts, i - 2));
      ElemOfSet(cur, ts, i - 1, Plus(Elem(cur, ts, i - 2), Elem(cur, ts, i - 1)), j);
    }
  }

  lemma {:induction false} DecodedTail(d: seq<byte>, ts: nat, i: nat, p: nat)
    requires ts > 0 && 1 <= i <= Count(d, ts) && Count(d, ts) * ts <= p < |d|
    ensures DecodeTo(d, ts, i)[p] == d[p]
  {
    hide Elem, SetElem, Plus;
    if i > 1 {
      ElemFits(d, ts, i - 1);
      ElemFits(d, ts, i - 2);
      var cur := DecodeTo(d, ts, i - 1);
      DecodedTail(d, ts, i - 1, p);
      TailOfSet(cur, ts, i - 1, Plus(Elem(cur, ts, i - 2), Elem(cur, ts, i - 1)), p);
    }
  }

  /** Delta coding is lossless for every buffer and element size, tails included. */
  lemma DeltaRoundTrip(d: seq<byte>, ts: nat)
    ensures DeltaDecode(DeltaEncode(d, ts), ts) == d
  {
    hide Elem, EncodeFrom, DecodeTo;
    if DeltaSize(ts) && Count(d, ts) > 1 {
      var enc := EncodeFrom(d, ts, 1);
      var n := Count(d, ts);
      var dec := DecodeTo(enc, ts, n);
      forall i | 0 <= i < n ensures i * ts + ts <= |d| && Elem(dec, ts, i) == Elem(d, ts, i) {
        DecodedElem(d, ts, n, i);
      }
      forall p | n * ts <= p < |d| ensures dec[p] == d[p] {
        EncodedTail(d, ts, 1, p);
        DecodedTail(enc, ts, n, p);
      }
      ElemsDecide(dec, d, ts);
    }
  }

  /** The number a little-endian element stands for. */
  function Value(d: seq<byte>, ts: nat, i: nat): nat
    requires i * ts + ts <= |d|
  {
    FromLE(Elem(d, ts, i))
  }

  ghost predicate DifferenceAt(d: seq<byte>, ts: nat, r: seq<byte>, j: nat)
    requires |r| == |d|
  {
    && j * ts + ts <= |d| && (j > 0 ==> (j - 1) * ts + ts <= |d|) && Pow256(ts) > 0
    && Value(r, ts, j) == if j == 0 then Value(d, ts, 0) else (Value(d, ts, j) - Value(d, ts, j - 1)) % Pow256(ts)
  }

  /** `r` holds the first element of `d`, then the wrapping difference of each element to the one before,
      then what is left over; element sizes other than 1, 2, 4 and 8 are left alone. */
  ghost predicate Differences(d: seq<byte>, ts: nat, r: seq<byte>) {
    && |r| == |d| && (!DeltaSize(ts) ==> r == d)
    && (DeltaSize(ts) ==>
          && (forall j :: 0 <= j < Count(d, ts) ==> DifferenceAt(d, ts, r, j))
          && (forall p :: Count(d, ts) * ts <= p < |d| ==> r[p] == d[p]))
  }

  lemma EncodesDifferences(d: seq<byte>, ts: nat)
    ensures Differences(d, ts, DeltaEncode(d, ts))
  {
    hide Elem, EncodeFrom, FromLE, LE, Pow256, Count;
    if DeltaSize(ts) {
      var n, r := Count(d, ts), DeltaEncode(d, ts);
      forall j: nat | j < n ensures DifferenceAt(d, ts, r, j) {
        ElemFits(d, ts, j);
        if j > 0 { ElemFits(d, ts, j - 1); }
        if n > 1 {
          EncodedElem(d, ts, 1, j);
          if j > 0 { MinusValue(Elem(d, ts, j), Elem(d, ts, j - 1)); }
        }
      }
      forall p | n * ts <= p < |d| ensures r[p] == d[p] { if n > 1 { EncodedTail(d, ts, 1, p); } }
    }
  }

  lemma MinusValue(e: seq<byte>, prev: seq<byte>)
    requires |prev| == |e|
    ensures Pow256(|e|) > 0 && FromLE(Minus(e, prev)) == (FromLE(e) - FromLE(prev)) % Pow256(|e|)
  {
    hide LE, FromLE, Pow256;
    FromLEBound(e);
    LERoundTrip((FromLE(e) - FromLE(prev)) % Pow256(|e|), |e|);
  }

  method WriteElem(data: array<byte>, ts: nat, i: nat, e: seq<byte>)
    requires i * ts + ts <= data.Length && |e| == ts
    modifies data
    ensures data[..] == SetElem(old(data[..]), ts, i, e)
  {
    var at := i * ts;
    for k := 0 to ts
      invariant forall p :: 0 <= p < data.Length ==> data[p] == if at <= p < at + k then e[p - at] else old(data[p])
    {
      data[at + k] := e[k];
    }
  }

  method DeltaEncodeInPlace(data: array<byte>, ts: nat)
    modifies data
    ensures data[..] == DeltaEncode(old(data[..]), ts) && Differences(old(data[..]), ts, data[..])
  {
    hide Elem, SetElem, Minus, Differences;
    EncodesDifferences(data[..], ts);
    if !DeltaSize(ts) {
      return;
    }
    var n := data.Length / ts;
    if n <= 1 {
      return;
    }
    var i := n;
    while i > 1
      invariant 1 <= i <= n == Count(old(data[..]), ts)
      invariant data[..] == EncodeFrom(old(data[..]), ts, i)
    {
      i := i - 1;
      ElemFits(old(data[..]), ts, i);
      ElemFits(old(data[..]), ts, i - 1);
      WriteElem(data, ts, i, Minus(Elem(data[..], ts, i), Elem(data[..], ts, i - 1)));
    }
  }

  method DeltaDecodeInPlace(data: array<byte>, ts: nat)
    modifies data
    ensures data[..] == DeltaDecode(old(data[..]), ts)
  {
    hide Elem, SetElem, Plus;
    if !DeltaSize(ts) {
      return;
    }
    var n := data.Length / ts;
    if n <= 1 {
      return;
    }
    for i := 1 to n
      invariant n == Count(old(data[..]), ts)
      invariant data[..] == DecodeTo(old(data[..]), ts, i)
    {
      ElemFits(old(data[..]), ts, i);
      ElemFits(old(data[..]), ts, i - 1);
      WriteElem(data, ts, i, Plus(Elem(data[..], ts, i - 1), Elem(data[..], ts, i)));
    }
  }
}
