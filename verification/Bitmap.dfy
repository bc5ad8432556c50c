/** The bitmap code (src/bitmap.rs), byte by byte and word by word, against the plain list of bits.

    A byte or word is the sequence of its bits, least significant first. */
module Bitmap {
  import opened LastWins
  import opened BitList

  type Bits8 = s: seq<bool> | |s| == 8 witness seq(8, _ => false)

  /** The bit list a byte slice stands for. */
  function BitsIn(data: seq<Bits8>): (r: seq<bool>)
    ensures |r| == 8 * |data|
  {
    seq(8 * |data|, p requires 0 <= p < 8 * |data| => data[p / 8][p % 8])
  }

  lemma BitAt(data: seq<Bits8>, i: nat, j: nat)
    requires i < |data| && j < 8
    ensures BitsIn(data)[8 * i + j] == data[i][j]
  {
  }

  // Machine operations on words given as bits.

  /** `u64::from_le_bytes` of chunk `c`. */
  function Word(data: seq<Bits8>, c: nat): (w: seq<bool>)
    requires 8 * c + 8 <= |data|
    ensures |w| == 64
  {
    seq(64, p requires 0 <= p < 64 => data[8 * c + p / 8][p % 8])
  }

  lemma WordBits(data: seq<Bits8>, c: nat, p: nat)
    requires 8 * c + 8 <= |data| && p < 64
    ensures Word(data, c)[p] == BitsIn(data)[64 * c + p]
  {
    BitAt(data, 8 * c + p / 8, p % 8);
  }

  /** `(1 << k) - 1`, in a word of `n` bits. */
  function LowMask(n: nat, k: nat): (m: seq<bool>)
    ensures |m| == n
  {
    seq(n, i => i < k)
  }

  function Or(a: seq<bool>, b: seq<bool>): (r: seq<bool>)
    requires |a| == |b|
    ensures |r| == |a|
  {
    seq(|a|, i requires 0 <= i < |a| => a[i] || b[i])
  }

  function And(a: seq<bool>, b: seq<bool>): (r: seq<bool>)
    requires |a| == |b|
    ensures |r| == |a|
  {
    seq(|a|, i requires 0 <= i < |a| => a[i] && b[i])
  }

  function Not(a: seq<bool>): (r: seq<bool>)
    ensures |r| == |a|
  {
    seq(|a|, i requires 0 <= i < |a| => !a[i])
  }

  /** Left shift in a word of fixed width. */
  function Shl(a: seq<bool>, k: nat): (r: seq<bool>)
    ensures |r| == |a|
  {
    seq(|a|, i requires 0 <= i < |a| => i >= k && a[i - k])
  }

  predicate AllOnes(a: seq<bool>) {
    forall i :: 0 <= i < |a| ==> a[i]
  }

  predicate IsZero(a: seq<bool>) {
    forall i :: 0 <= i < |a| ==> !a[i]
  }

  /** Index of the lowest set bit; the width if there is none. */
  function TrailingZeros(a: seq<bool>): (k: nat)
    ensures k <= |a| && (k < |a| ==> a[k]) && forall i :: 0 <= i < k ==> !a[i]
  {
    if a == [] then 0 else if a[0] then 0 else 1 + TrailingZeros(a[1..])
  }

  /** Binary decrement: the borrow runs through the trailing zeros. */
  function Decrement(a: seq<bool>): (r: seq<bool>)
    ensures |r| == |a|
  {
    if a == [] then [] else if a[0] then [false] + a[1..] else [true] + Decrement(a[1..])
  }

  /** `w & (w - 1)` clears the lowest set bit and nothing else. */
  lemma {:induction false} ClearLowest(a: seq<bool>)
    requires !IsZero(a)
    ensures TrailingZeros(a) < |a|
    ensures And(a, Decrement(a)) == a[TrailingZeros(a) := false]
  {
    if a[0] {
      assert Decrement(a) == [false] + a[1..];
    } else {
      assert a == [a[0]] + a[1..];
      assert !IsZero(a[1..]);
      ClearLowest(a[1..]);
      var r := And(a, Decrement(a));
      assert Decrement(a) == [true] + Decrement(a[1..]);
      forall i | 0 <= i < |a| ensures r[i] == a[TrailingZeros(a) := false][i] {
        if i > 0 { assert And(a[1..], Decrement(a[1..]))[i - 1] == (a[1..][i - 1] && Decrement(a[1..])[i - 1]); }
      }
    }
  }

  // ---------------------------------------------------------------------------
  // Searching
  // ---------------------------------------------------------------------------

  /** The clear bit found in a masked word is the least one at or after the mask. */
  lemma MaskedWordFree(w: seq<bool>, k: nat)
    requires k <= |w|
    ensures var m := Or(w, LowMask(|w|, k));
            if AllOnes(m) then forall i :: k <= i < |w| ==> w[i]
            else
              var t := TrailingZeros(Not(m));
              k <= t < |w| && !w[t] && forall i :: k <= i < t ==> w[i]
  {
    var m := Or(w, LowMask(|w|, k));
    if AllOnes(m) {
      forall i | k <= i < |w| ensures w[i] { assert m[i]; }
    } else {
      var t := TrailingZeros(Not(m));
      var z :| 0 <= z < |m| && !m[z];
      assert Not(m)[z];
      assert t <= z;
      assert Not(m)[t] && !m[t];
      forall i | k <= i < t ensures w[i] { assert !Not(m)[i] && m[i]; }
    }
  }

  method FindFirstFreeFrom(data: seq<Bits8>, start: nat) returns (r: Option<nat>)
    ensures r == FirstFree(BitsIn(data), start)
  {
    hide FirstFree, Or, Not, AllOnes, TrailingZeros, LowMask, Word, BitsIn;
    ghost var bits := BitsIn(data);
    if start >= 8 * |data| {
      FirstFreeUnique(bits, start, None);
      return None;
    }
    var chunks := |data| / 8;
    var c := start / 64;
    if c < chunks {
      // the first word is masked below the start, the following ones are not
      var k := start % 64;
      while c < chunks
        invariant start / 64 <= c <= chunks
        invariant k == (if c == start / 64 then start % 64 else 0)
        invariant forall i :: start <= i < 64 * c ==> bits[i]
      {
        var w := Word(data, c);
        var masked := Or(w, LowMask(64, k));
        MaskedWordFree(w, k);
        WordIsSlice(data, c);
        if !AllOnes(masked) {
          var bit := TrailingZeros(Not(masked));
          assert !bits[64 * c + bit];
          forall i | start <= i < 64 * c + bit ensures bits[i] { if i >= 64 * c { assert w[i - 64 * c]; } }
          FirstFreeUnique(bits, start, Some(64 * c + bit));
          return Some(64 * c + bit);
        }
        forall i | start <= i < 64 * (c + 1) ensures bits[i] { if i >= 64 * c { assert w[i - 64 * c]; } }
        c, k := c + 1, 0;
      }
    }
    // remainder bytes
    var base := chunks * 64;
    var b := if start > base then (start - base) / 8 else 0;
    while chunks * 8 + b < |data|
      invariant chunks * 8 + b <= |data|
      invariant forall i :: start <= i < base + 8 * b ==> bits[i]
      invariant start < base + 8 * b + 8
    {
      var byte := data[chunks * 8 + b];
      var off := base + 8 * b;
      var k := if start > off then start - off else 0;
      var masked := Or(byte, LowMask(8, k));
      MaskedWordFree(byte, k);
      ByteIsSlice(data, chunks * 8 + b);
      if !AllOnes(masked) {
        var bit := TrailingZeros(Not(masked));
        assert !bits[off + bit];
        forall i | start <= i < off + bit ensures bits[i] { if i >= off { assert byte[i - off]; } }
        FirstFreeUnique(bits, start, Some(off + bit));
        return Some(off + bit);
      }
      forall i | start <= i < off + 8 ensures bits[i] { if i >= off { assert byte[i - off]; } }
      b := b + 1;
    }
    FirstFreeUnique(bits, start, None);
    return None;
  }

  lemma WordIsSlice(data: seq<Bits8>, c: nat)
    requires 8 * c + 8 <= |data|
    ensures Word(data, c) == BitsIn(data)[64 * c..64 * c + 64]
  {
    hide BitsIn, Word;
    forall p | 0 <= p < 64 ensures Word(data, c)[p] == BitsIn(data)[64 * c + p] { WordBits(data, c, p); }
  }

  lemma ByteIsSlice(data: seq<Bits8>, i: nat)
    requires i < |data|
    ensures data[i] == BitsIn(data)[8 * i..8 * i + 8]
  {
    hide BitsIn;
    forall j | 0 <= j < 8 ensures data[i][j] == BitsIn(data)[8 * i + j] { BitAt(data, i, j); }
  }

  /** Wraps around to 0 when nothing is free from the hint on. */
  method FindNextFreeWrapped(data: seq<Bits8>, hint: nat) returns (r: Option<nat>)
    ensures r == NextFree(BitsIn(data), hint) && IsNextFree(BitsIn(data), hint, r)
  {
    NextFreeExact(BitsIn(data), hint);
    r := FindFirstFreeFrom(data, hint);
    if r.None? && hint > 0 {
      r := FindFirstFreeFrom(data, 0);
      if r.Some? && r.value >= hint { r := None; }
    }
  }

  /** The same inside `[0, limit)`: fails only when no bit of that range is free. */
  method FindNextFreeBounded(data: seq<Bits8>, start0: nat, limit: nat) returns (r: Option<nat>)
    ensures r.Some? ==> r.value < limit && r.value < |BitsIn(data)| && !BitsIn(data)[r.value]
    ensures r.None? ==> forall i :: 0 <= i < limit && i < |BitsIn(data)| ==> BitsIn(data)[i]
    ensures r.Some? && r.value >= start0 ==> forall i :: start0 <= i < r.value ==> BitsIn(data)[i]
    ensures r.Some? && r.value < start0 ==>
              && (forall i :: start0 <= i < limit && i < |BitsIn(data)| ==> BitsIn(data)[i])
              && (forall i :: 0 <= i < r.value ==> BitsIn(data)[i])
  {
    if limit == 0 {
      return None;
    }
    var start := if start0 < limit then start0 else limit;
    r := FindFirstFreeFrom(data, start);
    if r.Some? && r.value < limit {
      return r;
    }
    ghost var first := r;
    r := FindFirstFreeFrom(data, 0);
    if r.Some? && r.value >= start { r := None; }
  }

  /** Exact first fit: jump to the next clear bit, extend the run, restart after the bit that ends it. */
  method FindContiguousFreeFrom(data: seq<Bits8>, start0: nat, count: nat) returns (r: Option<nat>)
    ensures count > 0 ==> IsFirstFit(BitsIn(data), start0, count, r)
    ensures count == 0 ==> r == if start0 <= 8 * |data| then Some(start0) else None
  {
    hide BitsIn, FirstFree;
    ghost var bits := BitsIn(data);
    var total := 8 * |data|;
    if count == 0 {
      return if start0 <= total then Some(start0) else None;
    }
    if count > total || start0 >= total {
      return None;
    }
    if count == 1 {
      r := FindFirstFreeFrom(data, start0);
      SingleFit(bits, start0, r);
      return;
    }
    var start := start0;
    while start + count <= total
      invariant start0 <= start
      invariant forall s :: start0 <= s < start ==> !FreeRun(bits, s, count)
      decreases total + count - start
    {
      var f := FindFirstFreeFrom(data, start);
      if f.None? {
        NoFitWithoutFree(bits, start, count);
        return None;
      }
      var candidate := f.value;
      NoFitBefore(bits, start, candidate, count);
      if candidate + count > total {
        return None;
      }
      var i := 1;
      while i < count && !IsSet(data, candidate + i)
        invariant 1 <= i <= count
        invariant forall j :: candidate <= j < candidate + i ==> !bits[j]
      {
        i := i + 1;
      }
      if i == count {
        return Some(candidate);
      }
      assert bits[candidate + i];
      assert forall s :: candidate <= s <= candidate + i ==> !FreeRun(bits, s, count);
      start := candidate + i + 1;
    }
    return None;
  }

  function IsSet(data: seq<Bits8>, i: nat): (r: bool)
    ensures r == (i < |BitsIn(data)| && BitsIn(data)[i])
  {
    i / 8 < |data| && data[i / 8][i % 8]
  }

  lemma SingleFit(bits: seq<bool>, from: nat, r: Option<nat>)
    requires r == FirstFree(bits, from)
    ensures IsFirstFit(bits, from, 1, r)
  {
    forall s | from <= s && (r.None? || s < r.value) ensures !FreeRun(bits, s, 1) {
      if s < |bits| { assert bits[s]; }
    }
  }

  lemma NoFitWithoutFree(bits: seq<bool>, from: nat, count: nat)
    requires count > 0 && FirstFree(bits, from).None?
    ensures forall s :: from <= s ==> !FreeRun(bits, s, count)
  {
    forall s | from <= s ensures !FreeRun(bits, s, count) {
      if s < |bits| { assert bits[s]; }
    }
  }

  lemma NoFitBefore(bits: seq<bool>, from: nat, k: nat, count: nat)
    requires count > 0 && FirstFree(bits, from) == Some(k)
    ensures k < |bits| && !bits[k] && from <= k
    ensures forall s :: from <= s < k ==> !FreeRun(bits, s, count)
  {
    forall s | from <= s < k ensures !FreeRun(bits, s, count) { assert bits[s]; }
  }

  /** First fit from the hint, then from 0. */
  method FindContiguousFreeWrapped(data: seq<Bits8>, hint: nat, count: nat) returns (r: Option<nat>)
    ensures r == if count == 0 then Some(if hint <= 8 * |data| then hint else 0) else NextFit(BitsIn(data), hint, count)
  {
    hide FreeRun, FirstFit, BitsIn;
    r := FindContiguousFreeFrom(data, hint, count);
    if count > 0 { FirstFitUnique(BitsIn(data), hint, count, r); }
    if r.None? && hint > 0 {
      r := FindContiguousFreeFrom(data, 0, count);
      if count > 0 { FirstFitUnique(BitsIn(data), 0, count, r); }
      if r.Some? && r.value >= hint { r := None; }
    }
  }

  // ---------------------------------------------------------------------------
  // Iterating
  // ---------------------------------------------------------------------------

  /** The set bits of `bits` below `limit`, in increasing order. */
  ghost function SetBitsBelow(bits: seq<bool>, limit: nat): seq<nat> {
    if limit == 0 then []
    else SetBitsBelow(bits, limit - 1) + (if limit - 1 < |bits| && bits[limit - 1] then [limit - 1] else [])
  }

  lemma {:induction false} SetBitsBelowGap(bits: seq<bool>, a: nat, b: nat)
    requires a <= b && forall i :: a <= i < b && i < |bits| ==> !bits[i]
    ensures SetBitsBelow(bits, b) == SetBitsBelow(bits, a)
    decreases b
  {
    if a < b { SetBitsBelowGap(bits, a, b - 1); }
  }

  lemma SetBitsBelowStep(bits: seq<bool>, a: nat, b: nat)
    requires a <= b < |bits| && bits[b] && forall i :: a <= i < b ==> !bits[i]
    ensures SetBitsBelow(bits, b + 1) == SetBitsBelow(bits, a) + [b]
  {
    SetBitsBelowGap(bits, a, b);
  }

  /** Emits the set bits of one word (or byte), lowest first, by clearing them one after another. */
  method EmitWord(w0: seq<bool>, base: nat, limit: nat, seen0: seq<nat>, ghost bits: seq<bool>) returns (seen: seq<nat>)
    requires base + |w0| <= |bits| && w0 == bits[base..base + |w0|]
    requires seen0 == SetBitsBelow(bits, if base <= limit then base else limit)
    ensures seen == SetBitsBelow(bits, if base + |w0| <= limit then base + |w0| else limit)
  {
    hide And, Decrement, SetBitsBelow, TrailingZeros;
    var w := w0;
    seen := seen0;
    ghost var done := 0;
    while !IsZero(w)
      invariant |w| == |w0| && 0 <= done <= |w0|
      invariant forall i :: 0 <= i < |w0| ==> w[i] == (w0[i] && i >= done)
      invariant seen == SetBitsBelow(bits, if base + done <= limit then base + done else limit)
      decreases |w0| - done
    {
      var bit := TrailingZeros(w);
      ClearLowest(w);
      assert done <= bit && w0[bit];
      assert bits[base + bit];
      forall i | base + done <= i < base + bit ensures !bits[i] { assert !w[i - base]; }
      if base + bit < limit {
        seen := seen + [base + bit];
        SetBitsBelowStep(bits, base + done, base + bit);
      } else if base + done <= limit {
        SetBitsBelowGap(bits, base + done, limit);
      }
      w := And(w, Decrement(w));
      done := bit + 1;
    }
    forall i | base + done <= i < base + |w0| ensures !bits[i] { assert !w[i - base]; }
    if base + |w0| <= limit {
      SetBitsBelowGap(bits, base + done, base + |w0|);
    } else if base + done <= limit {
      SetBitsBelowGap(bits, base + done, limit);
    }
  }

  /** Visits exactly the set bits below `limit`, in increasing order. */
  method ForEachSetBit(data: seq<Bits8>, limit: nat) returns (seen: seq<nat>)
    ensures seen == SetBitsBelow(BitsIn(data), limit)
  {
    hide BitsIn, SetBitsBelow, Word;
    ghost var bits := BitsIn(data);
    var bytes := if (limit + 7) / 8 <= |data| then (limit + 7) / 8 else |data|;
    var chunks := bytes / 8;
    NoneSeen(bits);
    seen := [];
    for c := 0 to chunks
      invariant seen == SetBitsBelow(bits, if 64 * c <= limit then 64 * c else limit)
    {
      WordIsSlice(data, c);
      seen := EmitWord(Word(data, c), 64 * c, limit, seen, bits);
    }
    for b := 8 * chunks to bytes
      invariant seen == SetBitsBelow(bits, if 8 * b <= limit then 8 * b else limit)
    {
      ByteIsSlice(data, b);
      seen := EmitWord(data[b], 8 * b, limit, seen, bits);
    }
    if 8 * bytes < limit {
      SetBitsBelowGap(bits, 8 * bytes, limit);
    }
  }

  lemma NoneSeen(bits: seq<bool>)
    ensures SetBitsBelow(bits, 0) == []
  {
  }

  // ---------------------------------------------------------------------------
  // Ranges
  // ---------------------------------------------------------------------------

  /** `byte | mask` or `byte & !mask`. */
  function Masked(byte: Bits8, mask: Bits8, v: bool): Bits8 {
    if v then Or(byte, mask) else And(byte, Not(mask))
  }

  lemma MaskedBit(byte: Bits8, mask: Bits8, v: bool, j: nat)
    requires j < 8
    ensures Masked(byte, mask, v)[j] == if mask[j] then v else byte[j]
  {
  }

  const OnesByte: Bits8 := [true, true, true, true, true, true, true, true]
  const ZeroByte: Bits8 := [false, false, false, false, false, false, false, false]

  /** `set_range` (`v`) and `clear_range` (`!v`): head byte, whole bytes, tail byte. */
  method ChangeRange(data: array<Bits8>, start: nat, count: nat, v: bool)
    modifies data
    ensures BitsIn(data[..]) == SetBits(old(BitsIn(data[..])), start, count, v)
  {
    ghost var before := data[..];
    var total := 8 * data.Length;
    var end := if start + count <= total then start + count else total;
    if count == 0 || start >= end {
      ByBytes(before, data[..], start, count, v);
      return;
    }
    var startByte, endByte := start / 8, end / 8;
    if startByte == endByte {
      var mask: Bits8 := Shl(LowMask(8, end - start), start % 8);
      data[startByte] := Masked(data[startByte], mask, v);
      OneByteChanged(before, data[..], start, count, end, v);
      return;
    }
    var headRem := start % 8;
    if headRem != 0 {
      data[startByte] := Masked(data[startByte], Shl(OnesByte, headRem), v);
    }
    var midStart := if headRem != 0 then startByte + 1 else startByte;
    for i := midStart to endByte
      invariant forall k :: 0 <= k < data.Length && (k < startByte || k >= i) ==> data[k] == before[k]
      invariant headRem != 0 ==> data[startByte] == Masked(before[startByte], Shl(OnesByte, headRem), v)
      invariant forall k :: midStart <= k < i ==> data[k] == if v then OnesByte else ZeroByte
    {
      data[i] := if v then OnesByte else ZeroByte;
    }
    var tailRem := end % 8;
    if tailRem != 0 && endByte < data.Length {
      data[endByte] := Masked(data[endByte], LowMask(8, tailRem), v);
    }
    SpanChanged(before, data[..], start, count, end, v);
  }

  /** It is enough to look at every bit of every byte. */
  lemma ByBytes(before: seq<Bits8>, after: seq<Bits8>, start: nat, count: nat, v: bool)
    requires |after| == |before|
    requires forall i, j :: 0 <= i < |before| && 0 <= j < 8 ==>
               after[i][j] == if start <= 8 * i + j < start + count then v else before[i][j]
    ensures BitsIn(after) == SetBits(BitsIn(before), start, count, v)
  {
    var a, b := BitsIn(after), SetBits(BitsIn(before), start, count, v);
    forall p | 0 <= p < |a| ensures a[p] == b[p] {
      assert p == 8 * (p / 8) + p % 8;
      assert a[p] == after[p / 8][p % 8];
    }
  }

  lemma OneByteChanged(before: seq<Bits8>, after: seq<Bits8>, start: nat, count: nat, end: nat, v: bool)
    requires |after| == |before| && start < end
    requires end == (if start + count <= 8 * |before| then start + count else 8 * |before|)
    requires start / 8 == end / 8
    requires after == before[start / 8 := Masked(before[start / 8], Shl(LowMask(8, end - start), start % 8), v)]
    ensures BitsIn(after) == SetBits(BitsIn(before), start, count, v)
  {
    hide BitsIn, Masked;
    var mask: Bits8 := Shl(LowMask(8, end - start), start % 8);
    forall i, j | 0 <= i < |before| && 0 <= j < 8
      ensures after[i][j] == if start <= 8 * i + j < start + count then v else before[i][j]
    {
      if i == start / 8 { MaskedBit(before[i], mask, v, j); }
    }
    ByBytes(before, after, start, count, v);
  }

  lemma SpanChanged(before: seq<Bits8>, after: seq<Bits8>, start: nat, count: nat, end: nat, v: bool)
    requires |after| == |before| && start < end
    requires end == (if start + count <= 8 * |before| then start + count else 8 * |before|)
    requires start / 8 < end / 8
    requires forall k :: 0 <= k < |before| ==>
               after[k] ==
               if k == start / 8 && start % 8 != 0 then Masked(before[k], Shl(OnesByte, start % 8), v)
               else if start / 8 <= k < end / 8 then (if v then OnesByte else ZeroByte)
               else if k == end / 8 && end % 8 != 0 then Masked(before[k], LowMask(8, end % 8), v)
               else before[k]
    ensures BitsIn(after) == SetBits(BitsIn(before), start, count, v)
  {
    hide BitsIn, Masked;
    forall i, j | 0 <= i < |before| && 0 <= j < 8
      ensures after[i][j] == if start <= 8 * i + j < start + count then v else before[i][j]
    {
      if i == start / 8 && start % 8 != 0 {
        MaskedBit(before[i], Shl(OnesByte, start % 8), v, j);
        assert OnesByte[if j >= start % 8 then j - start % 8 else 0];
      } else if i == end / 8 && end % 8 != 0 && i >= end / 8 {
        MaskedBit(before[i], LowMask(8, end % 8), v, j);
      }
    }
    ByBytes(before, after, start, count, v);
  }

  /** `set`/`clear` of one bit; indices past the end are ignored. */
  method ChangeBit(data: array<Bits8>, index: nat, v: bool)
    modifies data
    ensures BitsIn(data[..]) == SetBits(old(BitsIn(data[..])), index, 1, v)
  {
    ghost var before := data[..];
    if index / 8 < data.Length {
      data[index / 8] := data[index / 8][index % 8 := v];
    }
    ByBytes(before, data[..], index, 1, v);
  }
}
