/** Allocation bitmaps as plain lists of bits: what each search and update means. */
module BitList {
  import opened LastWins

  /** `r` is the least clear bit at or after `from`, or there is none. */
  ghost predicate IsFirstFree(bits: seq<bool>, from: nat, r: Option<nat>) {
    match r
    case None => forall i :: from <= i < |bits| ==> bits[i]
    case Some(k) => from <= k < |bits| && !bits[k] && forall i :: from <= i < k ==> bits[i]
  }

  function FirstFree(bits: seq<bool>, from: nat): (r: Option<nat>)
    ensures IsFirstFree(bits, from, r)
    decreases |bits| - from
  {
    if from >= |bits| then None else if !bits[from] then Some(from) else FirstFree(bits, from + 1)
  }

  lemma FirstFreeUnique(bits: seq<bool>, from: nat, r: Option<nat>)
    requires IsFirstFree(bits, from, r)
    ensures r == FirstFree(bits, from)
  {
  }

  /** From the hint to the end, then from the start. */
  function NextFree(bits: seq<bool>, hint: nat): Option<nat> {
    var r := FirstFree(bits, hint);
    if r.Some? then r else FirstFree(bits, 0)
  }

  /** `r` is the least clear bit at or after the hint; if there is none, the least clear bit; if there is
      none either, no bit is clear. */
  ghost predicate IsNextFree(bits: seq<bool>, hint: nat, r: Option<nat>) {
    match r
    case None => forall i :: 0 <= i < |bits| ==> bits[i]
    case Some(k) =>
      && k < |bits| && !bits[k]
      && (k >= hint ==> forall i :: hint <= i < k ==> bits[i])
      && (k < hint ==> (forall i :: hint <= i < |bits| ==> bits[i]) && (forall i :: 0 <= i < k ==> bits[i]))
  }

  /** A search fails only when every bit is taken, and otherwise returns the clear bit next to the hint. */
  lemma NextFreeExact(bits: seq<bool>, hint: nat)
    ensures IsNextFree(bits, hint, NextFree(bits, hint))
    ensures NextFree(bits, hint).None? <==> forall i :: 0 <= i < |bits| ==> bits[i]
    ensures NextFree(bits, hint).Some? ==> NextFree(bits, hint).value < |bits| && !bits[NextFree(bits, hint).value]
  {
  }

  ghost predicate FreeRun(bits: seq<bool>, at: nat, count: nat) {
    at + count <= |bits| && forall i :: at <= i < at + count ==> !bits[i]
  }

  /** `r` is the least start, at or after `from`, of `count` clear bits, or there is none. */
  ghost predicate IsFirstFit(bits: seq<bool>, from: nat, count: nat, r: Option<nat>) {
    match r
    case None => forall s :: from <= s ==> !FreeRun(bits, s, count)
    case Some(k) => from <= k && FreeRun(bits, k, count) && forall s :: from <= s < k ==> !FreeRun(bits, s, count)
  }

  /** The bits with `count` of them, from `at`, set to `v`; what lies past the end is ignored. */
  function SetBits(bits: seq<bool>, at: nat, count: nat, v: bool): (r: seq<bool>)
    ensures |r| == |bits|
    ensures forall i :: 0 <= i < |bits| ==> r[i] == if at <= i < at + count then v else bits[i]
  {
    seq(|bits|, i requires 0 <= i < |bits| => if at <= i < at + count then v else bits[i])
  }

  function FirstFit(bits: seq<bool>, from: nat, count: nat): (r: Option<nat>)
    requires count > 0
    ensures IsFirstFit(bits, from, count, r)
    decreases |bits| - from
  {
    if from + count > |bits| then None
    else if forall i :: from <= i < from + count ==> !bits[i] then Some(from)
    else FirstFit(bits, from + 1, count)
  }

  lemma FirstFitUnique(bits: seq<bool>, from: nat, count: nat, r: Option<nat>)
    requires count > 0 && IsFirstFit(bits, from, count, r)
    ensures r == FirstFit(bits, from, count)
  {
    hide FreeRun, FirstFit;
  }

  function NextFit(bits: seq<bool>, hint: nat, count: nat): Option<nat>
    requires count > 0
  {
    var r := FirstFit(bits, hint, count);
    if r.Some? then r else FirstFit(bits, 0, count)
  }

  /** The same for `count` clear bits in a row. */
  ghost predicate IsNextFit(bits: seq<bool>, hint: nat, count: nat, r: Option<nat>) {
    match r
    case None => forall s: nat :: !FreeRun(bits, s, count)
    case Some(k) =>
      && FreeRun(bits, k, count)
      && (k >= hint ==> forall s :: hint <= s < k ==> !FreeRun(bits, s, count))
      && (k < hint ==>
            && (forall s: nat :: hint <= s ==> !FreeRun(bits, s, count))
            && (forall s: nat :: s < k ==> !FreeRun(bits, s, count)))
  }

  lemma NextFitExact(bits: seq<bool>, hint: nat, count: nat)
    requires count > 0
    ensures IsNextFit(bits, hint, count, NextFit(bits, hint, count))
  {
    hide FreeRun, FirstFit;
  }

  // ---------------------------------------------------------------------------
  // Counting
  // ---------------------------------------------------------------------------

  ghost function CountSet(bits: seq<bool>): nat {
    if bits == [] then 0 else CountSet(bits[..|bits| - 1]) + (if bits[|bits| - 1] then 1 else 0)
  }

  /** Setting a clear run adds its length to the count; clearing a set run takes it away again. */
  lemma {:induction false} CountChange(bits: seq<bool>, at: nat, count: nat, v: bool)
    requires at + count <= |bits| && forall i :: at <= i < at + count ==> bits[i] == !v
    ensures CountSet(SetBits(bits, at, count, v)) == if v then CountSet(bits) + count else CountSet(bits) - count
    decreases |bits|
  {
    if bits != [] {
      var n := |bits| - 1;
      var after := SetBits(bits, at, count, v);
      if count > 0 && at + count == |bits| {
        CountChange(bits[..n], at, count - 1, v);
        assert after[..n] == SetBits(bits[..n], at, count - 1, v);
      } else if count == 0 {
        assert after == bits;
      } else {
        CountChange(bits[..n], at, count, v);
        assert after[..n] == SetBits(bits[..n], at, count, v);
      }
    }
  }
}
