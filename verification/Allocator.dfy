/** The block allocator (src/allocator.rs) and the allocation simulator of the journaled write paths
    (src/journal.rs, `AllocSim`), with what every run of them keeps. */
module Allocator {
  import opened Bytes
  import opened LastWins
  import opened BitList
  import opened Bitmap

  /** Block ids below the offset carry no hint. */
  function HintBit(hint: Option<nat>, offset: nat): nat {
    if hint.Some? && hint.value >= offset then hint.value - offset else 0
  }

  /** `r` is the free block next to the hint; without a hint, or with one below the first block, the first. */
  ghost predicate NextTo(bits: seq<bool>, offset: nat, hint: Option<nat>, r: Option<nat>) {
    && (r.Some? ==> r.value >= offset)
    && IsNextFree(bits, if hint.None? || hint.value < offset then 0 else hint.value - offset,
                  if r.None? then None else Some(r.value - offset))
  }

  /** `r` starts the free run next to the hint. */
  ghost predicate RunNextTo(bits: seq<bool>, offset: nat, hint: Option<nat>, count: nat, r: Option<nat>) {
    && (r.Some? ==> r.value >= offset)
    && IsNextFit(bits, if hint.None? || hint.value < offset then 0 else hint.value - offset, count,
                 if r.None? then None else Some(r.value - offset))
  }

  class SimpleBlockAllocator {
    const data: array<Bits8>
    const offset: nat

    constructor (data: array<Bits8>, offset: nat)
      ensures this.data == data && this.offset == offset
    {
      this.data, this.offset := data, offset;
    }

    method AllocateWithHint(hint: Option<nat>) returns (r: Option<nat>)
      modifies data
      ensures var bits := old(BitsIn(data[..]));
              match NextFree(bits, HintBit(hint, offset))
              case None => r == None && BitsIn(data[..]) == bits
              case Some(bit) => r == Some(offset + bit) && BitsIn(data[..]) == SetBits(bits, bit, 1, true)
      ensures NextTo(old(BitsIn(data[..])), offset, hint, r)
    {
      hide BitsIn, SetBits, IsNextFree;
      var bit := FindNextFreeWrapped(data[..], HintBit(hint, offset));
      if bit.None? {
        return None;
      }
      ChangeBit(data, bit.value, true);
      return Some(offset + bit.value);
    }

    method AllocateContiguous(count: nat, hint: Option<nat>) returns (r: Option<nat>)
      modifies data
      ensures var bits := old(BitsIn(data[..]));
              if count == 0 then r == Some(if hint.Some? then hint.value else offset) && BitsIn(data[..]) == bits
              else match NextFit(bits, HintBit(hint, offset), count)
                case None => r == None && BitsIn(data[..]) == bits
                case Some(bit) => r == Some(offset + bit) && BitsIn(data[..]) == SetBits(bits, bit, count, true)
      ensures count > 0 ==> RunNextTo(old(BitsIn(data[..])), offset, hint, count, r)
    {
      hide BitsIn, SetBits, IsNextFit;
      if count == 0 {
        return Some(if hint.Some? then hint.value else offset);
      }
      NextFitExact(BitsIn(data[..]), HintBit(hint, offset), count);
      var bit := FindContiguousFreeWrapped(data[..], HintBit(hint, offset), count);
      if bit.None? {
        return None;
      }
      ChangeRange(data, bit.value, count, true);
      return Some(offset + bit.value);
    }

    method FreeContiguous(start: nat, count: nat)
      modifies data
      ensures BitsIn(data[..]) ==
              if count == 0 || start < offset then old(BitsIn(data[..]))
              else SetBits(old(BitsIn(data[..])), start - offset, count, false)
    {
      if count > 0 && start >= offset {
        ChangeRange(data, start - offset, count, false);
      }
    }

    method Free(block: nat)
      modifies data
      ensures BitsIn(data[..]) ==
              if block < offset then old(BitsIn(data[..])) else SetBits(old(BitsIn(data[..])), block - offset, 1, false)
    {
      if block >= offset {
        ChangeBit(data, block - offset, false);
      }
    }
  }

  // ---------------------------------------------------------------------------
  // Runs of allocations and matching frees
  // ---------------------------------------------------------------------------

  /** A run of bits handed out and not freed yet. */
  datatype Held = Held(at: nat, count: nat)

  datatype Request = One(hint: nat) | Many(hint: nat, count: nat) | Release(which: nat)

  ghost predicate Covers(h: Held, i: int) {
    h.at <= i < h.at + h.count
  }

  ghost predicate Apart(held: seq<Held>) {
    forall a, b, i :: 0 <= a < b < |held| && Covers(held[a], i) ==> !Covers(held[b], i)
  }

  ghost function Total(held: seq<Held>): nat {
    if held == [] then 0 else Total(held[..|held| - 1]) + held[|held| - 1].count
  }

  /** The set bits are exactly the blocks handed out, each to one owner. */
  ghost predicate Accounted(bits: seq<bool>, held: seq<Held>) {
    && Apart(held)
    && (forall a :: 0 <= a < |held| ==> held[a].at + held[a].count <= |bits|)
    && (forall i :: 0 <= i < |bits| ==> (bits[i] <==> exists a :: 0 <= a < |held| && Covers(held[a], i)))
    && CountSet(bits) == Total(held)
  }

  datatype AllocState = AllocState(bits: seq<bool>, held: seq<Held>)

  ghost function Serve(s: AllocState, q: Request): AllocState {
    match q
    case One(hint) =>
      (match NextFree(s.bits, hint)
       case None => s
       case Some(bit) => AllocState(SetBits(s.bits, bit, 1, true), s.held + [Held(bit, 1)]))
    case Many(hint, count) =>
      if count == 0 then s
      else (match NextFit(s.bits, hint, count)
            case None => s
            case Some(bit) => AllocState(SetBits(s.bits, bit, count, true), s.held + [Held(bit, count)]))
    case Release(w) =>
      if w < |s.held|
      then AllocState(SetBits(s.bits, s.held[w].at, s.held[w].count, false), s.held[..w] + s.held[w + 1..])
      else s
  }

  lemma GrantKeeps(bits: seq<bool>, held: seq<Held>, at: nat, count: nat)
    requires Accounted(bits, held) && FreeRun(bits, at, count)
    ensures Accounted(SetBits(bits, at, count, true), held + [Held(at, count)])
  {
    var bits', held' := SetBits(bits, at, count, true), held + [Held(at, count)];
    var n := |held|;
    CountChange(bits, at, count, true);
    assert held'[..n] == held;
    forall a, b, i | 0 <= a < b < |held'| && Covers(held'[a], i) ensures !Covers(held'[b], i) {
      assert held'[a] == held[a] && bits[i];
    }
    forall i | 0 <= i < |bits'| ensures bits'[i] <==> exists a :: 0 <= a < |held'| && Covers(held'[a], i) {
      if bits[i] {
        var a :| 0 <= a < |held| && Covers(held[a], i);
        assert Covers(held'[a], i);
      }
      if at <= i < at + count { assert Covers(held'[n], i); }
      if a :| 0 <= a < |held'| && Covers(held'[a], i) {
        if a < n { assert Covers(held[a], i); }
      }
    }
  }

  lemma {:induction false} TotalWithout(held: seq<Held>, w: nat)
    requires w < |held|
    ensures Total(held) == Total(held[..w] + held[w + 1..]) + held[w].count
  {
    var n := |held| - 1;
    if w == n {
      assert held[..w] + held[w + 1..] == held[..n];
    } else {
      TotalWithout(held[..n], w);
      var rest := held[..w] + held[w + 1..];
      assert rest[..|rest| - 1] == held[..n][..w] + held[..n][w + 1..];
    }
  }

  lemma DropOne(held: seq<Held>, w: nat)
    requires w < |held| && Apart(held)
    ensures var rest := held[..w] + held[w + 1..];
            && Apart(rest)
            && (forall a :: 0 <= a < |rest| ==> rest[a] == held[if a < w then a else a + 1])
            && (forall i :: (exists a :: 0 <= a < |rest| && Covers(rest[a], i)) <==>
                            (exists a :: 0 <= a < |held| && Covers(held[a], i)) && !Covers(held[w], i))
  {
    var rest := held[..w] + held[w + 1..];
    assert forall a :: 0 <= a < |rest| ==> rest[a] == held[if a < w then a else a + 1];
    forall i | exists a :: 0 <= a < |rest| && Covers(rest[a], i)
      ensures (exists a :: 0 <= a < |held| && Covers(held[a], i)) && !Covers(held[w], i)
    {
      var a :| 0 <= a < |rest| && Covers(rest[a], i);
      assert Covers(held[if a < w then a else a + 1], i);
    }
    forall i | (exists a :: 0 <= a < |held| && Covers(held[a], i)) && !Covers(held[w], i)
      ensures exists a :: 0 <= a < |rest| && Covers(rest[a], i)
    {
      var a :| 0 <= a < |held| && Covers(held[a], i);
      assert Covers(rest[if a < w then a else a - 1], i);
    }
  }

  lemma ReleaseKeeps(bits: seq<bool>, held: seq<Held>, w: nat)
    requires Accounted(bits, held) && w < |held|
    ensures Accounted(SetBits(bits, held[w].at, held[w].count, false), held[..w] + held[w + 1..])
  {
    hide Apart, CountSet, Total;
    var h := held[w];
    forall i | h.at <= i < h.at + h.count ensures bits[i] { assert Covers(held[w], i); }
    CountChange(bits, h.at, h.count, false);
    TotalWithout(held, w);
    DropOne(held, w);
    var after := SetBits(bits, h.at, h.count, false);
    assert forall i :: 0 <= i < |after| ==> after[i] == (bits[i] && !Covers(h, i));
  }

  lemma ServeKeeps(s: AllocState, q: Request)
    requires Accounted(s.bits, s.held)
    ensures Accounted(Serve(s, q).bits, Serve(s, q).held)
  {
    hide Accounted, FirstFree, FirstFit;
    match q
    case One(hint) => if NextFree(s.bits, hint).Some? { GrantKeeps(s.bits, s.held, NextFree(s.bits, hint).value, 1); }
    case Many(hint, count) =>
      if count > 0 && NextFit(s.bits, hint, count).Some? {
        GrantKeeps(s.bits, s.held, NextFit(s.bits, hint, count).value, count);
      }
    case Release(w) => if w < |s.held| { ReleaseKeeps(s.bits, s.held, w); }
  }

  ghost function ServeAll(s: AllocState, run: seq<Request>): AllocState
    decreases |run|
  {
    if run == [] then s else ServeAll(Serve(s, run[0]), run[1..])
  }

  /** In every run the outstanding runs stay disjoint, and the set bits are exactly theirs. */
  lemma {:induction false} EveryRunIsAccounted(s: AllocState, run: seq<Request>)
    requires Accounted(s.bits, s.held)
    ensures Accounted(ServeAll(s, run).bits, ServeAll(s, run).held)
    decreases |run|
  {
    hide Accounted, Serve;
    if run != [] {
      ServeKeeps(s, run[0]);
      EveryRunIsAccounted(Serve(s, run[0]), run[1..]);
    }
  }

  // ---------------------------------------------------------------------------
  // The simulator
  // ---------------------------------------------------------------------------

  /** What one simulated single-block allocation decides. */
  function SimAlloc(bits: seq<bool>, dataStart: nat, blockCount: nat, hint: nat): (r: Option<nat>)
    ensures r.Some? ==> dataStart <= r.value < blockCount
  {
    match NextFree(bits, HintBit(Some(hint), dataStart))
    case None => None
    case Some(bit) => if dataStart + bit >= blockCount then None else Some(dataStart + bit)
  }

  /** What one simulated allocation of `count` blocks in a row decides. */
  function SimFit(bits: seq<bool>, dataStart: nat, blockCount: nat, hint: nat, count: nat): (r: Option<nat>)
    requires count > 0
    ensures r.Some? ==> dataStart <= r.value && r.value + count <= blockCount && r.value + count <= dataStart + |bits|
  {
    match NextFit(bits, HintBit(Some(hint), dataStart), count)
    case None => None
    case Some(bit) => if dataStart + bit + count > blockCount then None else Some(dataStart + bit)
  }

  /** The block taken is the free one next to the hint, and nothing is taken exactly if that one lies past the
      end of the image or there is none. */
  lemma SimAllocIs(bits: seq<bool>, dataStart: nat, blockCount: nat, hint: nat)
    ensures exists r: Option<nat> :: NextTo(bits, dataStart, Some(hint), r) &&
              SimAlloc(bits, dataStart, blockCount, hint) == if r.Some? && r.value < blockCount then r else None
  {
    hide IsNextFree;
    NextFreeExact(bits, HintBit(Some(hint), dataStart));
    var k := NextFree(bits, HintBit(Some(hint), dataStart));
    assert NextTo(bits, dataStart, Some(hint), if k.None? then None else Some(dataStart + k.value));
  }

  lemma SimFitIs(bits: seq<bool>, dataStart: nat, blockCount: nat, hint: nat, count: nat)
    requires count > 0
    ensures exists r: Option<nat> :: RunNextTo(bits, dataStart, Some(hint), count, r) &&
              SimFit(bits, dataStart, blockCount, hint, count) ==
                if r.Some? && r.value + count <= blockCount then r else None
  {
    hide IsNextFit, FirstFit;
    NextFitExact(bits, HintBit(Some(hint), dataStart), count);
    var k := NextFit(bits, HintBit(Some(hint), dataStart), count);
    assert RunNextTo(bits, dataStart, Some(hint), count, if k.None? then None else Some(dataStart + k.value));
  }

  /** The blocks of a run. */
  function BlocksFrom(start: nat, count: nat): (r: set<nat>)
    ensures forall b :: b in r <==> start <= b < start + count
  {
    if count == 0 then {} else BlocksFrom(start, count - 1) + {start + count - 1}
  }

  class AllocSim {
    const dataBitmap: array<Bits8>
    const dataStart: nat
    const blockCount: nat
    var freeBlockHint: nat
    var freshBlocks: seq<nat>
    var freshSet: set<nat>
    var pointers: map<(nat, nat), u64>

    ghost predicate Valid()
      reads this
    {
      forall b :: b in freshSet <==> b in freshBlocks
    }

    constructor (bitmap: seq<Bits8>, dataStart: nat, blockCount: nat, hint: nat)
      ensures Valid() && fresh(dataBitmap) && dataBitmap[..] == bitmap
      ensures this.dataStart == dataStart && this.blockCount == blockCount && freeBlockHint == hint
      ensures freshBlocks == [] && freshSet == {} && pointers == map[]
    {
      this.dataBitmap := new Bits8[|bitmap|](i requires 0 <= i < |bitmap| => bitmap[i]);
      this.dataStart, this.blockCount, freeBlockHint := dataStart, blockCount, hint;
      freshBlocks, freshSet, pointers := [], {}, map[];
      new;
      assert dataBitmap[..] == bitmap;
    }

    method AllocBlock() returns (r: Option<nat>)
      requires Valid()
      modifies this`freeBlockHint, this`freshBlocks, this`freshSet, dataBitmap
      ensures Valid()
      ensures r == SimAlloc(old(BitsIn(dataBitmap[..])), dataStart, blockCount, old(freeBlockHint))
      ensures match r
              case None =>
                && BitsIn(dataBitmap[..]) == old(BitsIn(dataBitmap[..]))
                && freeBlockHint == old(freeBlockHint) && freshBlocks == old(freshBlocks) && freshSet == old(freshSet)
              case Some(blk) =>
                && BitsIn(dataBitmap[..]) == SetBits(old(BitsIn(dataBitmap[..])), blk - dataStart, 1, true)
                && freeBlockHint == blk + 1
                && freshBlocks == old(freshBlocks) + [blk] && freshSet == old(freshSet) + {blk}
    {
      hide BitsIn, SetBits;
      ghost var bits := BitsIn(dataBitmap[..]);
      var a := new SimpleBlockAllocator(dataBitmap, dataStart);
      var blk := a.AllocateWithHint(Some(freeBlockHint));
      if blk.None? {
        return None;
      }
      if blk.value >= blockCount {
        NextFreeExact(bits, HintBit(Some(freeBlockHint), dataStart));
        a.Free(blk.value);
        SetThenClear(bits, blk.value - dataStart);
        return None;
      }
      freeBlockHint := blk.value + 1;
      freshBlocks := freshBlocks + [blk.value];
      freshSet := freshSet + {blk.value};
      return blk;
    }

    method AllocContiguous(count: nat) returns (r: Option<nat>)
      requires Valid()
      modifies this`freeBlockHint, this`freshBlocks, this`freshSet, dataBitmap
      ensures Valid()
      ensures r == if count == 0 then Some(old(freeBlockHint))
                   else SimFit(old(BitsIn(dataBitmap[..])), dataStart, blockCount, old(freeBlockHint), count)
      ensures if r.None? || count == 0 then
                && BitsIn(dataBitmap[..]) == old(BitsIn(dataBitmap[..]))
                && freeBlockHint == old(freeBlockHint) && freshBlocks == old(freshBlocks) && freshSet == old(freshSet)
              else
                && BitsIn(dataBitmap[..]) == SetBits(old(BitsIn(dataBitmap[..])), r.value - dataStart, count, true)
                && freeBlockHint == r.value + count
                && freshSet == old(freshSet) + BlocksFrom(r.value, count)
    {
      hide BitsIn, SetBits, FirstFit;
      if count == 0 {
        return Some(freeBlockHint);
      }
      ghost var bits := BitsIn(dataBitmap[..]);
      var a := new SimpleBlockAllocator(dataBitmap, dataStart);
      var blk := a.AllocateContiguous(count, Some(freeBlockHint));
      if blk.None? {
        return None;
      }
      if blk.value + count > blockCount {
        a.FreeContiguous(blk.value, count);
        SetThenClearRun(bits, blk.value - dataStart, count);
        return None;
      }
      freeBlockHint := blk.value + count;
      ghost var data := dataBitmap[..];
      for i := 0 to count
        modifies this`freshBlocks, this`freshSet
        invariant Valid() && dataBitmap[..] == data
        invariant freshSet == old(freshSet) + BlocksFrom(blk.value, i)
      {
        freshBlocks := freshBlocks + [blk.value + i];
        freshSet := freshSet + {blk.value + i};
      }
      return blk;
    }

    method IsFresh(block: nat) returns (r: bool)
      requires Valid()
      ensures r == (block in freshSet)
    {
      if freshBlocks == [] {
        return false;
      }
      return block in freshSet;
    }

    method FreeContiguous(start: nat, count: nat)
      modifies this`freeBlockHint, dataBitmap
      ensures count == 0 ==>
                BitsIn(dataBitmap[..]) == old(BitsIn(dataBitmap[..])) && freeBlockHint == old(freeBlockHint)
      ensures count > 0 ==>
                && BitsIn(dataBitmap[..]) ==
                   (if start < dataStart then old(BitsIn(dataBitmap[..]))
                    else SetBits(old(BitsIn(dataBitmap[..])), start - dataStart, count, false))
                && freeBlockHint == if start < old(freeBlockHint) then start else old(freeBlockHint)
    {
      if count == 0 {
        return;
      }
      var a := new SimpleBlockAllocator(dataBitmap, dataStart);
      a.FreeContiguous(start, count);
      if start < freeBlockHint {
        freeBlockHint := start;
      }
    }
  }

  lemma SetThenClear(bits: seq<bool>, i: nat)
    requires i < |bits| && !bits[i]
    ensures SetBits(SetBits(bits, i, 1, true), i, 1, false) == bits
  {
  }

  lemma SetThenClearRun(bits: seq<bool>, at: nat, count: nat)
    requires FreeRun(bits, at, count)
    ensures SetBits(SetBits(bits, at, count, true), at, count, false) == bits
  {
  }

  // Runs of the simulator.

  datatype SimStep = SimTake | SimFree(start: nat, count: nat)

  datatype SimState = SimState(bits: seq<bool>, hint: nat)

  function SimNext(s: SimState, dataStart: nat, blockCount: nat, step: SimStep): SimState {
    match step
    case SimTake =>
      (match SimAlloc(s.bits, dataStart, blockCount, s.hint)
       case None => s
       case Some(blk) => SimState(SetBits(s.bits, blk - dataStart, 1, true), blk + 1))
    case SimFree(start, count) =>
      if count == 0 then s
      else SimState(if start < dataStart then s.bits else SetBits(s.bits, start - dataStart, count, false),
                    if start < s.hint then start else s.hint)
  }

  /** No free block lies below the hint. */
  ghost predicate HintIsTight(s: SimState, dataStart: nat) {
    forall i :: 0 <= i < |s.bits| && dataStart + i < s.hint ==> s.bits[i]
  }

  lemma SimStepKeepsHint(s: SimState, dataStart: nat, blockCount: nat, step: SimStep)
    requires HintIsTight(s, dataStart)
    ensures HintIsTight(SimNext(s, dataStart, blockCount, step), dataStart)
  {
    hide FirstFree;
    if step.SimTake? && SimAlloc(s.bits, dataStart, blockCount, s.hint).Some? {
      var h := HintBit(Some(s.hint), dataStart);
      assert IsFirstFree(s.bits, h, FirstFree(s.bits, h));
      assert IsFirstFree(s.bits, 0, FirstFree(s.bits, 0));
    }
  }

  ghost function SimRun(s: SimState, dataStart: nat, blockCount: nat, run: seq<SimStep>): SimState
    decreases |run|
  {
    if run == [] then s else SimRun(SimNext(s, dataStart, blockCount, run[0]), dataStart, blockCount, run[1..])
  }

  /** In every run of single allocations and frees that starts with a tight hint the hint stays
      tight, so a failing allocation means that no tracked block of the image is free. */
  lemma {:induction false} NoSpaceMeansFull(s: SimState, dataStart: nat, blockCount: nat, run: seq<SimStep>)
    requires HintIsTight(s, dataStart)
    ensures var t := SimRun(s, dataStart, blockCount, run);
            && HintIsTight(t, dataStart)
            && (SimAlloc(t.bits, dataStart, blockCount, t.hint).None? <==>
                forall i :: 0 <= i < |t.bits| && dataStart + i < blockCount ==> t.bits[i])
    decreases |run|
  {
    hide HintIsTight, SimNext;
    if run == [] {
      FailureMeansFull(s, dataStart, blockCount);
    } else {
      SimStepKeepsHint(s, dataStart, blockCount, run[0]);
      NoSpaceMeansFull(SimNext(s, dataStart, blockCount, run[0]), dataStart, blockCount, run[1..]);
    }
  }

  lemma FailureMeansFull(s: SimState, dataStart: nat, blockCount: nat)
    requires HintIsTight(s, dataStart)
    ensures SimAlloc(s.bits, dataStart, blockCount, s.hint).None? <==>
            forall i :: 0 <= i < |s.bits| && dataStart + i < blockCount ==> s.bits[i]
  {
    hide FirstFree;
    var h := HintBit(Some(s.hint), dataStart);
    var a, b := FirstFree(s.bits, h), FirstFree(s.bits, 0);
    assert IsFirstFree(s.bits, h, a) && IsFirstFree(s.bits, 0, b);
    forall i | 0 <= i < |s.bits| && dataStart + i < blockCount && SimAlloc(s.bits, dataStart, blockCount, s.hint).None?
      ensures s.bits[i]
    {
      if i >= h { assert a.Some? ==> i < a.value; }
    }
  }
}
