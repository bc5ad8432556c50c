/** Reading a file through the walk: block by block, through coalesced extents, and through io_uring
    (src/disk.rs, `read_data_internal`; src/io_engine.rs, `ExtentList`). */
module WalkRead {
  import opened Sizes
  import opened Bytes
  import opened PointerTree
  import opened Uring
  import opened Walk

  // ---------------------------------------------------------------------------
  // The payload
  // ---------------------------------------------------------------------------

  predicate Backed(s: Source, p: nat) {
    Usable(s, BlockOf(s, p / BLOCK_SIZE)) && InMap(s.img, BlockOf(s, p / BLOCK_SIZE))
  }

  function SourceOf(s: Source, p: nat): nat {
    BlockOf(s, p / BLOCK_SIZE) * BLOCK_SIZE + p % BLOCK_SIZE
  }

  lemma SourceInside(s: Source, p: nat)
    requires Backed(s, p)
    ensures SourceOf(s, p) < |s.img|
  {
    hide BlockOf;
  }

  /** The bytes of the file: each from the block its index resolves to, zero in a hole. */
  function PayloadByte(s: Source, p: nat): byte {
    if Backed(s, p) then SourceInside(s, p); s.img[SourceOf(s, p)] else 0
  }

  function Payload(s: Source): (r: seq<byte>)
    ensures |r| == s.size && forall p :: 0 <= p < s.size ==> r[p] == PayloadByte(s, p)
  {
    seq(s.size, p requires 0 <= p => PayloadByte(s, p))
  }

  // ---------------------------------------------------------------------------
  // The walk as a list of byte copies
  // ---------------------------------------------------------------------------

  ghost function OnePairs(img: seq<byte>, e: Emit): seq<(nat, nat)> {
    if InMap(img, e.block) then Pairs(e.offset, e.block * BLOCK_SIZE, e.len) else []
  }

  ghost function EmitPairs(img: seq<byte>, es: seq<Emit>): seq<(nat, nat)> {
    if es == [] then [] else EmitPairs(img, es[..|es| - 1]) + OnePairs(img, es[|es| - 1])
  }

  lemma {:induction false} EmitPairsConcat(img: seq<byte>, a: seq<Emit>, b: seq<Emit>)
    ensures EmitPairs(img, a + b) == EmitPairs(img, a) + EmitPairs(img, b)
  {
    if b == [] {
      assert a + b == a;
      assert EmitPairs(img, a) + [] == EmitPairs(img, a);
    } else {
      assert (a + b)[..|a + b| - 1] == a + b[..|b| - 1];
      EmitPairsConcat(img, a, b[..|b| - 1]);
    }
  }

  ghost function WalkPairs(s: Source, n: nat): seq<(nat, nat)> {
    EmitPairs(s.img, SimpleWalk(s, n))
  }

  ghost function StepPairs(s: Source, k: nat): seq<(nat, nat)> {
    EmitPairs(s.img, EmitAt(s, k))
  }

  /** The copies of index `k`: one per backed byte of its block. */
  lemma StepPairsAre(s: Source, k: nat)
    ensures forall i :: 0 <= i < |StepPairs(s, k)| ==>
              var p := StepPairs(s, k)[i];
              p.0 == k * BLOCK_SIZE + i && i < BLOCK_SIZE && p.0 < s.size && Backed(s, p.0) && p.1 == SourceOf(s, p.0)
    ensures forall a :: k * BLOCK_SIZE <= a < k * BLOCK_SIZE + BLOCK_SIZE && a < s.size && Backed(s, a) ==>
              a - k * BLOCK_SIZE < |StepPairs(s, k)| && StepPairs(s, k)[a - k * BLOCK_SIZE] == (a, SourceOf(s, a))
  {
    hide BlockOf, EmitAt, EmitPairs, InMap, Usable;
    StepPairsValue(s, k);
    assert forall a :: k * BLOCK_SIZE <= a < k * BLOCK_SIZE + BLOCK_SIZE ==>
        a / BLOCK_SIZE == k && a % BLOCK_SIZE == a - k * BLOCK_SIZE;
  }

  lemma StepPairsValue(s: Source, k: nat)
    ensures StepPairs(s, k) ==
            if k * BLOCK_SIZE < s.size && Usable(s, BlockOf(s, k)) && InMap(s.img, BlockOf(s, k))
            then Pairs(k * BLOCK_SIZE, BlockOf(s, k) * BLOCK_SIZE, Min(s.size - k * BLOCK_SIZE, BLOCK_SIZE))
            else []
  {
    hide BlockOf, Pairs, InMap, Usable;
    var es := EmitAt(s, k);
    assert EmitPairs(s.img, []) == [];
    if es != [] {
      assert es[..|es| - 1] == [];
      assert [] + OnePairs(s.img, es[0]) == OnePairs(s.img, es[0]);
    }
  }

  lemma {:induction false} WalkPairsAre(s: Source, n: nat)
    ensures forall i :: 0 <= i < |WalkPairs(s, n)| ==>
              var p := WalkPairs(s, n)[i];
              p.0 < n * BLOCK_SIZE && p.0 < s.size && Backed(s, p.0) && p.1 == SourceOf(s, p.0)
    ensures forall a :: 0 <= a < n * BLOCK_SIZE && a < s.size && Backed(s, a) ==> (a, SourceOf(s, a)) in WalkPairs(s, n)
    ensures DistinctAddresses(WalkPairs(s, n))
  {
    hide Backed, SourceOf, EmitPairs, EmitAt;
    if n > 0 {
      WalkPairsAre(s, n - 1);
      StepPairsAre(s, n - 1);
      EmitPairsConcat(s.img, SimpleWalk(s, n - 1), EmitAt(s, n - 1));
      assert WalkPairs(s, n) == WalkPairs(s, n - 1) + StepPairs(s, n - 1);
      forall a | 0 <= a < n * BLOCK_SIZE && a < s.size && Backed(s, a) ensures (a, SourceOf(s, a)) in WalkPairs(s, n) {
        if a >= (n - 1) * BLOCK_SIZE {
          assert StepPairs(s, n - 1)[a - (n - 1) * BLOCK_SIZE] == (a, SourceOf(s, a));
        }
      }
    } else {
      assert WalkPairs(s, 0) == [] by { NoPairs(s); }
    }
  }

  lemma NoPairs(s: Source)
    ensures WalkPairs(s, 0) == []
  {
  }

  lemma BeyondLast(s: Source, p: nat)
    requires p >= MAX_LOGICAL_BLOCKS * BLOCK_SIZE
    ensures !Backed(s, p)
  {
  }

  /** A zeroed buffer into which exactly these copies went is the payload. */
  lemma DeliveredIsPayload(s: Source, buf: seq<byte>)
    requires |buf| == s.size
    requires forall p :: p in WalkPairs(s, MAX_LOGICAL_BLOCKS) ==>
               p.0 < |buf| && p.1 < |s.img| && buf[p.0] == s.img[p.1]
    requires forall a :: 0 <= a < |buf| && (forall p :: p in WalkPairs(s, MAX_LOGICAL_BLOCKS) ==> p.0 != a) ==>
               buf[a] == 0
    ensures buf == Payload(s)
  {
    hide Backed, SourceOf, WalkPairs;
    WalkPairsAre(s, MAX_LOGICAL_BLOCKS);
    forall a | 0 <= a < |buf| ensures buf[a] == PayloadByte(s, a) {
      if Backed(s, a) {
        if a >= MAX_LOGICAL_BLOCKS * BLOCK_SIZE { BeyondLast(s, a); }
        assert (a, SourceOf(s, a)) in WalkPairs(s, MAX_LOGICAL_BLOCKS);
      }
    }
  }

  // ---------------------------------------------------------------------------
  // Byte copies
  // ---------------------------------------------------------------------------

  /** The buffer after the copies, one after the other. */
  ghost function WriteAll(buf: seq<byte>, img: seq<byte>, pairs: seq<(nat, nat)>): (r: seq<byte>)
    requires Inside(pairs, |buf|, |img|)
    ensures |r| == |buf|
  {
    if pairs == [] then buf
    else
      var n := |pairs| - 1;
      WriteAll(buf, img, pairs[..n])[pairs[n].0 := img[pairs[n].1]]
  }

  lemma {:induction false} WriteAllDelivers(buf: seq<byte>, img: seq<byte>, pairs: seq<(nat, nat)>)
    requires Inside(pairs, |buf|, |img|) && DistinctAddresses(pairs)
    ensures forall p :: p in pairs ==> WriteAll(buf, img, pairs)[p.0] == img[p.1]
    ensures forall a :: 0 <= a < |buf| && (forall p :: p in pairs ==> p.0 != a) ==>
              WriteAll(buf, img, pairs)[a] == buf[a]
  {
    if pairs != [] {
      var n := |pairs| - 1;
      WriteAllDelivers(buf, img, pairs[..n]);
      assert pairs == pairs[..n] + [pairs[n]];
      forall a | 0 <= a < |buf| && (forall p :: p in pairs ==> p.0 != a)
        ensures WriteAll(buf, img, pairs)[a] == buf[a]
      {
        assert pairs[n] in pairs;
      }
    }
  }

  method CopyRun(buf: array<byte>, img: seq<byte>, dst: nat, src: nat, len: nat,
                 ghost before: seq<byte>, ghost copied: seq<(nat, nat)>)
    requires dst + len <= buf.Length == |before| && src + len <= |img| && Inside(copied, |before|, |img|)
    requires buf[..] == WriteAll(before, img, copied)
    modifies buf
    ensures Inside(copied + Pairs(dst, src, len), |before|, |img|)
    ensures buf[..] == WriteAll(before, img, copied + Pairs(dst, src, len))
  {
    hide WriteAll;
    assert copied + Pairs(dst, src, 0) == copied;
    for k := 0 to len
      invariant Inside(copied + Pairs(dst, src, k), |before|, |img|)
      invariant buf[..] == WriteAll(before, img, copied + Pairs(dst, src, k))
    {
      assert copied + Pairs(dst, src, k + 1) == copied + Pairs(dst, src, k) + [(dst + k, src + k)];
      WriteOneMore(before, img, copied + Pairs(dst, src, k), (dst + k, src + k));
      buf[dst + k] := img[src + k];
    }
  }

  lemma WriteOneMore(buf: seq<byte>, img: seq<byte>, pairs: seq<(nat, nat)>, p: (nat, nat))
    requires Inside(pairs, |buf|, |img|) && p.0 < |buf| && p.1 < |img|
    ensures Inside(pairs + [p], |buf|, |img|)
    ensures WriteAll(buf, img, pairs + [p]) == WriteAll(buf, img, pairs)[p.0 := img[p.1]]
  {
    assert (pairs + [p])[..|pairs|] == pairs;
  }

  // ---------------------------------------------------------------------------
  // Extents
  // ---------------------------------------------------------------------------

  const USIZE_MAX := 0xFFFF_FFFF_FFFF_FFFF

  /** `f` goes on, in the image and in the buffer, exactly where `e` ends. */
  predicate Continues(e: Extent, f: Extent) {
    e.diskOffset + e.len == f.diskOffset && e.bufOffset + e.len == f.bufOffset && e.len + f.len <= USIZE_MAX
  }

  class ExtentList {
    var extents: seq<Extent>

    constructor ()
      ensures extents == [] && Coalesced()
    {
      extents := [];
    }

    /** No two neighbours could be one extent. */
    ghost predicate Coalesced()
      reads this
    {
      forall i :: 0 <= i < |extents| - 1 ==> !Continues(extents[i], extents[i + 1])
    }

    /** Adds the copies of the transfer and no others, and keeps the list coalesced. */
    method Push(diskOffset: nat, bufOffset: nat, len: nat)
      requires Coalesced()
      modifies this
      ensures Coalesced()
      ensures ExtentPairs(0, extents) == old(ExtentPairs(0, extents)) + Pairs(bufOffset, diskOffset, len)
      ensures |extents| <= old(|extents|) + 1
      ensures old(extents) != [] && Continues(old(extents)[|old(extents)| - 1], Extent(diskOffset, bufOffset, len)) ==>
                |extents| == old(|extents|)
    {
      ghost var was := extents;
      assert ExtentPairs(0, was) + [] == ExtentPairs(0, was);
      if len == 0 {
        assert Pairs(bufOffset, diskOffset, len) == [];
        return;
      }
      if extents != [] {
        var last := extents[|extents| - 1];
        if Continues(last, Extent(diskOffset, bufOffset, len)) {
          extents := extents[..|extents| - 1] + [last.(len := last.len + len)];
          assert was == was[..|was| - 1] + [last];
          MergedPairs(was[..|was| - 1], last, len);
          return;
        }
      }
      extents := extents + [Extent(diskOffset, bufOffset, len)];
      assert extents[..|was|] == was;
    }
  }

  /** A longer last extent is the same copies as one more extent behind it. */
  lemma MergedPairs(front: seq<Extent>, e: Extent, len: nat)
    ensures ExtentPairs(0, front + [e.(len := e.len + len)]) ==
            ExtentPairs(0, front + [e]) + Pairs(e.bufOffset + e.len, e.diskOffset + e.len, len)
  {
    hide ExtentPairs, Pairs;
    ExtentPairsSnoc(front, e);
    ExtentPairsSnoc(front, e.(len := e.len + len));
    PairsJoin(e.bufOffset, e.diskOffset, e.len, len);
    Assoc(ExtentPairs(0, front), Pairs(e.bufOffset, e.diskOffset, e.len),
          Pairs(e.bufOffset + e.len, e.diskOffset + e.len, len));
  }

  lemma Assoc<T>(a: seq<T>, b: seq<T>, c: seq<T>)
    ensures (a + b) + c == a + (b + c)
  {
  }

  lemma ExtentPairsSnoc(es: seq<Extent>, e: Extent)
    ensures ExtentPairs(0, es + [e]) == ExtentPairs(0, es) + Pairs(e.bufOffset, e.diskOffset, e.len)
  {
    assert (es + [e])[..|es|] == es;
  }

  lemma PairsJoin(ptr: nat, off: nat, a: nat, b: nat)
    ensures Pairs(ptr, off, a + b) == Pairs(ptr, off, a) + Pairs(ptr + a, off + a, b)
  {
  }

  /** One target of `validate`: every extent lies in the buffer and in the image. */
  method ValidateOne(extents: seq<Extent>, bufLen: nat, imageLen: nat) returns (ok: bool)
    ensures ok <==> forall i :: 0 <= i < |extents| ==> Fits(extents[i], bufLen, imageLen)
    ensures ok ==> Inside(ExtentPairs(0, extents), bufLen, imageLen)
  {
    for i := 0 to |extents|
      invariant forall j :: 0 <= j < i ==> Fits(extents[j], bufLen, imageLen)
    {
      if !Fits(extents[i], bufLen, imageLen) {
        return false;
      }
    }
    FitsInside(extents, bufLen, imageLen);
    return true;
  }

  /** A buffer and what is to be read into it. */
  datatype ReadTarget = ReadTarget(buf: array<byte>, extents: seq<Extent>)

  ghost predicate AllFit(t: ReadTarget, imageLen: nat) {
    forall i :: 0 <= i < |t.extents| ==> Fits(t.extents[i], t.buf.Length, imageLen)
  }

  /** `validate`: the targets are accepted exactly if all their extents lie in their buffers and in the
      image. */
  method Validate(targets: seq<ReadTarget>, imageLen: nat) returns (ok: bool)
    ensures ok <==> forall k :: 0 <= k < |targets| ==> AllFit(targets[k], imageLen)
    ensures ok ==> forall k :: 0 <= k < |targets| ==>
              Inside(ExtentPairs(0, targets[k].extents), targets[k].buf.Length, imageLen)
  {
    hide Inside, ExtentPairs;
    for k := 0 to |targets|
      invariant forall j :: 0 <= j < k ==> AllFit(targets[j], imageLen)
      invariant forall j :: 0 <= j < k ==> Inside(ExtentPairs(0, targets[j].extents), targets[j].buf.Length, imageLen)
    {
      ok := ValidateOne(targets[k].extents, targets[k].buf.Length, imageLen);
      if !ok {
        return;
      }
    }
    ok := true;
  }

  predicate Fits(e: Extent, bufLen: nat, imageLen: nat) {
    e.bufOffset + e.len <= bufLen && e.diskOffset + e.len <= imageLen
  }

  lemma {:induction false} FitsInside(es: seq<Extent>, bufLen: nat, imageLen: nat)
    requires forall i :: 0 <= i < |es| ==> Fits(es[i], bufLen, imageLen)
    ensures Inside(ExtentPairs(0, es), bufLen, imageLen)
  {
    if es != [] { FitsInside(es[..|es| - 1], bufLen, imageLen); }
  }

  /** `read_mmap`: each buffer gets the byte copies of its own extents, in order. */
  method ReadMmap(img: seq<byte>, targets: seq<ReadTarget>)
    requires forall k :: 0 <= k < |targets| ==>
               Inside(ExtentPairs(0, targets[k].extents), targets[k].buf.Length, |img|)
    requires forall j, k :: 0 <= j < k < |targets| ==> targets[j].buf != targets[k].buf
    modifies set k | 0 <= k < |targets| :: targets[k].buf
    ensures forall k :: 0 <= k < |targets| ==>
              targets[k].buf[..] == WriteAll(old(targets[k].buf[..]), img, ExtentPairs(0, targets[k].extents))
  {
    hide WriteAll, ExtentPairs, Inside;
    for k := 0 to |targets|
      invariant forall j :: 0 <= j < k ==>
        targets[j].buf[..] == WriteAll(old(targets[j].buf[..]), img, ExtentPairs(0, targets[j].extents))
      invariant forall j :: k <= j < |targets| ==> targets[j].buf[..] == old(targets[j].buf[..])
    {
      ReadOne(img, targets[k].buf, targets[k].extents);
    }
  }

  method ReadOne(img: seq<byte>, buf: array<byte>, extents: seq<Extent>)
    requires Inside(ExtentPairs(0, extents), buf.Length, |img|)
    modifies buf
    ensures buf[..] == WriteAll(old(buf[..]), img, ExtentPairs(0, extents))
  {
    hide WriteAll;
    assert WriteAll(buf[..], img, []) == buf[..] by { WriteNothing(buf[..], img); }
    for i := 0 to |extents|
      invariant Inside(ExtentPairs(0, extents[..i]), buf.Length, |img|)
      invariant buf[..] == WriteAll(old(buf[..]), img, ExtentPairs(0, extents[..i]))
    {
      var e := extents[i];
      assert extents[..i + 1] == extents[..i] + [e];
      ExtentPairsSnoc(extents[..i], e);
      PrefixInside(extents, i + 1, buf.Length, |img|);
      if e.len > 0 {
        LastInside(extents[..i], e, buf.Length, |img|);
        CopyRun(buf, img, e.bufOffset, e.diskOffset, e.len, old(buf[..]), ExtentPairs(0, extents[..i]));
      } else {
        assert Pairs(e.bufOffset, e.diskOffset, 0) == [];
        assert ExtentPairs(0, extents[..i]) + [] == ExtentPairs(0, extents[..i]);
      }
    }
    assert extents[..|extents|] == extents;
  }

  lemma WriteNothing(buf: seq<byte>, img: seq<byte>)
    ensures WriteAll(buf, img, []) == buf
  {
  }

  lemma {:induction false} PrefixInside(es: seq<Extent>, n: nat, bufLen: nat, imageLen: nat)
    requires n <= |es| && Inside(ExtentPairs(0, es), bufLen, imageLen)
    ensures Inside(ExtentPairs(0, es[..n]), bufLen, imageLen)
    decreases |es|
  {
    if n < |es| {
      var m := |es| - 1;
      assert es == es[..m] + [es[m]];
      ExtentPairsSnoc(es[..m], es[m]);
      assert forall i :: 0 <= i < |ExtentPairs(0, es[..m])| ==> ExtentPairs(0, es[..m])[i] == ExtentPairs(0, es)[i];
      PrefixInside(es[..m], n, bufLen, imageLen);
      assert es[..m][..n] == es[..n];
    } else {
      assert es[..n] == es;
    }
  }

  lemma LastInside(es: seq<Extent>, e: Extent, bufLen: nat, imageLen: nat)
    requires Inside(ExtentPairs(0, es + [e]), bufLen, imageLen) && e.len > 0
    ensures Fits(e, bufLen, imageLen)
  {
    ExtentPairsSnoc(es, e);
    var all := ExtentPairs(0, es + [e]);
    assert all[|all| - 1] == Pairs(e.bufOffset, e.diskOffset, e.len)[e.len - 1];
  }

  // ---------------------------------------------------------------------------
  // The three ways to read
  // ---------------------------------------------------------------------------

  lemma {:induction false} EmitsFit(s: Source, n: nat)
    ensures forall i :: 0 <= i < |SimpleWalk(s, n)| ==>
              SimpleWalk(s, n)[i].offset + SimpleWalk(s, n)[i].len <= s.size && SimpleWalk(s, n)[i].len <= BLOCK_SIZE
  {
    hide BlockOf;
    if n > 0 { EmitsFit(s, n - 1); }
  }

  /** Copying each block as the walk reports it. */
  method ReadBlocks(s: Source) returns (r: seq<byte>)
    ensures r == Payload(s)
  {
    hide WriteAll, Payload, SimpleWalk, BlockOf;
    var out := WalkPayloadBlocks(s);
    EmitsFit(s, MAX_LOGICAL_BLOCKS);
    var buf := new byte[s.size](_ => 0);
    ghost var zero := buf[..];
    assert WriteAll(zero, s.img, []) == zero by { WriteNothing(zero, s.img); }
    for i := 0 to |out|
      invariant Inside(EmitPairs(s.img, out[..i]), s.size, |s.img|)
      invariant buf[..] == WriteAll(zero, s.img, EmitPairs(s.img, out[..i]))
    {
      var e := out[i];
      assert out[..i + 1][..i] == out[..i];
      assert EmitPairs(s.img, out[..i]) + [] == EmitPairs(s.img, out[..i]);
      if InMap(s.img, e.block) {
        CopyRun(buf, s.img, e.offset, e.block * BLOCK_SIZE, e.len, zero, EmitPairs(s.img, out[..i]));
      }
    }
    assert out[..|out|] == out;
    CopiesArePayload(s, zero);
    r := buf[..];
  }

  lemma CopiesArePayload(s: Source, zero: seq<byte>)
    requires |zero| == s.size && forall i :: 0 <= i < |zero| ==> zero[i] == 0
    ensures Inside(WalkPairs(s, MAX_LOGICAL_BLOCKS), s.size, |s.img|)
    ensures WriteAll(zero, s.img, WalkPairs(s, MAX_LOGICAL_BLOCKS)) == Payload(s)
  {
    hide WriteAll, Payload, WalkPairs, Backed, SourceOf;
    WalkInside(s);
    WalkPairsAre(s, MAX_LOGICAL_BLOCKS);
    WriteAllDelivers(zero, s.img, WalkPairs(s, MAX_LOGICAL_BLOCKS));
    DeliveredIsPayload(s, WriteAll(zero, s.img, WalkPairs(s, MAX_LOGICAL_BLOCKS)));
  }

  lemma WalkInside(s: Source)
    ensures Inside(WalkPairs(s, MAX_LOGICAL_BLOCKS), s.size, |s.img|)
  {
    hide WalkPairs, Backed, SourceOf;
    WalkPairsAre(s, MAX_LOGICAL_BLOCKS);
    forall i | 0 <= i < |WalkPairs(s, MAX_LOGICAL_BLOCKS)| ensures WalkPairs(s, MAX_LOGICAL_BLOCKS)[i].1 < |s.img| {
      SourceInside(s, WalkPairs(s, MAX_LOGICAL_BLOCKS)[i].0);
    }
  }

  /** Gathering the blocks into extents. */
  method Gather(s: Source) returns (extents: seq<Extent>)
    ensures ExtentPairs(0, extents) == WalkPairs(s, MAX_LOGICAL_BLOCKS)
  {
    hide SimpleWalk, BlockOf, ExtentPairs;
    var out := WalkPayloadBlocks(s);
    var list := new ExtentList();
    assert ExtentPairs(0, []) == [] by { NoExtents(); }
    for i := 0 to |out|
      invariant fresh(list) && list.Coalesced() && ExtentPairs(0, list.extents) == EmitPairs(s.img, out[..i])
    {
      var e := out[i];
      assert out[..i + 1][..i] == out[..i];
      assert EmitPairs(s.img, out[..i]) + [] == EmitPairs(s.img, out[..i]);
      if InMap(s.img, e.block) {
        list.Push(e.block * BLOCK_SIZE, e.offset, e.len);
      }
    }
    assert out[..|out|] == out;
    extents := list.extents;
  }

  lemma NoExtents()
    ensures ExtentPairs(0, []) == []
  {
  }

  /** Reading the coalesced extents fills the buffer exactly as copying block by block does. */
  method ReadExtents(s: Source) returns (r: seq<byte>)
    ensures r == Payload(s)
  {
    hide WriteAll, Payload, WalkPairs, ExtentPairs;
    var extents := Gather(s);
    WalkInside(s);
    var buf := new byte[s.size](_ => 0);
    CopiesArePayload(s, buf[..]);
    var targets := [ReadTarget(buf, extents)];
    ReadMmap(s.img, targets);
    assert targets[0].buf == buf;
    r := buf[..];
  }

  /** And so does io_uring, whatever the kernel does, whenever it reports success. */
  lemma UringReadsPayload(s: Source, extents: seq<Extent>, ops: seq<Op>, zero: seq<byte>, rounds: seq<Round>)
    requires ExtentPairs(0, extents) == WalkPairs(s, MAX_LOGICAL_BLOCKS)
    requires OpPairs(ops) == TargetPairs([Target(0, extents)]) && Bounded(ops)
    requires |zero| == s.size && forall i :: 0 <= i < |zero| ==> zero[i] == 0
    ensures Fitting(ops, |zero|, |s.img|)
    ensures var o := Run(Start(ops, zero), s.img, rounds);
            o.Returned? && o.s.firstErr.None? ==> o.s.mem == Payload(s)
  {
    hide Run, OpPairs, WalkPairs, Payload, Backed, SourceOf;
    var ts := [Target(0, extents)];
    assert ts[..0] == [];
    assert [] + ExtentPairs(0, extents) == ExtentPairs(0, extents);
    assert TargetPairs(ts) == ExtentPairs(0, extents);
    WalkInside(s);
    WalkPairsAre(s, MAX_LOGICAL_BLOCKS);
    OkMeansEveryByte(ts, ops, zero, s.img, rounds);
    var o := Run(Start(ops, zero), s.img, rounds);
    if o.Returned? && o.s.firstErr.None? { DeliveredIsPayload(s, o.s.mem); }
  }
}
