/** The io_uring read backend (src/io_engine.rs): splitting extents into operations and the
    completion loop, under any behaviour of the kernel. */
module Uring {
  import opened Bytes
  import opened LastWins

  const RING_ENTRIES := 64
  const MAX_OP_BYTES := 1048576

  /** `len` bytes from image offset `diskOffset` into the target buffer at `bufOffset`. */
  datatype Extent = Extent(diskOffset: nat, bufOffset: nat, len: nat)

  /** A destination buffer at address `base`, and the extents that fill it. */
  datatype Target = Target(base: nat, extents: seq<Extent>)

  /** One pending transfer: `len` bytes from image offset `off` to address `ptr`. */
  datatype Op = Op(ptr: nat, len: nat, off: nat)

  // ---------------------------------------------------------------------------
  // Splitting
  // ---------------------------------------------------------------------------

  /** The single-byte transfers (address, image offset) of a contiguous one. */
  ghost function Pairs(ptr: nat, off: nat, len: nat): (r: seq<(nat, nat)>)
    ensures |r| == len && forall k :: 0 <= k < len ==> r[k] == (ptr + k, off + k)
  {
    seq(len, k requires 0 <= k => (ptr + k, off + k))
  }

  ghost function OpPairs(ops: seq<Op>): seq<(nat, nat)> {
    if ops == [] then []
    else OpPairs(ops[..|ops| - 1]) + Pairs(ops[|ops| - 1].ptr, ops[|ops| - 1].off, ops[|ops| - 1].len)
  }

  ghost function ExtentPairs(base: nat, es: seq<Extent>): seq<(nat, nat)> {
    if es == [] then []
    else
      var e := es[|es| - 1];
      ExtentPairs(base, es[..|es| - 1]) + Pairs(base + e.bufOffset, e.diskOffset, e.len)
  }

  ghost function TargetPairs(ts: seq<Target>): seq<(nat, nat)> {
    if ts == [] then []
    else TargetPairs(ts[..|ts| - 1]) + ExtentPairs(ts[|ts| - 1].base, ts[|ts| - 1].extents)
  }

  ghost predicate Bounded(ops: seq<Op>) {
    forall i :: 0 <= i < |ops| ==> 0 < ops[i].len <= MAX_OP_BYTES
  }

  /** The operations move exactly the bytes of the extents, in order, at most 1 MiB each. */
  method SplitTargets(ts: seq<Target>) returns (ops: seq<Op>)
    ensures OpPairs(ops) == TargetPairs(ts) && Bounded(ops)
  {
    hide OpPairs, ExtentPairs, Bounded;
    ops := [];
    assert OpPairs([]) == [] && Bounded([]) by { NoOps(); }
    for i := 0 to |ts|
      invariant OpPairs(ops) == TargetPairs(ts[..i]) && Bounded(ops)
    {
      ops := SplitExtents(ops, ts[i].base, ts[i].extents);
      assert ts[..i + 1][..i] == ts[..i];
    }
    assert ts[..|ts|] == ts;
  }

  lemma NoOps()
    ensures OpPairs([]) == [] && Bounded([])
  {
  }

  method SplitExtents(ops: seq<Op>, base: nat, es: seq<Extent>) returns (r: seq<Op>)
    requires Bounded(ops)
    ensures OpPairs(r) == OpPairs(ops) + ExtentPairs(base, es) && Bounded(r)
  {
    hide OpPairs, Bounded, Pairs;
    r := ops;
    for j := 0 to |es|
      invariant OpPairs(r) == OpPairs(ops) + ExtentPairs(base, es[..j]) && Bounded(r)
    {
      r := SplitExtent(r, base, es[j]);
      assert es[..j + 1][..j] == es[..j];
    }
    assert es[..|es|] == es;
  }

  method SplitExtent(ops: seq<Op>, base: nat, e: Extent) returns (r: seq<Op>)
    requires Bounded(ops)
    ensures OpPairs(r) == OpPairs(ops) + Pairs(base + e.bufOffset, e.diskOffset, e.len) && Bounded(r)
  {
    r := ops;
    var done := 0;
    while done < e.len
      invariant done <= e.len && Bounded(r)
      invariant OpPairs(r) == OpPairs(ops) + Pairs(base + e.bufOffset, e.diskOffset, done)
    {
      var len := if e.len - done < MAX_OP_BYTES then e.len - done else MAX_OP_BYTES;
      var op := Op(base + e.bufOffset + done, len, e.diskOffset + done);
      assert (r + [op])[..|r|] == r;
      assert Pairs(base + e.bufOffset, e.diskOffset, done) + Pairs(op.ptr, op.off, len) ==
             Pairs(base + e.bufOffset, e.diskOffset, done + len);
      r := r + [op];
      done := done + len;
    }
  }

  // ---------------------------------------------------------------------------
  // The completion loop as a state machine
  // ---------------------------------------------------------------------------

  datatype IoError = Errno | UnexpectedEof

  /** A completion: a failed read, or `n` bytes read (never more than asked for). */
  datatype KernelResult = Failed(transient: bool) | Read(n: nat)

  /** The kernel finishes one of the entries it has consumed; beyond the bytes it reports it may have
      left anything in the buffer of that entry. */
  datatype Completion = Completion(pick: nat, result: KernelResult, noise: seq<byte>)

  /** One turn of the loop as the kernel decides it: how many queued entries it consumes, whether
      entering it fails beyond recovery, and what completes. */
  datatype Round = Round(consumed: nat, fatal: bool, completions: seq<Completion>)

  /** `ring` holds the entries handed over and not reaped, the last `queued` of them not consumed. */
  datatype Loop = Loop(
    ops: seq<Op>, pending: seq<nat>, inflight: nat, firstErr: Option<IoError>,
    ring: seq<nat>, queued: nat, mem: seq<byte>)

  predicate InRange(ops: seq<Op>, indices: seq<nat>) {
    forall i :: 0 <= i < |indices| ==> indices[i] < |ops|
  }

  predicate Fitting(ops: seq<Op>, memLen: nat, imageLen: nat) {
    forall i :: 0 <= i < |ops| ==>
      0 < ops[i].len && ops[i].ptr + ops[i].len <= memLen && ops[i].off + ops[i].len <= imageLen
  }

  /** What the loop's own bookkeeping keeps. */
  predicate Sane(s: Loop, imageLen: nat) {
    && s.inflight == |s.ring| && s.queued <= |s.ring| <= RING_ENTRIES
    && InRange(s.ops, s.pending) && InRange(s.ops, s.ring)
    && Fitting(s.ops, |s.mem|, imageLen)
  }

  /** The first pending entry, put into the ring. */
  function Queued(s: Loop): Loop
    requires s.pending != []
  {
    s.(pending := s.pending[1..], ring := s.ring + [s.pending[0]], inflight := s.inflight + 1, queued := s.queued + 1)
  }

  /** Submission: entries move from the queue of pending ones to the ring until it is deep enough. */
  function Submit(s: Loop): (t: Loop)
    decreases |s.pending|
  {
    if s.firstErr.None? && s.inflight < RING_ENTRIES && s.pending != [] && s.queued < RING_ENTRIES
    then Submit(Queued(s))
    else s
  }

  function KernelWrites(mem: seq<byte>, image: seq<byte>, op: Op, n: nat, noise: seq<byte>): (r: seq<byte>)
    requires n <= op.len && op.ptr + op.len <= |mem| && op.off + op.len <= |image|
    ensures |r| == |mem|
    ensures forall a :: 0 <= a < |mem| ==>
      r[a] == if op.ptr <= a < op.ptr + n then image[op.off + (a - op.ptr)]
              else if op.ptr <= a < op.ptr + op.len && a - op.ptr < |noise| then noise[a - op.ptr]
              else mem[a]
  {
    seq(|mem|, a requires 0 <= a < |mem| =>
      if op.ptr <= a < op.ptr + n then image[op.off + (a - op.ptr)]
      else if op.ptr <= a < op.ptr + op.len && a - op.ptr < |noise| then noise[a - op.ptr]
      else mem[a])
  }

  function Transferred(op: Op, r: KernelResult): nat {
    if r.Failed? then 0 else if r.n < op.len then r.n else op.len
  }

  function Without(s: seq<nat>, k: nat): seq<nat>
    requires k < |s|
  {
    s[..k] + s[k + 1..]
  }

  /** Reaping one completion. */
  function Reap(s: Loop, image: seq<byte>, c: Completion): (t: Loop)
    requires Sane(s, |image|)
  {
    if |s.ring| == s.queued then s
    else
      var k := c.pick % (|s.ring| - s.queued);
      var idx := s.ring[k];
      var op, n := s.ops[idx], Transferred(s.ops[idx], c.result);
      var t := s.(ring := Without(s.ring, k), inflight := s.inflight - 1,
                  mem := KernelWrites(s.mem, image, op, n, c.noise));
      if c.result.Failed? then
        if s.firstErr.Some? then t
        else if c.result.transient then t.(pending := s.pending + [idx]) else t.(firstErr := Some(Errno))
      else if n == 0 then t.(firstErr := if s.firstErr.Some? then s.firstErr else Some(UnexpectedEof))
      else if n < op.len then
        t.(ops := s.ops[idx := Op(op.ptr + n, op.len - n, op.off + n)],
           pending := if s.firstErr.None? then s.pending + [idx] else s.pending)
      else t
  }

  function ReapAll(s: Loop, image: seq<byte>, cs: seq<Completion>): (t: Loop)
    requires Sane(s, |image|)
    ensures Sane(t, |image|)
    decreases |cs|
  {
    if cs == [] then s
    else
      ReapSane(s, image, cs[0]);
      ReapAll(Reap(s, image, cs[0]), image, cs[1..])
  }

  datatype Outcome = Running(s: Loop) | Returned(s: Loop) | Aborted(s: Loop)

  /** The loop against a kernel that behaves as `rounds` says. */
  function Run(s: Loop, image: seq<byte>, rounds: seq<Round>): (o: Outcome)
    requires Sane(s, |image|)
    ensures Sane(o.s, |image|)
    decreases |rounds|
  {
    SubmitSane(s, |image|);
    var t := Submit(s);
    if rounds == [] then Running(s)
    else if t.inflight == 0 then Returned(t)
    else if rounds[0].fatal then Aborted(t)
    else
      var q := if rounds[0].consumed < t.queued then t.queued - rounds[0].consumed else 0;
      Run(ReapAll(t.(queued := q), image, rounds[0].completions), image, rounds[1..])
  }

  lemma {:induction false} SubmitSane(s: Loop, imageLen: nat)
    requires Sane(s, imageLen)
    ensures Sane(Submit(s), imageLen)
    decreases |s.pending|
  {
    if s.firstErr.None? && s.inflight < RING_ENTRIES && s.pending != [] && s.queued < RING_ENTRIES {
      SubmitSane(Queued(s),
                 imageLen);
    }
  }

  lemma ReapSane(s: Loop, image: seq<byte>, c: Completion)
    requires Sane(s, |image|)
    ensures Sane(Reap(s, image, c), |image|)
  {
  }

  // ---------------------------------------------------------------------------
  // What every schedule keeps
  // ---------------------------------------------------------------------------

  /** No operation is pending or in flight twice; the others are finished. */
  ghost predicate Partitioned(s: Loop) {
    && (forall i, j :: 0 <= i < j < |s.pending| ==> s.pending[i] != s.pending[j])
    && (forall i, j :: 0 <= i < j < |s.ring| ==> s.ring[i] != s.ring[j])
    && (forall i, j :: 0 <= i < |s.pending| && 0 <= j < |s.ring| ==> s.pending[i] != s.ring[j])
  }

  ghost predicate Finished(s: Loop, i: nat) {
    i !in s.pending && i !in s.ring
  }

  /** `op` is what is left of `whole` after some of its first bytes. */
  predicate RestOf(whole: Op, op: Op) {
    op.len <= whole.len && op.ptr == whole.ptr + (whole.len - op.len) && op.off == whole.off + (whole.len - op.len)
  }

  ghost predicate Advanced(whole: seq<Op>, ops: seq<Op>) {
    |ops| == |whole| && forall i :: 0 <= i < |ops| ==> RestOf(whole[i], ops[i])
  }

  /** The first `n` bytes of `op` have arrived. */
  ghost predicate Arrived(mem: seq<byte>, image: seq<byte>, op: Op, n: nat) {
    && n <= op.len && op.ptr + op.len <= |mem| && op.off + op.len <= |image|
    && mem[op.ptr..op.ptr + n] == image[op.off..op.off + n]
  }

  ghost function Progress(s: Loop, whole: Op, i: nat): int
    requires i < |s.ops|
  {
    if Finished(s, i) then whole.len else whole.len - s.ops[i].len
  }

  ghost predicate Delivered(s: Loop, whole: seq<Op>, image: seq<byte>)
    requires |s.ops| == |whole|
  {
    forall i :: 0 <= i < |whole| ==>
      Progress(s, whole[i], i) >= 0 && Arrived(s.mem, image, whole[i], Progress(s, whole[i], i))
  }

  ghost predicate Elsewhere(whole: seq<Op>, a: int) {
    forall i :: 0 <= i < |whole| ==> !(whole[i].ptr <= a < whole[i].ptr + whole[i].len)
  }

  ghost predicate Untouched(whole: seq<Op>, before: seq<byte>, mem: seq<byte>) {
    |mem| == |before| && forall a :: 0 <= a < |mem| && Elsewhere(whole, a) ==> mem[a] == before[a]
  }

  /** Destinations of different operations do not overlap. */
  ghost predicate Separate(whole: seq<Op>) {
    forall i, j :: 0 <= i < |whole| && 0 <= j < |whole| && i != j ==>
      whole[i].ptr + whole[i].len <= whole[j].ptr || whole[j].ptr + whole[j].len <= whole[i].ptr
  }

  ghost predicate Inv(s: Loop, whole: seq<Op>, before: seq<byte>, image: seq<byte>) {
    && Sane(s, |image|) && Partitioned(s) && Advanced(whole, s.ops)
    && Untouched(whole, before, s.mem)
    && (s.firstErr.None? ==> Delivered(s, whole, image))
  }

  lemma {:induction false} SubmitKeeps(s: Loop, whole: seq<Op>, before: seq<byte>, image: seq<byte>)
    requires Inv(s, whole, before, image)
    ensures Inv(Submit(s), whole, before, image)
    ensures Submit(s).firstErr == s.firstErr
    ensures Submit(s).firstErr.None? && Submit(s).inflight == 0 ==> Submit(s).pending == []
    decreases |s.pending|
  {
    hide Arrived, Untouched, Advanced, Fitting;
    if s.firstErr.None? && s.inflight < RING_ENTRIES && s.pending != [] && s.queued < RING_ENTRIES {
      var t := Queued(s);
      forall i | 0 <= i < |whole| ensures Finished(t, i) <==> Finished(s, i) {
        assert s.pending == [s.pending[0]] + s.pending[1..];
      }
      SubmitKeeps(t, whole, before, image);
    }
  }

  lemma WithoutMembers(s: seq<nat>, k: nat)
    requires k < |s| && forall i, j :: 0 <= i < j < |s| ==> s[i] != s[j]
    ensures forall x :: x in Without(s, k) <==> x in s && x != s[k]
    ensures forall i, j :: 0 <= i < j < |Without(s, k)| ==> Without(s, k)[i] != Without(s, k)[j]
  {
    var t := Without(s, k);
    assert forall i :: 0 <= i < |t| ==> t[i] == s[if i < k then i else i + 1];
    forall x | x in s && x != s[k] ensures x in t {
      var i :| 0 <= i < |s| && s[i] == x;
      assert t[if i < k then i else i - 1] == x;
    }
  }

  lemma ReapPartition(s: Loop, image: seq<byte>, c: Completion)
    requires Sane(s, |image|) && Partitioned(s) && s.queued < |s.ring|
    ensures var t := Reap(s, image, c); var idx := s.ring[c.pick % (|s.ring| - s.queued)];
            && Partitioned(t)
            && (forall i :: i != idx ==> (Finished(t, i) <==> Finished(s, i)))
            && (t.firstErr.None? ==>
                  && s.firstErr.None?
                  && (Finished(t, idx) <==> c.result.Read? && Transferred(s.ops[idx], c.result) == s.ops[idx].len))
  {
    hide KernelWrites, Fitting;
    var k := c.pick % (|s.ring| - s.queued);
    WithoutMembers(s.ring, k);
    var t := Reap(s, image, c);
    var idx := s.ring[k];
    assert idx !in s.pending;
    assert t.pending == s.pending || t.pending == s.pending + [idx];
  }

  /** The kernel's write of a completion, seen by the operation it belongs to and by the others. */
  lemma WriteArrives(mem: seq<byte>, image: seq<byte>, whole: Op, op: Op, n: nat, noise: seq<byte>)
    requires n <= op.len && whole.ptr + whole.len <= |mem| && whole.off + whole.len <= |image| && RestOf(whole, op)
    requires Arrived(mem, image, whole, whole.len - op.len)
    ensures Arrived(KernelWrites(mem, image, op, n, noise), image, whole, whole.len - op.len + n)
  {
    hide KernelWrites;
    var r := KernelWrites(mem, image, op, n, noise);
    var d := whole.len - op.len;
    assert r[whole.ptr..whole.ptr + d] == mem[whole.ptr..whole.ptr + d];
    assert r[op.ptr..op.ptr + n] == image[op.off..op.off + n];
    assert r[whole.ptr..whole.ptr + d + n] == r[whole.ptr..whole.ptr + d] + r[op.ptr..op.ptr + n];
    assert image[whole.off..whole.off + d + n] == image[whole.off..whole.off + d] + image[op.off..op.off + n];
  }

  lemma WriteSpares(mem: seq<byte>, image: seq<byte>, op: Op, n: nat, noise: seq<byte>, other: Op, m: nat)
    requires n <= op.len && op.ptr + op.len <= |mem| && op.off + op.len <= |image|
    requires op.ptr + op.len <= other.ptr || other.ptr + other.len <= op.ptr
    requires Arrived(mem, image, other, m)
    ensures Arrived(KernelWrites(mem, image, op, n, noise), image, other, m)
  {
    hide KernelWrites;
    var r := KernelWrites(mem, image, op, n, noise);
    assert r[other.ptr..other.ptr + m] == mem[other.ptr..other.ptr + m];
  }

  lemma ReapMemory(s: Loop, whole: seq<Op>, before: seq<byte>, image: seq<byte>, c: Completion)
    requires Inv(s, whole, before, image) && Separate(whole) && s.queued < |s.ring|
    ensures var t := Reap(s, image, c);
            Advanced(whole, t.ops) && Untouched(whole, before, t.mem)
  {
    hide KernelWrites, Delivered, Separate;
    var idx := s.ring[c.pick % (|s.ring| - s.queued)];
    var t := Reap(s, image, c);
    assert RestOf(whole[idx], s.ops[idx]);
    forall a | 0 <= a < |t.mem| && Elsewhere(whole, a) ensures t.mem[a] == before[a] {
      assert !(whole[idx].ptr <= a < whole[idx].ptr + whole[idx].len);
    }
  }

  lemma ReapDelivers(s: Loop, whole: seq<Op>, before: seq<byte>, image: seq<byte>, c: Completion)
    requires Inv(s, whole, before, image) && Separate(whole) && s.queued < |s.ring|
    requires Advanced(whole, Reap(s, image, c).ops)
    requires Reap(s, image, c).firstErr.None?
    ensures Delivered(Reap(s, image, c), whole, image)
  {
    hide KernelWrites, Arrived, Untouched, Finished, Fitting;
    ReapPartition(s, image, c);
    var idx := s.ring[c.pick % (|s.ring| - s.queued)];
    var op, n, t := s.ops[idx], Transferred(s.ops[idx], c.result), Reap(s, image, c);
    forall i | 0 <= i < |whole|
      ensures Progress(t, whole[i], i) >= 0 && Arrived(t.mem, image, whole[i], Progress(t, whole[i], i))
    {
      assert Arrived(s.mem, image, whole[i], Progress(s, whole[i], i));
      assert RestOf(whole[i], s.ops[i]);
      if i == idx {
        InFlight(s, c.pick % (|s.ring| - s.queued));
        ArrivedInside(s.mem, image, whole[i], Progress(s, whole[i], i));
        WriteArrives(s.mem, image, whole[i], op, n, c.noise);
      } else {
        RestInside(s, image, idx);
        RestSeparate(whole, s.ops, idx, i);
        WriteSpares(s.mem, image, op, n, c.noise, whole[i], Progress(s, whole[i], i));
      }
    }
  }

  lemma InFlight(s: Loop, k: nat)
    requires k < |s.ring|
    ensures !Finished(s, s.ring[k])
  {
  }

  lemma ArrivedInside(mem: seq<byte>, image: seq<byte>, op: Op, n: nat)
    requires Arrived(mem, image, op, n)
    ensures op.ptr + op.len <= |mem| && op.off + op.len <= |image|
  {
  }

  lemma RestInside(s: Loop, image: seq<byte>, i: nat)
    requires Sane(s, |image|) && i < |s.ops|
    ensures s.ops[i].ptr + s.ops[i].len <= |s.mem| && s.ops[i].off + s.ops[i].len <= |image|
  {
  }

  lemma RestSeparate(whole: seq<Op>, ops: seq<Op>, i: nat, j: nat)
    requires Separate(whole) && Advanced(whole, ops) && i < |whole| && j < |whole| && i != j
    ensures ops[i].ptr + ops[i].len <= whole[j].ptr || whole[j].ptr + whole[j].len <= ops[i].ptr
  {
    assert RestOf(whole[i], ops[i]);
  }

  lemma ReapKeeps(s: Loop, whole: seq<Op>, before: seq<byte>, image: seq<byte>, c: Completion)
    requires Inv(s, whole, before, image) && Separate(whole)
    ensures Inv(Reap(s, image, c), whole, before, image)
  {
    hide Reap, Delivered, Untouched, Advanced, Separate, Partitioned;
    if s.queued < |s.ring| {
      ReapSane(s, image, c);
      ReapPartition(s, image, c);
      ReapMemory(s, whole, before, image, c);
      if Reap(s, image, c).firstErr.None? { ReapDelivers(s, whole, before, image, c); }
    } else {
      ReapNothing(s, image, c);
    }
  }

  lemma ReapNothing(s: Loop, image: seq<byte>, c: Completion)
    requires Sane(s, |image|) && |s.ring| == s.queued
    ensures Reap(s, image, c) == s
  {
  }

  lemma {:induction false} ReapAllKeeps(s: Loop, whole: seq<Op>, before: seq<byte>, image: seq<byte>,
                                        cs: seq<Completion>)
    requires Inv(s, whole, before, image) && Separate(whole)
    ensures Inv(ReapAll(s, image, cs), whole, before, image)
    decreases |cs|
  {
    hide Reap, Delivered, Untouched, Advanced, Separate, Partitioned, Sane;
    if cs != [] {
      ReapKeeps(s, whole, before, image, cs[0]);
      ReapAllKeeps(Reap(s, image, cs[0]), whole, before, image, cs[1..]);
    }
  }

  /** Every schedule keeps the invariant; the loop returns only with nothing in flight, and returning
      without an error leaves nothing pending. */
  lemma {:induction false} EveryScheduleIsSafe(s: Loop, whole: seq<Op>, before: seq<byte>, image: seq<byte>,
                                               rounds: seq<Round>)
    requires Inv(s, whole, before, image) && Separate(whole)
    ensures var o := Run(s, image, rounds);
            && Inv(o.s, whole, before, image)
            && (o.Returned? ==> o.s.ring == [] && (o.s.firstErr.None? ==> o.s.pending == []))
    decreases |rounds|
  {
    hide Submit, ReapAll, Delivered, Untouched, RestOf, Separate, Partitioned;
    SubmitKeeps(s, whole, before, image);
    if rounds != [] && Submit(s).inflight != 0 && !rounds[0].fatal {
      var t := Submit(s);
      var q := if rounds[0].consumed < t.queued then t.queued - rounds[0].consumed else 0;
      var u := t.(queued := q);
      QueueChange(t, q, whole, image);
      ReapAllKeeps(u, whole, before, image, rounds[0].completions);
      EveryScheduleIsSafe(ReapAll(u, image, rounds[0].completions), whole, before, image, rounds[1..]);
    }
  }

  lemma QueueChange(t: Loop, q: nat, whole: seq<Op>, image: seq<byte>)
    requires |t.ops| == |whole|
    ensures Partitioned(t.(queued := q)) <==> Partitioned(t)
    ensures Delivered(t.(queued := q), whole, image) <==> Delivered(t, whole, image)
  {
    assert forall i: nat :: Finished(t.(queued := q), i) <==> Finished(t, i);
  }

  // ---------------------------------------------------------------------------
  // Which error is reported
  // ---------------------------------------------------------------------------

  /** A result that ends the read: a failure that is not transient, or no bytes. */
  predicate Hard(r: KernelResult) {
    r == Failed(false) || r == Read(0)
  }

  /** The error of the first such result. */
  ghost function FirstHard(rs: seq<KernelResult>): Option<IoError> {
    if rs == [] then None
    else if Hard(rs[0]) then Some(if rs[0].Failed? then Errno else UnexpectedEof)
    else FirstHard(rs[1..])
  }

  lemma {:induction false} FirstHardConcat(a: seq<KernelResult>, b: seq<KernelResult>)
    ensures FirstHard(a + b) == if FirstHard(a).Some? then FirstHard(a) else FirstHard(b)
  {
    if a == [] {
      assert a + b == b;
    } else {
      assert (a + b)[1..] == a[1..] + b;
      FirstHardConcat(a[1..], b);
    }
  }

  /** There is one exactly if some result is hard, and it is the first one. */
  lemma {:induction false} FirstHardIs(rs: seq<KernelResult>)
    ensures FirstHard(rs).None? <==> forall i :: 0 <= i < |rs| ==> !Hard(rs[i])
    ensures FirstHard(rs).Some? ==>
              exists i :: 0 <= i < |rs| && Hard(rs[i]) && (forall j :: 0 <= j < i ==> !Hard(rs[j])) &&
                FirstHard(rs) == Some(if rs[i].Failed? then Errno else UnexpectedEof)
  {
    if rs != [] {
      FirstHardIs(rs[1..]);
      if !Hard(rs[0]) && FirstHard(rs[1..]).Some? {
        var i :| 0 <= i < |rs[1..]| && Hard(rs[1..][i]) && (forall j :: 0 <= j < i ==> !Hard(rs[1..][j])) &&
          FirstHard(rs[1..]) == Some(if rs[1..][i].Failed? then Errno else UnexpectedEof);
        assert rs[i + 1] == rs[1..][i];
        assert forall j :: 0 < j < i + 1 ==> rs[j] == rs[1..][j - 1];
      }
    }
  }

  /** The results of the completions that meet an entry the kernel has consumed, in order. */
  ghost function ReapedNow(s: Loop, image: seq<byte>, cs: seq<Completion>): seq<KernelResult>
    requires Sane(s, |image|)
    decreases |cs|
  {
    if cs == [] then []
    else
      ReapSane(s, image, cs[0]);
      (if |s.ring| == s.queued then [] else [cs[0].result]) + ReapedNow(Reap(s, image, cs[0]), image, cs[1..])
  }

  /** All results reaped in the rounds. */
  ghost function Reaped(s: Loop, image: seq<byte>, rounds: seq<Round>): seq<KernelResult>
    requires Sane(s, |image|)
    decreases |rounds|
  {
    SubmitSane(s, |image|);
    var t := Submit(s);
    if rounds == [] || t.inflight == 0 || rounds[0].fatal then []
    else
      SaneQueue(t, |image|, rounds[0].consumed);
      var u := t.(queued := if rounds[0].consumed < t.queued then t.queued - rounds[0].consumed else 0);
      ReapedNow(u, image, rounds[0].completions) + Reaped(ReapAll(u, image, rounds[0].completions), image, rounds[1..])
  }

  /** One completion: the error is the first hard result; an operation is retried exactly if its read failed
      transiently or came short and no error is known, and what is left of it shrinks by what arrived. */
  lemma ReapOutcome(s: Loop, image: seq<byte>, c: Completion)
    requires Sane(s, |image|) && s.queued < |s.ring|
    ensures var t := Reap(s, image, c); var idx := s.ring[c.pick % (|s.ring| - s.queued)]; var op := s.ops[idx];
            && t.firstErr == (if s.firstErr.Some? then s.firstErr else FirstHard([c.result]))
            && t.inflight == s.inflight - 1 && t.queued == s.queued
            && t.pending == s.pending + (if s.firstErr.None? && (c.result == Failed(true) ||
                                             (c.result.Read? && 0 < c.result.n < op.len)) then [idx] else [])
            && t.ops == (if c.result.Read? && 0 < c.result.n < op.len
                         then s.ops[idx := Op(op.ptr + c.result.n, op.len - c.result.n, op.off + c.result.n)]
                         else s.ops)
  {
    hide KernelWrites, InRange;
    assert FirstHard([c.result][1..]) == None;
    var i := c.pick % (|s.ring| - s.queued);
    assert 0 < s.ops[s.ring[i]].len by { RingInRange(s, image, i); }
  }

  lemma RingInRange(s: Loop, image: seq<byte>, k: nat)
    requires Sane(s, |image|) && k < |s.ring|
    ensures s.ring[k] < |s.ops| && 0 < s.ops[s.ring[k]].len
  {
  }

  lemma {:induction false} ReapAllErr(s: Loop, image: seq<byte>, cs: seq<Completion>)
    requires Sane(s, |image|)
    ensures ReapAll(s, image, cs).firstErr ==
            if s.firstErr.Some? then s.firstErr else FirstHard(ReapedNow(s, image, cs))
    decreases |cs|
  {
    hide Reap, Sane, FirstHard;
    if cs == [] {
      assert FirstHard([]) == None by { FirstHardIs([]); }
    } else {
      ReapSane(s, image, cs[0]);
      var t := Reap(s, image, cs[0]);
      ReapAllErr(t, image, cs[1..]);
      if |s.ring| == s.queued {
        ReapNothing(s, image, cs[0]);
        assert [] + ReapedNow(t, image, cs[1..]) == ReapedNow(t, image, cs[1..]);
      } else {
        assert s.queued < |s.ring| by { MoreInRing(s, image); }
        ReapOutcome(s, image, cs[0]);
        FirstHardConcat([cs[0].result], ReapedNow(t, image, cs[1..]));
      }
    }
  }

  lemma MoreInRing(s: Loop, image: seq<byte>)
    requires Sane(s, |image|)
    ensures s.queued <= |s.ring|
  {
  }

  lemma {:induction false} SubmitErr(s: Loop)
    ensures Submit(s).firstErr == s.firstErr
    decreases |s.pending|
  {
    if s.firstErr.None? && s.inflight < RING_ENTRIES && s.pending != [] && s.queued < RING_ENTRIES {
      SubmitErr(Queued(s));
    }
  }

  /** After any rounds the error is that of the first hard result reaped, and there is none if none was. */
  lemma {:induction false} ErrorExactly(s: Loop, image: seq<byte>, rounds: seq<Round>)
    requires Sane(s, |image|)
    ensures Run(s, image, rounds).s.firstErr ==
            if s.firstErr.Some? then s.firstErr else FirstHard(Reaped(s, image, rounds))
    decreases |rounds|
  {
    hide Submit, ReapAll, Sane, FirstHard, ReapedNow;
    assert FirstHard([]) == None by { FirstHardIs([]); }
    SubmitErr(s);
    SubmitSane(s, |image|);
    var t := Submit(s);
    if rounds != [] && t.inflight != 0 && !rounds[0].fatal {
      SaneQueue(t, |image|, rounds[0].consumed);
      var u := t.(queued := if rounds[0].consumed < t.queued then t.queued - rounds[0].consumed else 0);
      var v := ReapAll(u, image, rounds[0].completions);
      ReapAllErr(u, image, rounds[0].completions);
      ErrorExactly(v, image, rounds[1..]);
      FirstHardConcat(ReapedNow(u, image, rounds[0].completions), Reaped(v, image, rounds[1..]));
    }
  }

  /** Submission keeps the order, fills the ring as far as it goes, and stops for good after an error. */
  lemma {:induction false} SubmitFills(s: Loop)
    requires s.inflight == |s.ring| <= RING_ENTRIES && s.queued <= |s.ring|
    ensures var t := Submit(s);
            && t.ring + t.pending == s.ring + s.pending && t.inflight == |t.ring| && s.ring <= t.ring
            && t.queued - s.queued == |t.ring| - |s.ring|
            && |t.ring| == (if s.firstErr.Some? then |s.ring|
                            else if |s.ring| + |s.pending| < RING_ENTRIES then |s.ring| + |s.pending| else RING_ENTRIES)
    decreases |s.pending|
  {
    if s.firstErr.None? && s.inflight < RING_ENTRIES && s.pending != [] && s.queued < RING_ENTRIES {
      var q := Queued(s);
      assert q.ring + q.pending == s.ring + s.pending;
      SubmitFills(q);
    }
  }

  // ---------------------------------------------------------------------------
  // From extents to bytes
  // ---------------------------------------------------------------------------

  /** No address is filled twice. */
  ghost predicate DistinctAddresses(p: seq<(nat, nat)>) {
    forall i, j :: 0 <= i < j < |p| ==> p[i].0 != p[j].0
  }

  ghost predicate Inside(p: seq<(nat, nat)>, memLen: nat, imageLen: nat) {
    forall i :: 0 <= i < |p| ==> p[i].0 < memLen && p[i].1 < imageLen
  }

  lemma {:induction false} OpPairIn(ops: seq<Op>, i: nat, k: nat)
    requires i < |ops| && k < ops[i].len
    ensures (ops[i].ptr + k, ops[i].off + k) in OpPairs(ops)
  {
    var n := |ops| - 1;
    if i == n {
      assert Pairs(ops[n].ptr, ops[n].off, ops[n].len)[k] == (ops[n].ptr + k, ops[n].off + k);
    } else {
      OpPairIn(ops[..n], i, k);
    }
  }

  lemma {:induction false} PairHasOp(ops: seq<Op>, p: (nat, nat))
    requires p in OpPairs(ops)
    ensures exists i ::
              && 0 <= i < |ops| && ops[i].ptr <= p.0 < ops[i].ptr + ops[i].len
              && p.1 == ops[i].off + (p.0 - ops[i].ptr)
  {
    var n := |ops| - 1;
    if p in OpPairs(ops[..n]) {
      PairHasOp(ops[..n], p);
      var i :|
        && 0 <= i < n && ops[..n][i].ptr <= p.0 < ops[..n][i].ptr + ops[..n][i].len
        && p.1 == ops[..n][i].off + (p.0 - ops[..n][i].ptr);
      assert ops[i] == ops[..n][i];
    } else {
      assert p in Pairs(ops[n].ptr, ops[n].off, ops[n].len);
    }
  }

  /** An address in the last operation and in an earlier one occurs twice among the transfers. */
  lemma SharedAddress(ops: seq<Op>, i: nat, a: nat)
    requires i < |ops| - 1 && ops[i].ptr <= a < ops[i].ptr + ops[i].len
    requires ops[|ops| - 1].ptr <= a < ops[|ops| - 1].ptr + ops[|ops| - 1].len
    ensures !DistinctAddresses(OpPairs(ops))
  {
    var n := |ops| - 1;
    var front := OpPairs(ops[..n]);
    OpPairIn(ops[..n], i, a - ops[i].ptr);
    var x :| 0 <= x < |front| && front[x] == (a, ops[i].off + (a - ops[i].ptr));
    assert OpPairs(ops)[x].0 == a && OpPairs(ops)[|front| + (a - ops[n].ptr)].0 == a;
  }

  lemma {:induction false} DistinctIsSeparate(ops: seq<Op>)
    requires Bounded(ops) && DistinctAddresses(OpPairs(ops))
    ensures Separate(ops)
  {
    if ops != [] {
      var n := |ops| - 1;
      var last, front := ops[n], OpPairs(ops[..n]);
      assert forall i :: 0 <= i < |front| ==> OpPairs(ops)[i] == front[i];
      DistinctIsSeparate(ops[..n]);
      forall i | 0 <= i < n
        ensures ops[i].ptr + ops[i].len <= last.ptr || last.ptr + last.len <= ops[i].ptr
      {
        if ops[i].ptr < last.ptr + last.len && last.ptr < ops[i].ptr + ops[i].len {
          SharedAddress(ops, i, if ops[i].ptr < last.ptr then last.ptr else ops[i].ptr);
        }
      }
      assert forall i :: 0 <= i < n ==> ops[..n][i] == ops[i];
    }
  }

  lemma InsideIsFitting(ops: seq<Op>, memLen: nat, imageLen: nat)
    requires Bounded(ops) && Inside(OpPairs(ops), memLen, imageLen)
    ensures Fitting(ops, memLen, imageLen)
  {
    forall i | 0 <= i < |ops| ensures ops[i].ptr + ops[i].len <= memLen && ops[i].off + ops[i].len <= imageLen {
      OpPairIn(ops, i, ops[i].len - 1);
    }
  }

  function Start(ops: seq<Op>, mem: seq<byte>): Loop {
    Loop(ops, seq(|ops|, i => i), 0, None, [], 0, mem)
  }

  lemma StartInv(ops: seq<Op>, mem: seq<byte>, image: seq<byte>)
    requires Fitting(ops, |mem|, |image|)
    ensures Inv(Start(ops, mem), ops, mem, image)
  {
    var s := Start(ops, mem);
    forall i: nat | i < |ops| ensures !Finished(s, i) { assert s.pending[i] == i; }
  }

  /** `Ok` means every extent byte came from its own image offset, whatever the kernel did, and no
      outcome touches memory outside the extents. */
  lemma OkMeansEveryByte(ts: seq<Target>, ops: seq<Op>, mem: seq<byte>, image: seq<byte>, rounds: seq<Round>)
    requires OpPairs(ops) == TargetPairs(ts) && Bounded(ops)
    requires Inside(TargetPairs(ts), |mem|, |image|) && DistinctAddresses(TargetPairs(ts))
    ensures Fitting(ops, |mem|, |image|)
    ensures var o := Run(Start(ops, mem), image, rounds);
            && |o.s.mem| == |mem|
            && (o.Returned? ==> o.s.ring == [])
            && (o.Returned? && o.s.firstErr.None? ==> forall p :: p in TargetPairs(ts) ==> o.s.mem[p.0] == image[p.1])
            && (forall a :: 0 <= a < |mem| && (forall p :: p in TargetPairs(ts) ==> p.0 != a) ==> o.s.mem[a] == mem[a])
  {
    hide Run, OpPairs, TargetPairs, Delivered, Partitioned, RestOf, Sane, Fitting, Separate;
    InsideIsFitting(ops, |mem|, |image|);
    StartInv(ops, mem, image);
    DistinctIsSeparate(ops);
    assert Sane(Start(ops, mem), |image|) by { StartSane(ops, mem, |image|); }
    EveryScheduleIsSafe(Start(ops, mem), ops, mem, image, rounds);
    var s := Run(Start(ops, mem), image, rounds).s;
    if Run(Start(ops, mem), image, rounds).Returned? && s.firstErr.None? {
      forall p | p in TargetPairs(ts) ensures s.mem[p.0] == image[p.1] { ByteArrived(s, ops, image, p); }
    }
    forall a | 0 <= a < |mem| && (forall p :: p in TargetPairs(ts) ==> p.0 != a) ensures s.mem[a] == mem[a] {
      assert Elsewhere(ops, a) by { NotInOps(ops, a); }
    }
  }

  /** A run that returns reports success exactly if no result it reaped was hard, and then every extent byte
      came from its own image offset. */
  lemma OkExactly(ts: seq<Target>, ops: seq<Op>, mem: seq<byte>, image: seq<byte>, rounds: seq<Round>)
    requires OpPairs(ops) == TargetPairs(ts) && Bounded(ops)
    requires Inside(TargetPairs(ts), |mem|, |image|) && DistinctAddresses(TargetPairs(ts))
    ensures Fitting(ops, |mem|, |image|) && Sane(Start(ops, mem), |image|)
    ensures var o := Run(Start(ops, mem), image, rounds); var rs := Reaped(Start(ops, mem), image, rounds);
            && (o.s.firstErr.None? <==> forall i :: 0 <= i < |rs| ==> !Hard(rs[i]))
            && |o.s.mem| == |mem|
            && (o.Returned? && (forall i :: 0 <= i < |rs| ==> !Hard(rs[i])) ==>
                  forall p :: p in TargetPairs(ts) ==> o.s.mem[p.0] == image[p.1])
  {
    hide Run, Reaped, OpPairs, TargetPairs, Sane, Fitting, Hard;
    OkMeansEveryByte(ts, ops, mem, image, rounds);
    StartSane(ops, mem, |image|);
    ErrorExactly(Start(ops, mem), image, rounds);
    FirstHardIs(Reaped(Start(ops, mem), image, rounds));
  }

  lemma StartSane(ops: seq<Op>, mem: seq<byte>, imageLen: nat)
    requires Fitting(ops, |mem|, imageLen)
    ensures Sane(Start(ops, mem), imageLen)
  {
  }

  lemma NotInOps(ops: seq<Op>, a: nat)
    requires forall p :: p in OpPairs(ops) ==> p.0 != a
    ensures Elsewhere(ops, a)
  {
    forall i | 0 <= i < |ops| ensures !(ops[i].ptr <= a < ops[i].ptr + ops[i].len) {
      if ops[i].ptr <= a < ops[i].ptr + ops[i].len { OpPairIn(ops, i, a - ops[i].ptr); }
    }
  }

  lemma ByteArrived(s: Loop, ops: seq<Op>, image: seq<byte>, p: (nat, nat))
    requires |s.ops| == |ops| && Delivered(s, ops, image) && s.pending == [] && s.ring == [] && p in OpPairs(ops)
    ensures p.0 < |s.mem| && p.1 < |image| && s.mem[p.0] == image[p.1]
  {
    hide OpPairs;
    PairHasOp(ops, p);
    var i :| 0 <= i < |ops| && ops[i].ptr <= p.0 < ops[i].ptr + ops[i].len && p.1 == ops[i].off + (p.0 - ops[i].ptr);
    assert Arrived(s.mem, image, ops[i], ops[i].len) by { assert Progress(s, ops[i], i) == ops[i].len; }
    assert s.mem[p.0] == s.mem[ops[i].ptr..ops[i].ptr + ops[i].len][p.0 - ops[i].ptr];
    assert image[p.1] == image[ops[i].off..ops[i].off + ops[i].len][p.0 - ops[i].ptr];
  }

  // ---------------------------------------------------------------------------
  // The loop in place
  // ---------------------------------------------------------------------------

  /** `run`: the queue of pending indices, the in-flight count and the first error are local, the
      operations advance in place, and the kernel writes into memory. */
  method RunLoop(image: seq<byte>, mem: array<byte>, ops: array<Op>, rounds: seq<Round>) returns (o: Outcome)
    requires Fitting(ops[..], mem.Length, |image|)
    modifies mem, ops
    ensures Fitting(old(ops[..]), mem.Length, |image|)
    ensures o == Run(Start(old(ops[..]), old(mem[..])), image, rounds)
    ensures mem[..] == o.s.mem && ops[..] == o.s.ops
    ensures Sane(Start(old(ops[..]), old(mem[..])), |image|)
    ensures o.s.firstErr == FirstHard(Reaped(Start(old(ops[..]), old(mem[..])), image, rounds))
  {
    hide Submit, ReapAll, Sane, FirstHard, Reaped;
    var s := Start(ops[..], mem[..]);
    StartSane(ops[..], mem[..], |image|);
    ghost var s0 := s;
    ErrorExactly(s, image, rounds);
    for i := 0 to |rounds|
      invariant Sane(s, |image|) && s.ops == ops[..] && s.mem == mem[..]
      invariant Run(s0, image, rounds) == Run(s, image, rounds[i..])
    {
      assert rounds[i..][1..] == rounds[i + 1..];
      SubmitSane(s, |image|);
      SubmitFrame(s);
      s := SubmitPending(s);
      if s.inflight == 0 {
        return Returned(s);
      }
      if rounds[i].fatal {
        return Aborted(s);
      }
      SaneQueue(s, |image|, rounds[i].consumed);
      s := s.(queued := if rounds[i].consumed < s.queued then s.queued - rounds[i].consumed else 0);
      s := ReapCompletions(s, image, mem, ops, rounds[i].completions);
    }
    o := Running(s);
  }

  lemma SaneQueue(s: Loop, imageLen: nat, consumed: nat)
    requires Sane(s, imageLen)
    ensures Sane(s.(queued := if consumed < s.queued then s.queued - consumed else 0), imageLen)
  {
  }

  lemma {:induction false} SubmitFrame(s: Loop)
    ensures Submit(s).ops == s.ops && Submit(s).mem == s.mem
    decreases |s.pending|
  {
    if s.firstErr.None? && s.inflight < RING_ENTRIES && s.pending != [] && s.queued < RING_ENTRIES {
      SubmitFrame(Queued(s));
    }
  }

  method SubmitPending(s: Loop) returns (t: Loop)
    ensures t == Submit(s)
  {
    t := s;
    if s.firstErr.None? {
      while t.inflight < RING_ENTRIES && t.pending != [] && t.queued < RING_ENTRIES
        invariant t.firstErr.None? && Submit(t) == Submit(s)
        decreases |t.pending|
      {
        t := Queued(t);
      }
    }
  }

  method ReapCompletions(s: Loop, image: seq<byte>, mem: array<byte>, ops: array<Op>, cs: seq<Completion>)
    returns (t: Loop)
    requires Sane(s, |image|) && s.ops == ops[..] && s.mem == mem[..]
    modifies mem, ops
    ensures t == ReapAll(s, image, cs) && t.ops == ops[..] && t.mem == mem[..]
  {
    hide Reap, Sane;
    t := s;
    for i := 0 to |cs|
      invariant Sane(t, |image|) && t.ops == ops[..] && t.mem == mem[..]
      invariant ReapAll(s, image, cs) == ReapAll(t, image, cs[i..])
    {
      assert cs[i..][1..] == cs[i + 1..];
      ReapSane(t, image, cs[i]);
      t := ReapOne(t, image, mem, ops, cs[i]);
    }
  }

  method ReapOne(s: Loop, image: seq<byte>, mem: array<byte>, ops: array<Op>, c: Completion) returns (t: Loop)
    requires Sane(s, |image|) && s.ops == ops[..] && s.mem == mem[..]
    modifies mem, ops
    ensures t == Reap(s, image, c) && t.ops == ops[..] && t.mem == mem[..]
  {
    hide KernelWrites;
    t := s;
    if |s.ring| == s.queued {
      return;
    }
    var k := c.pick % (|s.ring| - s.queued);
    var idx := s.ring[k];
    var op := ops[idx];
    var n := Transferred(op, c.result);
    Fill(image, mem, op, n, c.noise);
    t := t.(ring := Without(s.ring, k), inflight := s.inflight - 1, mem := mem[..]);
    if c.result.Failed? {
      if c.result.transient && t.firstErr.None? {
        t := t.(pending := t.pending + [idx]);
      } else if t.firstErr.None? {
        t := t.(firstErr := Some(Errno));
      }
    } else if n == 0 {
      if t.firstErr.None? {
        t := t.(firstErr := Some(UnexpectedEof));
      }
    } else if n < op.len {
      ops[idx] := Op(op.ptr + n, op.len - n, op.off + n);
      t := t.(ops := ops[..]);
      if t.firstErr.None? {
        t := t.(pending := t.pending + [idx]);
      }
    }
  }

  method Fill(image: seq<byte>, mem: array<byte>, op: Op, n: nat, noise: seq<byte>)
    requires n <= op.len && op.ptr + op.len <= mem.Length && op.off + op.len <= |image|
    modifies mem
    ensures mem[..] == KernelWrites(old(mem[..]), image, op, n, noise)
  {
    for k := 0 to op.len
      invariant forall a :: 0 <= a < mem.Length ==>
        mem[a] == if op.ptr <= a < op.ptr + k then KernelWrites(old(mem[..]), image, op, n, noise)[a] else old(mem[a])
    {
      if k < n {
        mem[op.ptr + k] := image[op.off + k];
      } else if k < |noise| {
        mem[op.ptr + k] := noise[k];
      }
    }
  }
}
