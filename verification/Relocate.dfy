/** The cycle-aware block permutation of in-place defragmentation (src/disk.rs, steps 3 and 4 of
    `defragment_inplace_on`): a map of block moves is carried out inside the image with one
    scratch block, as if all moves had happened at once. */
module Relocate {

  type Moves = map<nat, nat>

  ghost predicate Injective(m: Moves) {
    forall s, t :: s in m && t in m && m[s] == m[t] ==> s == t
  }

  ghost predicate NoFixedPoint(m: Moves) {
    forall s :: s in m ==> m[s] != s
  }

  ghost predicate InRange(m: Moves, n: nat) {
    forall s :: s in m ==> 0 <= s < n && 0 <= m[s] < n
  }

  /** `inv` is the inverse of `m`: the source block of every pending destination. */
  ghost predicate Inverse(m: Moves, inv: Moves) {
    && (forall s :: s in m ==> m[s] in inv && inv[m[s]] == s)
    && (forall d :: d in inv ==> inv[d] in m && m[inv[d]] == d)
  }

  ghost predicate IsDestination(m: Moves, b: nat) {
    exists s :: s in m && m[s] == b
  }

  /** `after` is what a simultaneous execution of `m` makes of `before`. */
  ghost predicate Moved<T>(before: seq<T>, after: seq<T>, m: Moves) {
    && InRange(m, |before|)
    && |after| == |before|
    && (forall s :: s in m ==> after[m[s]] == before[s])
    && (forall b :: 0 <= b < |before| && !IsDestination(m, b) ==> after[b] == before[b])
  }

  // ---------------------------------------------------------------------------
  // Finite injections
  // ---------------------------------------------------------------------------

  lemma RemovePair(m: Moves, inv: Moves, s: nat)
    requires Inverse(m, inv) && s in m
    ensures Inverse(m - {s}, inv - {m[s]})
  {
  }

  lemma {:induction false} SameSize(m: Moves, inv: Moves)
    requires Inverse(m, inv)
    ensures |m.Keys| == |inv.Keys|
    decreases |m|
  {
    if m.Keys == {} {
      assert forall d :: d in inv ==> inv[d] in m;
      assert inv.Keys == {};
    } else {
      var s: nat :| s in m.Keys;
      var m', inv' := m - {s}, inv - {m[s]};
      assert m.Keys == m'.Keys + {s};
      assert inv.Keys == inv'.Keys + {m[s]};
      RemovePair(m, inv, s);
      SameSize(m', inv');
    }
  }

  /** Every destination is itself a pending source. */
  ghost predicate Closed(m: Moves) {
    forall s :: s in m ==> m[s] in m.Keys
  }

  /** When every destination is itself a pending source, the pending moves permute their sources. */
  lemma {:induction false} InjectionIsOnto(m: Moves, inv: Moves)
    requires Inverse(m, inv)
    requires Closed(m)
    ensures inv.Keys == m.Keys
  {
    SameSize(m, inv);
    forall d | d in inv.Keys ensures d in m.Keys { InversePair(m, inv, d); }
    SubsetOfSameSize(inv.Keys, m.Keys);
  }

  lemma SubsetOfSameSize(a: set<nat>, b: set<nat>)
    requires a <= b && |a| == |b|
    ensures a == b
  {
    assert b == a + (b - a);
    assert |b| == |a| + |b - a|;
  }

  lemma InversePair(m: Moves, inv: Moves, d: nat)
    requires Inverse(m, inv) && d in inv
    ensures inv[d] in m && m[inv[d]] == d
  {
  }

  lemma OntoIsClosed(m: Moves, inv: Moves)
    requires Inverse(m, inv) && inv.Keys == m.Keys
    ensures Closed(m)
  {
    forall s | s in m ensures m[s] in m.Keys { assert m[s] in inv.Keys; }
  }

  // ---------------------------------------------------------------------------
  // Partial execution
  // ---------------------------------------------------------------------------

  /** Every finished move has delivered its block and every pending source is still intact, except
      that the blocks in `saved` may have been overwritten. */
  ghost predicate Progress<T>(before: seq<T>, now: seq<T>, moves: Moves, pending: Moves, saved: set<nat>) {
    && InRange(moves, |before|)
    && |now| == |before|
    && (forall s :: s in pending ==> s in moves && pending[s] == moves[s])
    && (forall s :: s in moves && s !in pending ==> now[moves[s]] == before[s])
    && (forall s :: s in pending && s !in saved ==> now[s] == before[s])
    && (forall b :: 0 <= b < |before| && !IsDestination(moves, b) ==> now[b] == before[b])
  }

  /** Delivering one block into a destination no pending move reads any more. */
  lemma DeliverStep<T>(before: seq<T>, now: seq<T>, moves: Moves, pending: Moves, saved: set<nat>, src: nat, value: T)
    requires Injective(moves)
    requires Progress(before, now, moves, pending, saved)
    requires src in pending && value == before[src]
    requires pending[src] in pending ==> pending[src] in saved || pending[src] == src
    ensures Progress(before, now[pending[src] := value], moves, pending - {src}, saved)
  {
    assert IsDestination(moves, pending[src]);
  }

  lemma PendingIntact<T>(before: seq<T>, now: seq<T>, moves: Moves, pending: Moves, saved: set<nat>, s: nat)
    requires Progress(before, now, moves, pending, saved) && s in pending
    ensures |now| == |before| && s < |now| && pending[s] < |now|
    ensures s !in saved ==> now[s] == before[s]
  {
  }

  lemma SaveOne<T>(before: seq<T>, now: seq<T>, moves: Moves, pending: Moves, leader: nat)
    requires Progress(before, now, moves, pending, {})
    ensures Progress(before, now, moves, pending, {leader})
  {
  }

  lemma SavedGone<T>(before: seq<T>, now: seq<T>, moves: Moves, pending: Moves, leader: nat)
    requires Progress(before, now, moves, pending, {leader}) && leader !in pending
    ensures Progress(before, now, moves, pending, {})
  {
  }

  method MapInverse(m: Moves) returns (inv: Moves)
    requires Injective(m)
    ensures Inverse(m, inv)
  {
    inv := map[];
    var todo := m.Keys;
    while todo != {}
      invariant todo <= m.Keys
      invariant forall s :: s in m && s !in todo ==> m[s] in inv && inv[m[s]] == s
      invariant forall d :: d in inv ==> inv[d] in m && inv[d] !in todo && m[inv[d]] == d
      decreases |todo|
    {
      var s: nat :| s in todo;
      inv := inv[m[s] := s];
      todo := todo - {s};
    }
  }

  /** The pending sources whose destination no pending move still has to read. */
  method FreeTargets(pending: Moves) returns (free: seq<nat>)
    ensures forall s :: s in free <==> s in pending && pending[s] !in pending
  {
    free := [];
    var todo := pending.Keys;
    while todo != {}
      invariant todo <= pending.Keys
      invariant forall s :: s in free <==> s in pending && s !in todo && pending[s] !in pending
      decreases |todo|
    {
      var s: nat :| s in todo;
      if pending[s] !in pending {
        free := free + [s];
      }
      todo := todo - {s};
    }
  }

  /** `free` lists every pending source whose destination is free, and no other pending one. */
  ghost predicate FreeList(free: seq<nat>, pending: Moves) {
    && (forall s :: s in free && s in pending ==> pending[s] !in pending)
    && (forall s :: s in pending && pending[s] !in pending ==> s in free)
  }

  lemma StartMoves<T>(before: seq<T>, moves: Moves, free: seq<nat>)
    requires InRange(moves, |before|)
    requires forall s :: s in free <==> s in moves && moves[s] !in moves
    ensures FreeList(free, moves) && Progress(before, before, moves, moves, {})
  {
  }

  lemma NoneFree(pending: Moves)
    ensures FreeList([], pending) <==> Closed(pending)
  {
  }

  lemma DropStale(free: seq<nat>, src: nat, pending: Moves)
    requires FreeList(free + [src], pending) && src !in pending
    ensures FreeList(free, pending)
  {
    assert forall s :: s in free + [src] <==> s in free || s == src;
  }

  lemma AllDelivered<T>(before: seq<T>, now: seq<T>, moves: Moves, pending: Moves)
    requires Progress(before, now, moves, pending, {}) && pending.Keys == {}
    ensures Moved(before, now, moves)
  {
  }

  lemma FreeListAfterMove(free: seq<nat>, free': seq<nat>, pending: Moves, incoming: Moves, src: nat)
    requires FreeList(free + [src], pending) && Inverse(pending, incoming)
    requires src in pending
    requires free' == if src in incoming then free + [incoming[src]] else free
    ensures FreeList(free', pending - {src})
  {
    var pending' := pending - {src};
    assert forall s :: s in free + [src] <==> s in free || s == src;
    forall s | s in pending' && pending'[s] !in pending' ensures s in free' {
      if pending[s] == src {
        assert incoming[src] == s;
      } else {
        assert s in free + [src];
      }
    }
    forall s | s in free' && s in pending' ensures pending'[s] !in pending' {
      if s in free { assert s in free + [src]; }
    }
  }

  method RelocateBlocks<T>(image: array<T>, moves: Moves)
    requires Injective(moves) && NoFixedPoint(moves) && InRange(moves, image.Length)
    modifies image
    ensures Moved(old(image[..]), image[..], moves)
  {
    hide *;
    var pending := moves;
    var occupied := pending.Keys;
    var incoming := MapInverse(pending);
    var freeTargets := FreeTargets(pending);
    StartMoves(image[..], moves, freeTargets);
    while pending.Keys != {}
      invariant occupied == pending.Keys
      invariant Inverse(pending, incoming)
      invariant Progress(old(image[..]), image[..], moves, pending, {})
      invariant FreeList(freeTargets, pending)
      decreases |pending|, |freeTargets|
    {
      if freeTargets != [] {
        var src := freeTargets[|freeTargets| - 1];
        var rest := freeTargets[..|freeTargets| - 1];
        assert freeTargets == rest + [src];
        if src in pending {
          pending, occupied, incoming, freeTargets :=
            MoveOne(image, moves, pending, occupied, incoming, rest, src, old(image[..]));
        } else {
          DropStale(rest, src, pending);
          freeTargets := rest;
        }
      } else {
        NoneFree(pending);
        pending, occupied, incoming := BreakCycle(image, moves, pending, occupied, incoming, old(image[..]));
        NoneFree(pending);
      }
    }
    AllDelivered(old(image[..]), image[..], moves, pending);
  }

  /** The block of `src` moves straight to its free destination; whoever waited for `src` to be
      vacated becomes movable. */
  method MoveOne<T>(image: array<T>, ghost moves: Moves, pending0: Moves, occupied0: set<nat>, incoming0: Moves,
                    free0: seq<nat>, src: nat, ghost before: seq<T>)
    returns (pending: Moves, occupied: set<nat>, incoming: Moves, free: seq<nat>)
    requires Injective(moves)
    requires src in pending0 && occupied0 == pending0.Keys
    requires Inverse(pending0, incoming0)
    requires Progress(before, image[..], moves, pending0, {})
    requires FreeList(free0 + [src], pending0)
    modifies image
    ensures |pending| < |pending0| && occupied == pending.Keys
    ensures Inverse(pending, incoming)
    ensures Progress(before, image[..], moves, pending, {})
    ensures FreeList(free, pending)
  {
    assert src in free0 + [src];
    var dst := pending0[src];
    DeliverStep(before, image[..], moves, pending0, {}, src, image[src]);
    RemovePair(pending0, incoming0, src);
    pending := pending0 - {src};
    ghost var was := image[..];
    image[dst] := image[src];
    assert image[..] == was[dst := was[src]];
    occupied := occupied0 - {src};
    incoming := incoming0 - {dst};
    free := free0;
    if src in incoming {
      free := free + [incoming[src]];
    }
    assert dst != src;
    FreeListAfterMove(free0, free, pending0, incoming0, src);
  }

  /** State of one cycle being rotated: `leader` waits in the scratch block, `dest` is the vacated
      block to be filled next. */
  ghost predicate Rotating<T>(before: seq<T>, now: seq<T>, moves: Moves, pending: Moves, incoming: Moves, leader: nat,
                              dest: nat)
  {
    && leader in pending
    && (dest == leader || dest !in pending)
    && Inverse(pending, incoming)
    && incoming.Keys == pending.Keys - {leader} + {dest}
    && Progress(before, now, moves, pending, {leader})
  }

  lemma StartRotation<T>(before: seq<T>, now: seq<T>, moves: Moves, pending: Moves, incoming: Moves, leader: nat)
    requires Inverse(pending, incoming) && Closed(pending) && leader in pending
    requires Progress(before, now, moves, pending, {})
    ensures Rotating(before, now, moves, pending, incoming, leader, leader)
    ensures leader < |now| == |before| && now[leader] == before[leader]
  {
    hide Inverse, Closed, Progress;
    InjectionIsOnto(pending, incoming);
    PendingIntact(before, now, moves, pending, {}, leader);
    SaveOne(before, now, moves, pending, leader);
  }

  /** While the chain has not come back to the leader, the vacated block has another predecessor. */
  lemma RotatingNext<T>(before: seq<T>, now: seq<T>, moves: Moves, pending: Moves, incoming: Moves, leader: nat,
                        dest: nat)
    requires Rotating(before, now, moves, pending, incoming, leader, dest)
    ensures leader in pending && dest in incoming && incoming[dest] in pending && pending[incoming[dest]] == dest
    ensures |now| == |before| && dest < |now| && incoming[dest] < |now| && leader < |now|
    ensures incoming[dest] != leader ==> now[incoming[dest]] == before[incoming[dest]]
  {
    hide Progress, Inverse;
    InversePair(pending, incoming, dest);
    PendingIntact(before, now, moves, pending, {leader}, incoming[dest]);
    PendingIntact(before, now, moves, pending, {leader}, leader);
  }

  lemma RotateStep<T>(before: seq<T>, now: seq<T>, moves: Moves, pending: Moves, incoming: Moves, leader: nat,
                      dest: nat,
                      src: nat)
    requires Injective(moves)
    requires Rotating(before, now, moves, pending, incoming, leader, dest)
    requires dest in incoming && src == incoming[dest] && src != leader && src < |now| && dest < |now|
    ensures Rotating(before, now[dest := now[src]], moves, pending - {src}, incoming - {dest}, leader, src)
  {
    hide Progress, Inverse, Injective;
    RotatingNext(before, now, moves, pending, incoming, leader, dest);
    DeliverStep(before, now, moves, pending, {leader}, src, now[src]);
    RemovePair(pending, incoming, src);
  }

  lemma RotateEnd<T>(before: seq<T>, now: seq<T>, moves: Moves, pending: Moves, incoming: Moves, leader: nat, dest: nat)
    requires Injective(moves)
    requires Rotating(before, now, moves, pending, incoming, leader, dest)
    requires dest in incoming && incoming[dest] == leader && dest < |now| && leader < |before|
    ensures Inverse(pending - {leader}, incoming - {dest})
    ensures Progress(before, now[dest := before[leader]], moves, pending - {leader}, {})
    ensures Closed(pending - {leader})
  {
    hide Progress, Inverse, Injective, Closed;
    RotatingNext(before, now, moves, pending, incoming, leader, dest);
    DeliverStep(before, now, moves, pending, {leader}, leader, before[leader]);
    RemovePair(pending, incoming, leader);
    OntoIsClosed(pending - {leader}, incoming - {dest});
    SavedGone(before, now[dest := before[leader]], moves, pending - {leader}, leader);
  }

  /** One cycle: the leader is saved in the scratch block, its predecessors are pulled one by one
      into the block just vacated, and the leader goes last. */
  method BreakCycle<T>(image: array<T>, ghost moves: Moves, pending0: Moves, occupied0: set<nat>,
                       incoming0: Moves, ghost before: seq<T>)
    returns (pending: Moves, occupied: set<nat>, incoming: Moves)
    requires Injective(moves)
    requires pending0.Keys != {} && occupied0 == pending0.Keys
    requires Inverse(pending0, incoming0)
    requires Progress(before, image[..], moves, pending0, {})
    requires Closed(pending0)
    modifies image
    ensures |pending| < |pending0| && occupied == pending.Keys
    ensures Inverse(pending, incoming)
    ensures Progress(before, image[..], moves, pending, {})
    ensures Closed(pending)
  {
    hide *;
    pending, occupied, incoming := pending0, occupied0, incoming0;
    var leader: nat :| leader in pending.Keys;
    StartRotation(before, image[..], moves, pending, incoming, leader);
    var scratch := image[leader];
    occupied := occupied - {leader};
    var dest := leader;
    while dest in incoming && incoming[dest] != leader
      invariant Rotating(before, image[..], moves, pending, incoming, leader, dest)
      invariant occupied == pending.Keys - {leader} && |pending| <= |pending0|
      decreases |pending|
    {
      var src := incoming[dest];
      RotatingNext(before, image[..], moves, pending, incoming, leader, dest);
      RotateStep(before, image[..], moves, pending, incoming, leader, dest, src);
      ghost var was := image[..];
      image[dest] := image[src];
      assert image[..] == was[dest := was[src]];
      pending := pending - {src};
      occupied := occupied - {src};
      incoming := incoming - {dest};
      dest := src;
    }
    RotatingNext(before, image[..], moves, pending, incoming, leader, dest);
    RotateEnd(before, image[..], moves, pending, incoming, leader, dest);
    ghost var was := image[..];
    image[dest] := scratch;
    assert image[..] == was[dest := scratch];
    pending := pending - {leader};
    incoming := incoming - {dest};
  }
}
