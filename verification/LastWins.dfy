/** "The last writer wins", for any list of writes seen through any view. */
module LastWins {

  datatype Option<+T> = None | Some(value: T)

  function OrElse<T>(o: Option<T>, d: T): T {
    if o.Some? then o.value else d
  }

  /** The value of the last element of `s` that `f` says anything about. */
  ghost function Last<E, T>(s: seq<E>, f: E -> Option<T>): Option<T> {
    if s == [] then None
    else
      var later := Last(s[1..], f);
      if later.Some? then later else f(s[0])
  }

  lemma {:induction false} LastConcat<E, T>(a: seq<E>, b: seq<E>, f: E -> Option<T>)
    ensures Last(a + b, f) == if Last(b, f).Some? then Last(b, f) else Last(a, f)
  {
    if a == [] {
      assert a + b == b;
    } else {
      assert (a + b)[1..] == a[1..] + b;
      LastConcat(a[1..], b, f);
    }
  }

  lemma LastCons<E, T>(x: E, s: seq<E>, f: E -> Option<T>)
    ensures Last([x] + s, f) == if Last(s, f).Some? then Last(s, f) else f(x)
  {
    assert ([x] + s)[1..] == s;
  }

  lemma LastSnoc<E, T>(s: seq<E>, x: E, f: E -> Option<T>)
    ensures Last(s + [x], f) == if f(x).Some? then f(x) else Last(s, f)
  {
    LastConcat(s, [x], f);
    assert [x][1..] == [];
    assert Last([x], f) == f(x);
  }

  lemma {:induction false} LastNone<E, T>(s: seq<E>, f: E -> Option<T>)
    requires forall i :: 0 <= i < |s| ==> f(s[i]).None?
    ensures Last(s, f).None?
  {
    if s != [] { LastNone(s[1..], f); }
  }

  /** Views that agree on the list find the same value. */
  lemma {:induction false} LastSame<E, F, T>(s: seq<E>, t: seq<F>, f: E -> Option<T>, g: F -> Option<T>)
    requires |s| == |t| && forall i :: 0 <= i < |s| ==> f(s[i]) == g(t[i])
    ensures Last(s, f) == Last(t, g)
  {
    if s != [] { LastSame(s[1..], t[1..], f, g); }
  }

  /** The witness: the last element the view speaks about. */
  lemma {:induction false} LastIndex<E, T>(s: seq<E>, f: E -> Option<T>) returns (k: nat)
    requires Last(s, f).Some?
    ensures k < |s| && f(s[k]) == Last(s, f) && forall i :: k < i < |s| ==> f(s[i]).None?
  {
    if Last(s[1..], f).Some? {
      k := LastIndex(s[1..], f);
      k := k + 1;
      forall i | k < i < |s| ensures f(s[i]).None? { assert s[i] == s[1..][i - 1]; }
    } else {
      k := 0;
      forall i | 0 < i < |s| ensures f(s[i]).None? {
        if f(s[i]).Some? {
          assert s[1..][i - 1] == s[i];
          LastSome(s[1..], i - 1, f);
        }
      }
    }
  }

  lemma {:induction false} LastSome<E, T>(s: seq<E>, i: nat, f: E -> Option<T>)
    requires i < |s| && f(s[i]).Some?
    ensures Last(s, f).Some?
  {
    if i > 0 { LastSome(s[1..], i - 1, f); }
  }
}
