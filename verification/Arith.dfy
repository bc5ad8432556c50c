/** Uniqueness of quotient and remainder. */
module Arith {

  lemma MulGap(m: nat, q: nat, q': nat)
    requires q < q'
    ensures m * q + m <= m * q'
  {
    assert m * q' == m * q + m * (q' - q);
    assert m * (q' - q) == m + m * (q' - q - 1);
  }

  lemma DivUnique(e: nat, m: nat, q: nat, r: nat, q': nat, r': nat)
    requires r < m && r' < m && e == r + m * q && e == m * q' + r'
    ensures q == q' && r == r'
  {
    if q < q' {
      MulGap(m, q, q');
    } else if q' < q {
      MulGap(m, q', q);
    }
  }

  lemma Split(r: nat, q: nat, m: nat, e: nat)
    requires r < m && e == r + m * q
    ensures e / m == q && e % m == r
  {
    DivUnique(e, m, q, r, e / m, e % m);
  }
}
