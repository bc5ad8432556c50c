/** Bytes, little-endian integers and the bit view of a byte string (bit j of byte i is bit 8i+j). */
module Bytes {

  type byte = b: int | 0 <= b < 256
  type u16 = x: int | 0 <= x < 0x1_0000
  type u32 = x: int | 0 <= x < 0x1_0000_0000
  type u64 = x: int | 0 <= x < 0x1_0000_0000_0000_0000

  function Pow256(n: nat): (r: nat)
    ensures r > 0
  {
    if n == 0 then 1 else 256 * Pow256(n - 1)
  }

  /** The `n` little-endian bytes of `v`. */
  function LE(v: nat, n: nat): (s: seq<byte>)
    ensures |s| == n
  {
    if n == 0 then [] else [v % 256] + LE(v / 256, n - 1)
  }

  function FromLE(s: seq<byte>): nat {
    if s == [] then 0 else s[0] + 256 * FromLE(s[1..])
  }

  lemma {:induction false} FromLEBound(s: seq<byte>)
    ensures FromLE(s) < Pow256(|s|)
  {
    if s != [] { FromLEBound(s[1..]); }
  }

  lemma {:induction false} LERoundTrip(v: nat, n: nat)
    requires v < Pow256(n)
    ensures FromLE(LE(v, n)) == v
  {
    if n > 0 {
      LERoundTrip(v / 256, n - 1);
      assert LE(v, n)[1..] == LE(v / 256, n - 1);
    }
  }

  lemma {:induction false} FromLERoundTrip(s: seq<byte>)
    ensures LE(FromLE(s), |s|) == s
  {
    if s != [] {
      FromLERoundTrip(s[1..]);
      assert FromLE(s) % 256 == s[0] && FromLE(s) / 256 == FromLE(s[1..]);
    }
  }

  function Zeros(n: nat): (z: seq<byte>)
    ensures |z| == n && forall i :: 0 <= i < n ==> z[i] == 0
  {
    seq(n, _ => 0)
  }

  lemma {:induction false} ZeroLE(n: nat)
    ensures LE(0, n) == Zeros(n)
  {
    if n > 0 { ZeroLE(n - 1); }
  }

  lemma Pow256Values()
    ensures Pow256(2) == 0x1_0000 && Pow256(4) == 0x1_0000_0000 && Pow256(8) == 0x1_0000_0000_0000_0000
  {
    assert Pow256(2) == 0x1_0000;
    assert Pow256(4) == 256 * (256 * Pow256(2));
    assert Pow256(6) == 256 * (256 * Pow256(4));
    assert Pow256(8) == 256 * (256 * Pow256(6));
  }

  function LE16(v: u16): seq<byte> { LE(v, 2) }
  function LE32(v: u32): seq<byte> { LE(v, 4) }
  function LE64(v: u64): seq<byte> { LE(v, 8) }

  function From16(s: seq<byte>): u16
    requires |s| == 2
  {
    FromLEBound(s); Pow256Values();
    FromLE(s)
  }

  function From32(s: seq<byte>): u32
    requires |s| == 4
  {
    FromLEBound(s); Pow256Values();
    FromLE(s)
  }

  function From64(s: seq<byte>): u64
    requires |s| == 8
  {
    FromLEBound(s); Pow256Values();
    FromLE(s)
  }

  lemma RoundTrip16(v: u16)
    ensures |LE16(v)| == 2 && From16(LE16(v)) == v
  {
    Pow256Values(); LERoundTrip(v, 2);
  }

  lemma RoundTrip32(v: u32)
    ensures |LE32(v)| == 4 && From32(LE32(v)) == v
  {
    Pow256Values(); LERoundTrip(v, 4);
  }

  lemma RoundTrip64(v: u64)
    ensures |LE64(v)| == 8 && From64(LE64(v)) == v
  {
    Pow256Values(); LERoundTrip(v, 8);
  }

  // ---------------------------------------------------------------------------
  // Bits
  // ---------------------------------------------------------------------------

  /** The `n` low bits of `v`, least significant first. */
  function ToBits(v: nat, n: nat): (s: seq<bool>)
    ensures |s| == n
  {
    if n == 0 then [] else [v % 2 == 1] + ToBits(v / 2, n - 1)
  }

  function FromBits(s: seq<bool>): nat {
    if s == [] then 0 else (if s[0] then 1 else 0) + 2 * FromBits(s[1..])
  }

  function Pow2(n: nat): nat {
    if n == 0 then 1 else 2 * Pow2(n - 1)
  }

  lemma {:induction false} BitsRoundTrip(v: nat, n: nat)
    requires v < Pow2(n)
    ensures FromBits(ToBits(v, n)) == v
  {
    if n > 0 {
      BitsRoundTrip(v / 2, n - 1);
      assert ToBits(v, n)[1..] == ToBits(v / 2, n - 1);
    }
  }

  lemma {:induction false} FromBitsRoundTrip(s: seq<bool>)
    ensures FromBits(s) < Pow2(|s|) && ToBits(FromBits(s), |s|) == s
  {
    if s != [] {
      FromBitsRoundTrip(s[1..]);
      assert FromBits(s) / 2 == FromBits(s[1..]);
    }
  }

  function BitsOf(s: seq<byte>): (r: seq<bool>)
    ensures |r| == 8 * |s|
  {
    if s == [] then [] else ToBits(s[0], 8) + BitsOf(s[1..])
  }

  lemma {:induction false} BitsOfConcat(a: seq<byte>, b: seq<byte>)
    ensures BitsOf(a + b) == BitsOf(a) + BitsOf(b)
  {
    if a == [] {
      assert a + b == b;
    } else {
      assert (a + b)[1..] == a[1..] + b;
      BitsOfConcat(a[1..], b);
    }
  }

  lemma {:induction false} BitsOfAt(s: seq<byte>, i: nat, j: nat)
    requires i < |s| && j < 8
    ensures BitsOf(s)[8 * i + j] == ToBits(s[i], 8)[j]
  {
    if i > 0 { BitsOfAt(s[1..], i - 1, j); }
  }

  /** The little-endian bytes of an integer are its binary expansion. */
  lemma {:induction false} BitsOfLE(v: nat, n: nat)
    ensures BitsOf(LE(v, n)) == ToBits(v, 8 * n)
  {
    if n > 0 {
      BitsOfLE(v / 256, n - 1);
      assert LE(v, n)[0] == v % 256 && LE(v, n)[1..] == LE(v / 256, n - 1);
      ToBitsSplit(v, 8, 8 * (n - 1));
      ShrByte(v);
      LowByte(v);
    }
  }

  function Shr(v: nat, n: nat): nat {
    if n == 0 then v else Shr(v / 2, n - 1)
  }

  lemma {:induction false} ToBitsSplit(v: nat, a: nat, b: nat)
    ensures ToBits(v, a + b) == ToBits(v, a) + ToBits(Shr(v, a), b)
  {
    if a > 0 {
      ToBitsSplit(v / 2, a - 1, b);
      var low := [v % 2 == 1];
      assert ToBits(v, a + b) == low + ToBits(v / 2, a - 1 + b);
      assert ToBits(v, a) == low + ToBits(v / 2, a - 1);
    }
  }

  lemma ShrByte(v: nat)
    ensures Shr(v, 8) == v / 256
  {
    assert Shr(v, 8) == Shr(v / 2 / 2, 6) == Shr(v / 2 / 2 / 2 / 2, 4);
    var w := v / 2 / 2 / 2 / 2;
    assert w == v / 16;
    assert Shr(w, 4) == Shr(w / 2 / 2, 2) == w / 2 / 2 / 2 / 2 == w / 16;
  }

  lemma LowByte(v: nat)
    ensures Pow2(8) == 256 && ToBits(v % 256, 8) == ToBits(v, 8)
  {
    assert Pow2(8) == 256;
    LowBits(v % 256, v / 256, 8);
  }

  lemma {:induction false} LowBits(r: nat, q: nat, n: nat)
    ensures ToBits(r + Pow2(n) * q, n) == ToBits(r, n)
  {
    if n > 0 {
      var m := Pow2(n - 1) * q;
      assert Pow2(n) * q == 2 * m;
      assert (r + 2 * m) / 2 == r / 2 + m && (r + 2 * m) % 2 == r % 2;
      LowBits(r / 2, q, n - 1);
    }
  }
}
