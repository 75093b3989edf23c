/** Bytes within the 64-bit words of memory, little-endian, for memcpy. */
module Bytes {

  function Pow256(j: nat): (p: int)
    requires j < 8
    ensures p > 0
  {
    match j
    case 0 => 1
    case 1 => 0x100
    case 2 => 0x1_0000
    case 3 => 0x100_0000
    case 4 => 0x1_0000_0000
    case 5 => 0x100_0000_0000
    case 6 => 0x1_0000_0000_0000
    case 7 => 0x100_0000_0000_0000
  }

  /** Byte j of a word. */
  function ByteOf(word: int, j: nat): int
    requires j < 8
  {
    word / Pow256(j) % 256
  }

  /** The word whose first t bytes are those of src and whose other bytes are those of dst. */
  function Merge(dst: int, src: int, t: nat): int
    requires t < 8
  {
    dst / Pow256(t) * Pow256(t) + src % Pow256(t)
  }

  /** (k * 256 * c * p + x) / p and x / p agree modulo 256. */
  lemma HighPartVanishes(k: int, c: int, p: int, x: int)
    requires p > 0
    ensures (k * c * 256 * p + x) / p % 256 == x / p % 256
  {
    var y := k * c * 256;
    assert (y * p + x) / p == y + x / p by {
      var q, r := x / p, x % p;
      assert y * p + x == (y + q) * p + r;
      QuotientUnique(y * p + x, p, y + q, r);
    }
    assert (256 * (k * c) + x / p) % 256 == x / p % 256;
  }

  lemma Multiple(d: int, p: int)
    requires p > 0 && -p < d * p < p
    ensures d == 0
  {
  }

  lemma QuotientUnique(n: int, p: int, q: int, r: int)
    requires p > 0 && 0 <= r < p && n == q * p + r
    ensures n / p == q
  {
    var d := n / p - q;
    assert d * p == r - n % p;
    Multiple(d, p);
  }

  lemma PowStep(j: nat, t: nat) returns (c: int)
    requires j < t < 8
    ensures Pow256(t) == c * 256 * Pow256(j)
  {
    c := Pow256(t - j - 1);
  }

  lemma MultipleVanishes(k: int, q: int, c: int, p: int, r: int)
    requires p > 0 && q == c * 256 * p
    ensures (k * q + r) / p % 256 == r / p % 256
  {
    Regroup(k, c, p);
    HighPartVanishes(k, c, p, r);
    assert k * q + r == k * c * 256 * p + r;
  }

  lemma MergedAt(d: int, src: int, p: int, q: int, c: int)
    requires p > 0 && q > 0 && q == c * 256 * p
    ensures (d * q + src % q) / p % 256 == src / p % 256
  {
    var r, k := src % q, src / q;
    MultipleVanishes(d, q, c, p, r);
    MultipleVanishes(k, q, c, p, r);
    assert src == k * q + r;
  }

  lemma Regroup(k: int, c: int, p: int)
    ensures k * (c * 256 * p) == k * c * 256 * p
  {
  }

  // Multiplying both sides by e does not change the quotient.
  lemma WideQuotient(d: int, q: int, r: int, e: int)
    requires q > 0 && 0 <= r < q && e > 0
    ensures (d * q + r) / (e * q) == d / e
  {
    var k, x := d / e, d % e;
    RemainderFits(x, q, r, e);
    assert d * q + r == k * (e * q) + (x * q + r) by {
      Distribute(k, e, x, q);
    }
    QuotientUnique(d * q + r, e * q, k, x * q + r);
  }

  lemma RemainderFits(x: int, q: int, r: int, e: int)
    requires 0 <= x < e && 0 <= r < q
    ensures 0 <= x * q + r < e * q
  {
    assert (x + 1) * q <= e * q;
  }

  lemma Distribute(k: int, e: int, x: int, q: int)
    ensures (k * e + x) * q == k * (e * q) + x * q
  {
  }

  lemma HigherPow(t: nat, j: nat) returns (e: int)
    requires t <= j < 8
    ensures e > 0 && Pow256(j) == e * Pow256(t)
  {
    e := Pow256(j - t);
  }

  lemma MergedAbove(dst: int, src: int, q: int, e: int)
    requires q > 0 && e > 0
    ensures (dst / q * q + src % q) / (e * q) == dst / (e * q)
  {
    WideQuotient(dst / q, q, src % q, e);
    assert dst == dst / q * q + dst % q;
    WideQuotient(dst / q, q, dst % q, e);
  }

  /** The first t bytes of a merged word come from src, the others from dst. */
  lemma MergedByte(dst: int, src: int, t: nat, j: nat)
    requires j < 8 && t < 8
    ensures ByteOf(Merge(dst, src, t), j) == ByteOf(if j < t then src else dst, j)
  {
    if j < t {
      var c := PowStep(j, t);
      MergedAt(dst / Pow256(t), src, Pow256(j), Pow256(t), c);
    } else {
      var e := HigherPow(t, j);
      MergedAbove(dst, src, Pow256(t), e);
    }
  }
}
