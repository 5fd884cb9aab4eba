/** Powers of two and the multiplicative hash of include/hsfs/hash.h. */
module Hash {
  import opened Basics

  /** 2^63 + 2^61 - 2^57 + 2^54 - 2^51 - 2^18 + 1 */
  const GOLDEN_RATIO_PRIME_64: int := 0x9e37_ffff_fffc_0001

  /** Both tables have 2^10 buckets. */
  const BITS: nat := 10
  const BUCKETS: nat := 1024

  function Pow2(n: nat): (p: int)
    ensures p > 0
  {
    if n == 0 then 1 else 2 * Pow2(n - 1)
  }

  lemma {:induction false} Pow2Add(a: nat, b: nat)
    ensures Pow2(a + b) == Pow2(a) * Pow2(b)
  {
    if a > 0 {
      Pow2Add(a - 1, b);
      Double(Pow2(a - 1), Pow2(b));
    }
  }

  lemma Double(x: int, y: int)
    ensures (2 * x) * y == 2 * (x * y)
  {
  }

  lemma Pow2Values()
    ensures Pow2(10) == 1024 && Pow2(20) == 0x10_0000 && Pow2(64) == TWO64
  {
    assert Pow2(2) == 4 && Pow2(8) == 256;
    Pow2Add(8, 2);
    Pow2Add(10, 10);
    Pow2Add(20, 2);
    Pow2Add(22, 22);
    Pow2Add(44, 20);
  }

  function Quotient(x: nat, d: int): (q: nat)
    requires d > 0
    ensures forall k: int {:trigger k * d} :: x < k * d ==> q < k
    ensures q * d <= x
  {
    assert forall k: int {:trigger k * d} :: x < k * d ==> x / d < k by {
      forall k: int | x < k * d ensures x / d < k { QuotientBelow(x, d, k); }
    }
    x / d
  }

  lemma QuotientBelow(x: nat, d: int, k: int)
    requires d > 0 && x < k * d
    ensures x / d < k
  {
    var q := x / d;
    assert q * d <= x;
    assert (k - q) * d > 0;
  }

  /** The hash as its comment describes it: the top bits of a product modulo 2^64. */
  function Hash64(val: u64, bits: nat): (h: nat)
    requires 0 < bits <= 64
    ensures h < Pow2(bits)
  {
    Pow2Values();
    Pow2Add(bits, 64 - bits);
    Quotient(Wrap(val * 0x9e37_ffff_fffc_0001), Pow2(64 - bits))
  }

  /** `w` is `val * c` after wrap-around. */
  ghost predicate Product(w: u64, val: u64, c: int) {
    w == Wrap(val * c)
  }

  /** `h` is what a shift right by `64 - bits` leaves of the key times the prime, cut to 64 bits. */
  ghost predicate TopBits(h: int, val: u64, bits: nat)
    requires bits <= 64
  {
    h * Pow2(64 - bits) <= val * 0x9e37_ffff_fffc_0001 % 0x1_0000_0000_0000_0000 < h * Pow2(64 - bits) + Pow2(64 - bits)
  }

  lemma QuotientBounds(x: nat, d: int)
    requires d > 0
    ensures Quotient(x, d) * d <= x < Quotient(x, d) * d + d
  {
    assert x == (x / d) * d + x % d;
  }

  lemma HashTopBits(val: u64, bits: nat)
    requires 0 < bits <= 64
    ensures TopBits(Hash64(val, bits), val, bits)
  {
    QuotientBounds(Wrap(val * 0x9e37_ffff_fffc_0001), Pow2(64 - bits));
  }

  lemma WrapUnique(w: u64, x: int, q: int)
    requires w == x + TWO64 * q
    ensures w == Wrap(x)
  {
  }

  lemma ProductOne(val: u64)
    ensures Product(val, val, 1)
  {
  }

  /** One line pair of `hash_64`: shift `n` left by a constant, then add or subtract it. */
  lemma AddStep(val: u64, hash: u64, c: int, n: u64, s: int, k: int, s': int, c': int)
    requires Product(hash, val, c) && Product(n, val, s) && s' == s * k && c' == c + s'
    ensures Product(Shifted(n, k), val, s') && Product(Add(hash, Shifted(n, k)), val, c')
  {
    ShiftStep(val, hash, c, n, s, k);
  }

  lemma SubStep(val: u64, hash: u64, c: int, n: u64, s: int, k: int, s': int, c': int)
    requires Product(hash, val, c) && Product(n, val, s) && s' == s * k && c' == c - s'
    ensures Product(Shifted(n, k), val, s') && Product(Sub(hash, Shifted(n, k)), val, c')
  {
    ShiftStep(val, hash, c, n, s, k);
  }

  lemma ShiftStep(val: u64, hash: u64, c: int, n: u64, s: int, k: int)
    requires Product(hash, val, c) && Product(n, val, s)
    ensures Product(Wrap(n * k), val, s * k)
    ensures Product(Wrap(hash + Wrap(n * k)), val, c + s * k)
    ensures Product(Wrap(hash - Wrap(n * k)), val, c - s * k)
  {
    var qh, qn := (val * c) / TWO64, (val * s) / TWO64;
    var m := Wrap(n * k);
    var qm := (n * k) / TWO64;
    assert m == n * k - TWO64 * qm;
    assert n * k == (val * s) * k - TWO64 * (qn * k) == val * (s * k) - TWO64 * (qn * k);
    WrapUnique(m, val * (s * k), -(qn * k) - qm);
    assert val * (c + s * k) == val * c + val * (s * k);
    assert val * (c - s * k) == val * c - val * (s * k);
    SumWraps(hash, val * c, qh, m, val * (s * k), qn * k + qm);
  }

  lemma SumWraps(a: u64, x: int, qx: int, b: u64, y: int, qy: int)
    requires a == x - TWO64 * qx && b == y - TWO64 * qy
    ensures Wrap(a + b) == Wrap(x + y)
    ensures Wrap(a - b) == Wrap(x - y)
  {
    WrapUnique(Wrap(a + b), x + y, -qx - qy - (a + b) / TWO64);
    WrapUnique(Wrap(a - b), x - y, -qx + qy - (a - b) / TWO64);
  }

  /** The word after one shift of `n`, and the hash after adding or subtracting it. */
  function Shifted(n: u64, k: int): u64 { Wrap(n * k) }
  function Add(hash: u64, n: u64): u64 { Wrap(hash + n) }
  function Sub(hash: u64, n: u64): u64 { Wrap(hash - n) }

  /** `hash_64`: shifts and adds in place of the multiplication. */
  method ShiftAddHash(val: u64, bits: nat) returns (h: nat)
    requires 0 < bits <= 64
    ensures h == Hash64(val, bits) && TopBits(h, val, bits)
  {
    HashTopBits(val, bits);
    var hash := val;
    var n := hash;
    n := Shifted(n, 0x4_0000);
    hash := Sub(hash, n);
    n := Shifted(n, 0x2_0000_0000);
    hash := Sub(hash, n);
    n := Shifted(n, 8);
    hash := Add(hash, n);
    n := Shifted(n, 8);
    hash := Sub(hash, n);
    n := Shifted(n, 16);
    hash := Add(hash, n);
    n := Shifted(n, 4);
    hash := Add(hash, n);
    ShiftAddChain(val);
    return Quotient(hash, Pow2(64 - bits));
  }

  lemma ShiftAddChain(val: u64)
    ensures var n1 := Shifted(val, 0x4_0000);
            var n2 := Shifted(n1, 0x2_0000_0000);
            var n3 := Shifted(n2, 8);
            var n4 := Shifted(n3, 8);
            var n5 := Shifted(n4, 16);
            Add(Add(Sub(Add(Sub(Sub(val, n1), n2), n3), n4), n5), Shifted(n5, 4)) == Wrap(val * GOLDEN_RATIO_PRIME_64)
  {
    var n1 := Shifted(val, 0x4_0000);
    var n2 := Shifted(n1, 0x2_0000_0000);
    var n3 := Shifted(n2, 8);
    var h3 := Add(Sub(Sub(val, n1), n2), n3);
    assert Product(n3, val, 0x40_0000_0000_0000) && Product(h3, val, 0x37_ffff_fffc_0001) by {
      ShiftAddHead(val);
    }
    ShiftAddTail(val, n3, h3);
  }

  lemma ShiftAddHead(val: u64)
    ensures var n1 := Shifted(val, 0x4_0000);
            var n2 := Shifted(n1, 0x2_0000_0000);
            var n3 := Shifted(n2, 8);
            Product(n3, val, 0x40_0000_0000_0000) && Product(Add(Sub(Sub(val, n1), n2), n3), val, 0x37_ffff_fffc_0001)
  {
    var n1 := Shifted(val, 0x4_0000);
    var n2 := Shifted(n1, 0x2_0000_0000);
    ProductOne(val);
    SubStep(val, val, 1, val, 1, 0x4_0000, 0x4_0000, -0x3_ffff);
    SubStep(val, Sub(val, n1), -0x3_ffff, n1, 0x4_0000, 0x2_0000_0000, 0x8_0000_0000_0000, -0x8_0000_0003_ffff);
    AddStep(val, Sub(Sub(val, n1), n2), -0x8_0000_0003_ffff, n2, 0x8_0000_0000_0000, 8,
            0x40_0000_0000_0000, 0x37_ffff_fffc_0001);
  }

  lemma ShiftAddTail(val: u64, n3: u64, h3: u64)
    requires Product(n3, val, 0x40_0000_0000_0000) && Product(h3, val, 0x37_ffff_fffc_0001)
    ensures var n4 := Shifted(n3, 8);
            var n5 := Shifted(n4, 16);
            Add(Add(Sub(h3, n4), n5), Shifted(n5, 4)) == Wrap(val * GOLDEN_RATIO_PRIME_64)
  {
    var n4 := Shifted(n3, 8);
    var n5 := Shifted(n4, 16);
    SubStep(val, h3, 0x37_ffff_fffc_0001, n3, 0x40_0000_0000_0000, 8, 0x200_0000_0000_0000, -0x1c8_0000_0003_ffff);
    AddStep(val, Sub(h3, n4), -0x1c8_0000_0003_ffff, n4, 0x200_0000_0000_0000, 16,
            0x2000_0000_0000_0000, 0x1e37_ffff_fffc_0001);
    AddStep(val, Add(Sub(h3, n4), n5), 0x1e37_ffff_fffc_0001, n5, 0x2000_0000_0000_0000, 4,
            0x8000_0000_0000_0000, GOLDEN_RATIO_PRIME_64);
  }

  /** The bucket of a 64-bit key in a 1024-bucket table. */
  function Bucket(key: u64): (b: nat)
    ensures b < BUCKETS
  {
    Wrap(key * 0x9e37_ffff_fffc_0001) / 0x40_0000_0000_0000
  }

  /** `hash_min`, with the number of bits of a 1024-bucket table. */
  method HashMin(key: u64) returns (b: nat)
    ensures b == Bucket(key) < 1024 && TopBits(b, key, 10)
  {
    b := ShiftAddHash(key, BITS);
    Pow2Values();
    Pow2Add(54, 10);
  }
}
