/** Integer facts behind the round-robin shuffle: powers of two, parity
    and Euclidean remainders. */
module Arithmetic {
  /** 2^e. */
  function Pow2(e: nat): (p: nat)
    ensures p >= 1
  {
    if e == 0 then 1 else 2 * Pow2(e - 1)
  }

  /** A positive multiple of p is at least p. */
  lemma MultipleAtLeast(p: int, m: int, s: int)
    requires p > 0 && s == p * m && s > 0
    ensures s >= p
  {
    assert m >= 1;
    assert p * m >= p * 1;
  }

  /** The product of two odd numbers is odd. */
  lemma OddProduct(x: int, y: int)
    requires x % 2 == 1 && y % 2 == 1
    ensures (x * y) % 2 == 1
  {
    var b := y / 2;
    assert y == 2 * b + 1;
    assert x * y == x * (2 * b) + x;
    assert x * (2 * b) == 2 * (x * b);
    ModAddMultiple(2, x * b, x);
  }

  /** If 2^e divides x * y and y is odd, then 2^e divides x. */
  lemma {:induction false} OddFactor(e: nat, x: int, y: int, q: int) returns (m: int)
    requires y % 2 == 1
    requires x * y == Pow2(e) * q
    ensures x == Pow2(e) * m
  {
    if e == 0 {
      m := x;
    } else {
      var p := Pow2(e - 1);
      assert x * y == 2 * (p * q);
      if x % 2 == 1 {
        OddProduct(x, y);
        assert false;
      }
      var h := x / 2;
      assert x == 2 * h;
      assert 2 * (h * y) == 2 * (p * q);
      var m' := OddFactor(e - 1, h, y, q);
      m := m';
      assert x == 2 * (p * m');
    }
  }

  /** Numbers with equal remainders differ by a multiple of n. */
  lemma ModEqualDiff(x: int, y: int, n: int)
    requires n > 0 && x % n == y % n
    ensures x - y == n * (x / n - y / n)
  {
    assert x == n * (x / n) + x % n;
    assert y == n * (y / n) + y % n;
  }

  /** Reducing the first summand first does not change the remainder. */
  lemma ModStep(x: int, y: int, n: int)
    requires n > 0
    ensures (x % n + y) % n == (x + y) % n
  {
    assert x == n * (x / n) + x % n;
    var c := x / n;
    assert x + y == n * c + (x % n + y);
    ModAddMultiple(n, c, x % n + y);
  }

  /** Adding a multiple of n does not change the remainder. */
  lemma ModAddMultiple(n: int, c: int, z: int)
    requires n > 0
    ensures (n * c + z) % n == z % n
  {
    var w := n * c + z;
    ModEqualDiff2(w, z, n, c);
  }

  lemma ModEqualDiff2(w: int, z: int, n: int, c: int)
    requires n > 0 && w == n * c + z
    ensures w % n == z % n
  {
    var r1 := w % n;
    var r2 := z % n;
    var k := z / n + c - w / n;
    assert w == n * (w / n) + r1;
    assert z == n * (z / n) + r2;
    assert r1 - r2 == n * k;
    SmallMultiple(n, k);
  }

  /** The only multiple of n strictly between -n and n is 0. */
  lemma SmallMultiple(n: int, k: int)
    requires n > 0 && -n < n * k < n
    ensures k == 0
  {
  }
}
