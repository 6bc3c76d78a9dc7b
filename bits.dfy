/** Python's bit operators on unbounded integers, defined bit by bit.
    Euclidean `/` and `%` by a positive number are floor division and the
    non-negative residue, so `a / 2` is the arithmetic shift and `a % 2` the
    low bit of `a` in (infinite) two's complement, negative `a` included. */
module Bits {

  function Pow2(k: nat): (p: nat)
    ensures p >= 1
  {
    if k == 0 then 1 else 2 * Pow2(k - 1)
  }

  /** `a << k`. */
  function ShiftLeft(a: int, k: nat): int {
    a * Pow2(k)
  }

  /** `a >> k`, rounding towards minus infinity. */
  function ShiftRight(a: int, k: nat): int {
    a / Pow2(k)
  }

  /** `a | b` on non-negative integers. */
  function Or(a: nat, b: nat): nat
    decreases a + b
  {
    if a == 0 then b
    else if b == 0 then a
    else 2 * Or(a / 2, b / 2) + (if a % 2 == 1 || b % 2 == 1 then 1 else 0)
  }

  /** `a & m` for a non-negative mask `m` and any integer `a`. */
  function And(a: int, m: nat): nat
    decreases m
  {
    if m == 0 then 0
    else 2 * And(a / 2, m / 2) + (if a % 2 == 1 && m % 2 == 1 then 1 else 0)
  }

  /** `|` is symmetric. */
  lemma {:induction false} OrSymmetric(a: nat, b: nat)
    ensures Or(a, b) == Or(b, a)
    decreases a + b
  {
    if a != 0 && b != 0 {
      OrSymmetric(a / 2, b / 2);
    }
  }

  /** A residue fixed by its bounds. */
  lemma ModUnique(a: int, d: nat, t: int, s: int)
    requires d > 0 && a == d * t + s && 0 <= s < d
    ensures a % d == s && a / d == t
  {
    var q, r := a / d, a % d;
    assert d * (t - q) == r - s;
    if t > q {
      MulAtLeast(d, t - q);
    } else if t < q {
      MulAtLeast(d, q - t);
    }
  }

  lemma MulAtLeast(d: nat, n: int)
    requires n >= 1
    ensures d * n >= d
  {
    assert d * n == d * (n - 1) + d;
  }

  lemma MulDistributes(x: int, y: int, z: int)
    ensures x * (y + z) == x * y + x * z
  {
  }

  lemma MulAssociates(x: int, y: int, z: int)
    ensures x * (y * z) == (x * y) * z
  {
  }

  lemma MulBelow(d: nat, u: nat, n: nat)
    requires u < n
    ensures d * u + d <= d * n
  {
    MulDistributes(d, u, 1);
    MulGrows(d, u + 1, n);
  }

  lemma MulGrows(d: nat, x: nat, y: nat)
    requires x <= y
    ensures d * x <= d * y
  {
    MulDistributes(d, x, y - x);
  }

  /** Splitting off the lowest digit of base `d1` from a residue modulo
      `d1 * d2`. */
  lemma DivModSplit(a: int, d1: nat, d2: nat)
    requires d1 > 0 && d2 > 0
    ensures a % d1 + d1 * ((a / d1) % d2) == a % (d1 * d2)
  {
    var r, q := a % d1, a / d1;
    var t, u := q / d2, q % d2;
    assert a == d1 * q + r;
    assert q == d2 * t + u;
    assert d1 * q == (d1 * d2) * t + d1 * u by {
      MulDistributes(d1, d2 * t, u);
      MulAssociates(d1, d2, t);
    }
    assert d1 * u + r < d1 * d2 by {
      MulBelow(d1, u, d2);
    }
    ModUnique(a, d1 * d2, t, d1 * u + r);
  }

  /** One step of `&`: the low bit of each operand, and the rest shifted. */
  lemma AndStep(a: int, m: nat)
    requires m > 0
    ensures And(a, m) == 2 * And(a / 2, m / 2) + (if a % 2 == 1 && m % 2 == 1 then 1 else 0)
  {
  }

  /** `a & (2**k - 1)` keeps the low `k` bits: the residue modulo `2**k`. */
  lemma {:induction false} AndLowMask(a: int, k: nat)
    ensures And(a, Pow2(k) - 1) == a % Pow2(k)
    decreases k
  {
    if k > 0 {
      var m, h := Pow2(k) - 1, Pow2(k - 1);
      assert Pow2(k) == 2 * h;
      assert m / 2 == h - 1 && m % 2 == 1 by {
        ModUnique(m, 2, h - 1, 1);
      }
      var x := And(a / 2, h - 1);
      assert x == (a / 2) % h by {
        AndLowMask(a / 2, k - 1);
      }
      assert And(a, m) == 2 * x + a % 2 by {
        AndStep(a, m);
      }
      assert 2 * x + a % 2 == a % (2 * h) by {
        DivModSplit(a, 2, h);
      }
    }
  }

  /** Placing a value above `k` low bits that hold `a < 2**k` with `|` adds
      the two. */
  lemma {:induction false} OrDisjoint(a: nat, b: nat, k: nat)
    requires a < Pow2(k)
    ensures Or(a, ShiftLeft(b, k)) == a + ShiftLeft(b, k)
    decreases k
  {
    var hi := ShiftLeft(b, k);
    if k > 0 && a != 0 && hi != 0 {
      var h := Pow2(k - 1);
      assert hi == 2 * (b * h);
      assert hi / 2 == b * h && hi % 2 == 0 by {
        ModUnique(hi, 2, b * h, 0);
      }
      assert a / 2 < h;
      OrDisjoint(a / 2, b, k - 1);
    }
  }
}
