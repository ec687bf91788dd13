/** Powers of two and the few facts about division the models share. */
module Arith {

  function Pow2(w: nat): (r: nat)
    ensures r >= 1
  {
    if w == 0 then 1 else 2 * Pow2(w - 1)
  }

  function Min(a: int, b: int): int {
    if a < b then a else b
  }

  function Abs(a: int): nat {
    if a < 0 then -a else a
  }

  lemma {:induction false} Pow2Monotone(a: nat, b: nat)
    requires a <= b
    ensures Pow2(a) <= Pow2(b)
    ensures a < b ==> 2 * Pow2(a) <= Pow2(b)
  {
    if a < b {
      Pow2Monotone(a, b - 1);
    }
  }

  lemma {:induction false} Pow2Add(a: nat, b: nat)
    ensures Pow2(a + b) == Pow2(a) * Pow2(b)
  {
    if b > 0 {
      Pow2Add(a, b - 1);
    }
  }

  /** The quotient and remainder are determined by their defining equation. */
  lemma DivModUnique(x: int, m: int, q: int, r: int)
    requires 0 < m && 0 <= r < m && x == q * m + r
    ensures x / m == q && x % m == r
  {
    var d := x / m - q;
    assert d * m == r - x % m;
    MulSign(d, m);
  }

  lemma MulSign(d: int, m: int)
    requires 0 < m
    ensures d >= 1 ==> d * m >= m
    ensures d <= -1 ==> d * m <= -m
  {
  }

  lemma {:induction false} MulMonotone(a: int, b: int, m: int)
    requires a <= b
    decreases b - a
    ensures 0 <= m ==> a * m <= b * m
    ensures m <= 0 ==> b * m <= a * m
    ensures a < b && 0 < m ==> a * m + m <= b * m
    ensures a < b && m < 0 ==> b * m <= a * m + m
  {
    assert (b - a) * m == b * m - a * m;
    if a < b {
      MulMonotone(a, b - 1, m);
    }
  }

  /** The block of `m` numbers that holds `x`, among the first `n` blocks. */
  lemma BlockOf(x: nat, m: nat, n: nat) returns (k: nat)
    requires 0 < m && x < n * m
    ensures k < n && k * m <= x < k * m + m
  {
    k := x / m;
    assert x == k * m + x % m;
    if k >= n {
      MulMonotone(n, k, m);
    }
  }

  lemma ModStep(x: int, y: int, m: int)
    requires 0 < m
    ensures (x % m + y) % m == (x + y) % m
  {
    var z := x % m + y;
    assert x + y == (x / m + z / m) * m + z % m;
    DivModUnique(x + y, m, x / m + z / m, z % m);
  }

  lemma ModSmall(x: int, m: int)
    requires 0 <= x < m
    ensures x % m == x
  {
    DivModUnique(x, m, 0, x);
  }

  lemma ModShift(x: int, k: int, m: int)
    requires 0 < m
    ensures (x + k * m) % m == x % m
  {
    assert x + k * m == (x / m + k) * m + x % m;
    DivModUnique(x + k * m, m, x / m + k, x % m);
  }

  lemma ModCongruent(a: int, b: int, c: int, m: int)
    requires 0 < m && a % m == b % m
    ensures (a + c) % m == (b + c) % m
  {
    ModStep(a, c, m);
    ModStep(b, c, m);
  }

  /** Congruence is preserved and reflected by adding the same number. */
  lemma ModCancel(a: int, b: int, c: int, m: int)
    requires 0 < m
    ensures (a + c) % m == (b + c) % m <==> a % m == b % m
  {
    if a % m == b % m {
      ModCongruent(a, b, c, m);
    } else if (a + c) % m == (b + c) % m {
      ModCongruent(a + c, b + c, -c, m);
    }
  }

  lemma ModNested(x: int, m: int, k: nat)
    requires 0 < m && 0 < k
    ensures m * k > 0 && (x % (m * k)) % m == x % m
  {
    MulSign(k, m);
    var n := m * k;
    assert x % n == x + -(x / n * k) * m;
    ModShift(x, -(x / n * k), m);
  }

  lemma Expand(a: int, b: int, c: int, m: int)
    ensures (a + b - c) * m == a * m + b * m - c * m
  {
  }

  lemma ScaleSum(i: int, t: int, b: int, m: int)
    ensures i * (t + b * m) == i * t + i * b * m
  {
    assert i * (b * m) == i * b * m;
  }

  /** A sum s + i * t of numbers known up to multiples of `m`. */
  lemma SumUpTo(s: int, a: int, t: int, b: int, y: int, d: int, i: int, m: int)
    ensures (s + a * m) + i * (t + b * m) - (y + d * m) == s + i * t - y + (a + i * b - d) * m
  {
    ScaleSum(i, t, b, m);
    Expand(a, i * b, d, m);
  }

  lemma Remainder(x: int, m: int)
    requires 0 < m
    ensures x % m == x + -(x / m) * m == x - x / m * m && 0 <= x % m < m
  {
    assert x == x / m * m + x % m;
    Expand(0, 0, x / m, m);
  }

  lemma MulAssoc(a: int, b: int, c: int)
    ensures a * (b * c) == a * b * c
  {
  }

  lemma ModMultiple(k: int, m: int)
    requires 0 < m
    ensures k * m % m == 0
  {
    ModShift(0, k, m);
    ModSmall(0, m);
  }

  /** A multiple of a multiple is a multiple. */
  lemma ModScaled(a: int, q: int, w: int, m: int)
    requires 0 < m && a * w % m == 0
    ensures a * (q * w) % m == 0
  {
    var d := a * w / m;
    assert a * w == d * m;
    assert a * (q * w) == q * (a * w);
    MulAssoc(q, d, m);
    ModMultiple(q * d, m);
  }

  lemma ModNegated(a: int, w: int, m: int)
    requires 0 < m
    ensures a * (-1 * w) % m == 0 <==> a * w % m == 0
  {
    assert a * (-1 * w) == -(a * w);
    ModCancel(-(a * w), 0, a * w, m);
    ModSmall(0, m);
  }

  lemma ModAtMost(i: nat, m: int)
    requires 0 < m
    ensures 0 <= i % m < m && i % m <= i
  {
    assert i == i / m * m + i % m;
    MulMonotone(0, i / m, m);
  }

  lemma ModOfFactor(s: int, t: int, i: int, m: int)
    requires 0 < m
    ensures (s + i % m * t) % m == (s + i * t) % m
  {
    var q := -(i / m);
    Remainder(i, m);
    ScaleSum(t, i, q, m);
    ModShift(s + i * t, t * q, m);
  }

  lemma QuotientMonotone(a: nat, b: nat, m: int)
    requires a <= b && 0 < m
    ensures a / m <= b / m
  {
    assert a == a / m * m + a % m && b == b / m * m + b % m;
    if a / m > b / m {
      MulMonotone(b / m + 1, a / m, m);
    }
  }
}
