/** Rewriting EXT1(Inv1 * EXT2({Start,+,Step})) + Inv2 into one recurrence of pointer width. */
module AddRecRewrite {
  import opened Arith

  datatype InnerCast = NoCast | Trunc | ZExt | SExt

  /** The matched expression.  The recurrence has `w` bits, the product `v` bits, the address `p`
      bits; EXT1 is a zero extension, a no-op when v == p.  An absent Inv1 is 1. */
  datatype Pattern = Pattern(w: nat, v: nat, p: nat, inner: InnerCast,
                             start: int, step: int, inv1: int, inv2: int)

  predicate Valid(e: Pattern) {
    && 0 < e.w && e.v <= e.p
    && (e.inner.NoCast? ==> e.v == e.w)
    && (e.inner.Trunc? ==> e.v < e.w)
    && (e.inner.ZExt? || e.inner.SExt? ==> e.w < e.v)
    && 0 <= e.start < Pow2(e.w) && 0 <= e.step < Pow2(e.w)
    && 0 <= e.inv1 < Pow2(e.v) && 0 <= e.inv2 < Pow2(e.p)
  }

  /** EXT2 on a `w`-bit value. */
  function Cast(e: Pattern, x: int): int {
    match e.inner
    case NoCast => x
    case Trunc => x % Pow2(e.v)
    case ZExt => x
    case SExt => if e.w == 0 || x < Pow2(e.w - 1) then x else x + Pow2(e.v) - Pow2(e.w)
  }

  /** The address made from the value `x` of the inner recurrence. */
  function AddressOf(e: Pattern, x: int): int {
    (e.inv1 * Cast(e, x) % Pow2(e.v) + e.inv2) % Pow2(e.p)
  }

  /** The address the program computes in iteration `i`. */
  function Address(e: Pattern, i: nat): int {
    AddressOf(e, (e.start + i * e.step) % Pow2(e.w))
  }

  function NewStart(e: Pattern): int {
    AddressOf(e, e.start)
  }

  function NewStep(e: Pattern): int {
    e.inv1 * Cast(e, e.step) % Pow2(e.v)
  }

  /** The address of the rebuilt recurrence in iteration `i`. */
  function Rebuilt(e: Pattern, i: nat): int {
    (NewStart(e) + i * NewStep(e)) % Pow2(e.p)
  }

  // ----- when the two agree -----

  function Signed(x: int, w: nat): int
    requires 0 < w
  {
    if x < Pow2(w - 1) then x else x - Pow2(w)
  }

  /** The inner recurrence without wrap-around, read as EXT2 reads it. */
  function Unwrapped(e: Pattern, i: nat): int
    requires Valid(e)
  {
    if e.inner.SExt? then Signed(e.start, e.w) + i * Signed(e.step, e.w) else e.start + i * e.step
  }

  function Low(e: Pattern): int
    requires Valid(e)
  {
    if e.inner.SExt? then 0 - Pow2(e.w - 1) else 0
  }

  predicate Fits(e: Pattern, i: nat)
    requires Valid(e)
  {
    Low(e) <= Unwrapped(e, i) < Low(e) + Pow2(e.w)
  }

  /** The inner recurrence does not wrap in the first `n` iterations, or its wraps are invisible. */
  predicate InnerFine(e: Pattern, n: nat)
    requires Valid(e)
  {
    || n == 0 || e.inner.NoCast? || e.inner.Trunc?
    || e.inv1 * Pow2(e.w) % Pow2(e.v) == 0
    || Fits(e, n - 1)
  }

  /** With a real EXT1, the rebuilt product stays within `v` bits. */
  predicate OuterFine(e: Pattern, n: nat)
    requires Valid(e)
  {
    n == 0 || e.v == e.p || Linear(e, n - 1) < Pow2(e.v)
  }

  function Product(e: Pattern, i: nat): int {
    e.inv1 * Cast(e, (e.start + i * e.step) % Pow2(e.w)) % Pow2(e.v)
  }

  function Linear(e: Pattern, i: nat): int {
    e.inv1 * Cast(e, e.start) % Pow2(e.v) + i * NewStep(e)
  }

  function Wraps(e: Pattern, i: nat): int
    requires Valid(e)
  {
    (Unwrapped(e, i) - Low(e)) / Pow2(e.w)
  }

  /** Adding the base address does not matter. */
  lemma BaseCancels(e: Pattern, i: nat, j: nat)
    requires Valid(e)
    ensures Address(e, i) == Rebuilt(e, j) <==> Product(e, i) == Linear(e, j) % Pow2(e.p)
  {
    var x, y, p := Product(e, i), Linear(e, j), Pow2(e.p);
    Pow2Monotone(e.v, e.p);
    ModSmall(x, p);
    ModStep(e.inv1 * Cast(e, e.start) % Pow2(e.v) + e.inv2, j * NewStep(e), p);
    ModCancel(x, y, e.inv2, p);
  }

  /** The casts distribute over the recurrence up to multiples of 2^v and the wraps of 2^w. */
  lemma CastOfSum(e: Pattern, i: nat) returns (k: int)
    requires Valid(e)
    ensures Cast(e, e.start) + i * Cast(e, e.step) - Cast(e, (e.start + i * e.step) % Pow2(e.w))
            == Wraps(e, i) * Pow2(e.w) + k * Pow2(e.v)
  {
    if e.inner.SExt? {
      k := SExtCase(e, i);
    } else if e.inner.Trunc? {
      k := TruncCase(e, i);
    } else {
      Remainder(e.start + i * e.step, Pow2(e.w));
      k := 0;
    }
  }

  lemma TruncCase(e: Pattern, i: nat) returns (k: int)
    requires Valid(e) && e.inner.Trunc?
    ensures Cast(e, e.start) + i * Cast(e, e.step) - Cast(e, (e.start + i * e.step) % Pow2(e.w))
            == Wraps(e, i) * Pow2(e.w) + k * Pow2(e.v)
  {
    Remainder(e.start + i * e.step, Pow2(e.w));
    k := TruncOfSum(e.start, e.step, i, (e.start + i * e.step) % Pow2(e.w), Pow2(e.v));
  }

  lemma SignedReading(e: Pattern, x: int) returns (b: int)
    requires Valid(e) && e.inner.SExt? && 0 <= x < Pow2(e.w)
    ensures x == Signed(x, e.w) + b * Pow2(e.w) && Cast(e, x) == Signed(x, e.w) + b * Pow2(e.v)
  {
    b := if x < Pow2(e.w - 1) then 0 else 1;
  }

  lemma SignedCast(e: Pattern, r: int, y: int)
    requires Valid(e) && e.inner.SExt? && 0 - Pow2(e.w - 1) <= r < Pow2(e.w - 1)
    requires y == if r < 0 then r + Pow2(e.w) else r
    ensures Cast(e, y) == if r < 0 then r + Pow2(e.v) else r
  {
  }

  lemma SignedRemainder(e: Pattern, i: nat)
    requires Valid(e) && e.inner.SExt?
    ensures 0 - Pow2(e.w - 1) <= Unwrapped(e, i) - Wraps(e, i) * Pow2(e.w) < Pow2(e.w - 1)
  {
    Remainder(Unwrapped(e, i) - Low(e), Pow2(e.w));
    Expand(0, 0, Wraps(e, i), Pow2(e.w));
  }

  lemma SExtCase(e: Pattern, i: nat) returns (k: int)
    requires Valid(e) && e.inner.SExt?
    ensures Cast(e, e.start) + i * Cast(e, e.step) - Cast(e, (e.start + i * e.step) % Pow2(e.w))
            == Wraps(e, i) * Pow2(e.w) + k * Pow2(e.v)
  {
    var w, q, s, t := Pow2(e.w), Wraps(e, i), Signed(e.start, e.w), Signed(e.step, e.w);
    var bs := SignedReading(e, e.start);
    var bt := SignedReading(e, e.step);
    SignedRemainder(e, i);
    var r := s + i * t - q * w;
    k := SExtOfSum(r, s, bs, t, bt, i, q, w, Pow2(e.v));
    SignedCast(e, r, (e.start + i * e.step) % w);
  }

  lemma TruncOfSum(s: int, t: int, i: int, y: int, v: int) returns (k: int)
    requires 0 < v
    ensures s % v + i * (t % v) - y % v == s + i * t - y + k * v
  {
    k := -(s / v) + i * -(t / v) - -(y / v);
    Remainder(s, v);
    Remainder(t, v);
    Remainder(y, v);
    SumUpTo(s, -(s / v), t, -(t / v), y, -(y / v), i, v);
  }

  /** `s` and `t` are the signed readings of s + bs * w and t + bt * w; `r` that of their sum. */
  lemma SExtOfSum(r: int, s: int, bs: int, t: int, bt: int, i: int, q: int, w: int, v: int) returns (k: int)
    requires 0 < w && r == s + i * t - q * w && -w <= r + r < w
    ensures var y := ((s + bs * w) + i * (t + bt * w)) % w;
            && y == (if r < 0 then r + w else r)
            && (s + bs * v) + i * (t + bt * v) - (if r < 0 then r + v else r) == q * w + k * v
  {
    var br := if r < 0 then 1 else 0;
    k := bs + i * bt - br;
    SumUpTo(s, bs, t, bt, r, br, i, w);
    SumUpTo(s, bs, t, bt, r, br, i, v);
    Expand(q, k, 0, w);
    DivModUnique((s + bs * w) + i * (t + bt * w), w, q + k, r + br * w);
  }

  /** Modulo 2^v the rebuilt product is right exactly when Inv1 makes the wraps invisible. */
  lemma ModuloProduct(e: Pattern, i: nat)
    requires Valid(e)
    ensures Product(e, i) == Linear(e, i) % Pow2(e.v)
            <==> e.inv1 * (Wraps(e, i) * Pow2(e.w)) % Pow2(e.v) == 0
  {
    var c := Cast(e, (e.start + i * e.step) % Pow2(e.w));
    var k := CastOfSum(e, i);
    var z := Wraps(e, i) * Pow2(e.w);
    var j := ProductOfSum(e.inv1, Cast(e, e.start), Cast(e, e.step), i, c, z, k, Pow2(e.v));
    ModShift(e.inv1 * c + e.inv1 * z, j, Pow2(e.v));
    ModCancel(e.inv1 * z, 0, e.inv1 * c, Pow2(e.v));
    ModSmall(0, Pow2(e.v));
  }

  lemma ProductOfSum(m: int, c0: int, c1: int, i: int, c: int, z: int, k: int, v: int) returns (j: int)
    requires v > 0 && c0 + i * c1 - c == z + k * v
    ensures m * c0 % v + i * (m * c1 % v) == m * c + m * z + j * v
  {
    var a, b := m * c0 / v, m * c1 / v;
    j := m * k - a - i * b;
    ScaleSum(i, m * c1 % v, b, v);
    assert i * (m * c1) == m * (i * c1);
    ScaleSum(m, c + z, k, v);
    assert m * (c0 + i * c1) == m * c0 + m * (i * c1);
    assert m * (c + z) == m * c + m * z;
    assert j * v == m * k * v - a * v - i * b * v;
  }

  // ----- main results -----

  lemma {:induction false} LinearGrows(e: Pattern, i: nat, j: nat)
    requires Valid(e) && i <= j
    ensures Linear(e, i) <= Linear(e, j)
  {
    MulMonotone(i, j, NewStep(e));
  }

  /** Unwrapped values move monotonically, so the last one in range keeps the others in range. */
  lemma FitsBefore(e: Pattern, i: nat, j: nat)
    requires Valid(e) && i <= j && Fits(e, j)
    ensures Fits(e, i)
  {
    if e.inner.SExt? {
      MulMonotone(i, j, Signed(e.step, e.w));
      MulMonotone(0, i, Signed(e.step, e.w));
    } else {
      MulMonotone(i, j, e.step);
    }
  }

  lemma FitsMeansNoWrap(e: Pattern, i: nat)
    requires Valid(e)
    ensures Fits(e, i) <==> Wraps(e, i) == 0
  {
    var x, m := Unwrapped(e, i) - Low(e), Pow2(e.w);
    Remainder(x, m);
    if Fits(e, i) {
      DivModUnique(x, m, 0, x);
    }
  }

  /** The first wrap is a wrap by one. */
  lemma FirstWrap(e: Pattern, n: nat) returns (i: nat)
    requires Valid(e) && !Fits(e, n)
    ensures i <= n && (Wraps(e, i) == 1 || Wraps(e, i) == -1)
  {
    i := 0;
    while Fits(e, i)
      invariant i <= n && (i == 0 || Fits(e, i - 1))
      decreases n - i
    {
      i := i + 1;
    }
    assert Fits(e, 0);
    WrapByOne(e, i);
  }

  lemma WrapByOne(e: Pattern, i: nat)
    requires Valid(e) && 0 < i && Fits(e, i - 1) && !Fits(e, i)
    ensures Wraps(e, i) == 1 || Wraps(e, i) == -1
  {
    var m := Pow2(e.w);
    var x := Unwrapped(e, i) - Low(e);
    var t := if e.inner.SExt? then Signed(e.step, e.w) else e.step;
    MulMonotone(i - 1, i, t);
    assert i * t == (i - 1) * t + t;
    assert -m <= x < 2 * m;
    if x < 0 {
      DivModUnique(x, m, -1, x + m);
    } else {
      DivModUnique(x, m, 1, x - m);
    }
  }

  lemma InnerExact(e: Pattern, n: nat)
    requires Valid(e)
    ensures (forall i: nat :: i < n ==> Product(e, i) == Linear(e, i) % Pow2(e.v)) <==> InnerFine(e, n)
  {
    var w, v := Pow2(e.w), Pow2(e.v);
    if InnerFine(e, n) {
      forall i: nat | i < n
        ensures Product(e, i) == Linear(e, i) % v
      {
        ModuloProduct(e, i);
        WrapsInvisible(e, i, n);
      }
    } else {
      var i := FirstWrap(e, n - 1);
      ModuloProduct(e, i);
      ModNegated(e.inv1, w, v);
    }
  }

  lemma NarrowProduct(e: Pattern)
    requires Valid(e) && (e.inner.NoCast? || e.inner.Trunc?)
    ensures e.inv1 * Pow2(e.w) % Pow2(e.v) == 0
  {
    var k := Pow2(e.w - e.v);
    Pow2Add(e.v, e.w - e.v);
    assert Pow2(e.w) == k * Pow2(e.v);
    MulAssoc(e.inv1, k, Pow2(e.v));
    ModMultiple(e.inv1 * k, Pow2(e.v));
  }

  lemma WrapsInvisible(e: Pattern, i: nat, n: nat)
    requires Valid(e) && i < n && InnerFine(e, n)
    ensures e.inv1 * (Wraps(e, i) * Pow2(e.w)) % Pow2(e.v) == 0
  {
    if e.inner.NoCast? || e.inner.Trunc? {
      NarrowProduct(e);
    }
    if e.inv1 * Pow2(e.w) % Pow2(e.v) == 0 {
      ModScaled(e.inv1, Wraps(e, i), Pow2(e.w), Pow2(e.v));
    } else {
      FitsBefore(e, i, n - 1);
      FitsMeansNoWrap(e, i);
      ModSmall(0, Pow2(e.v));
    }
  }

  /** Main result on rewriting.  The rebuilt recurrence gives the program's addresses in the first
      `n` iterations exactly when the inner recurrence does not wrap there (or Inv1 hides its
      wraps) and, under a real zero extension, the product stays within its width. */
  lemma RewriteIsExact(e: Pattern, n: nat)
    requires Valid(e)
    ensures (forall i: nat :: i < n ==> Address(e, i) == Rebuilt(e, i)) <==> InnerFine(e, n) && OuterFine(e, n)
  {
    InnerExact(e, n);
    forall i: nat | i < n
      ensures Address(e, i) == Rebuilt(e, i) ==> Product(e, i) == Linear(e, i) % Pow2(e.v)
      ensures InnerFine(e, n) && OuterFine(e, n) ==> Address(e, i) == Rebuilt(e, i)
    {
      BaseCancels(e, i, i);
      Narrow(e, i);
      LinearGrows(e, i, n - 1);
    }
    if !OuterFine(e, n) {
      var i := FirstOverflow(e, n - 1);
      BaseCancels(e, i, i);
    }
  }

  lemma Narrow(e: Pattern, i: nat)
    requires Valid(e)
    ensures Linear(e, i) % Pow2(e.p) % Pow2(e.v) == Linear(e, i) % Pow2(e.v)
    ensures 0 <= Product(e, i) < Pow2(e.v) && Product(e, i) % Pow2(e.v) == Product(e, i)
    ensures 0 <= Linear(e, i) < Pow2(e.v) ==> Linear(e, i) % Pow2(e.v) == Linear(e, i) == Linear(e, i) % Pow2(e.p)
    ensures 0 <= Linear(e, i)
  {
    Pow2Add(e.v, e.p - e.v);
    Pow2Monotone(e.v, e.p);
    ModNested(Linear(e, i), Pow2(e.v), Pow2(e.p - e.v));
    ModSmall(Product(e, i), Pow2(e.v));
    if 0 <= Linear(e, i) < Pow2(e.v) {
      ModSmall(Linear(e, i), Pow2(e.v));
      ModSmall(Linear(e, i), Pow2(e.p));
    }
    MulMonotone(0, i, NewStep(e));
  }

  lemma FirstOverflow(e: Pattern, n: nat) returns (i: nat)
    requires Valid(e) && e.v < e.p && Linear(e, n) >= Pow2(e.v)
    ensures i <= n && Pow2(e.v) <= Linear(e, i) == Linear(e, i) % Pow2(e.p)
  {
    i := 0;
    while Linear(e, i) < Pow2(e.v)
      invariant i <= n && (i == 0 || Linear(e, i - 1) < Pow2(e.v))
      decreases n - i
    {
      i := i + 1;
    }
    assert Linear(e, 0) < Pow2(e.v);
    assert i * NewStep(e) == (i - 1) * NewStep(e) + NewStep(e);
    Pow2Monotone(e.v, e.p);
    ModSmall(Linear(e, i), Pow2(e.p));
  }

  // ----- cyclic accesses -----

  lemma AddressIsPeriodic(e: Pattern, i: nat, j: nat)
    requires j == i % Pow2(e.w)
    ensures Address(e, i) == Address(e, j)
  {
    ModOfFactor(e.start, e.step, i, Pow2(e.w));
    assert (e.start + i * e.step) % Pow2(e.w) == (e.start + j * e.step) % Pow2(e.w);
  }

  ghost predicate Visits(e: Pattern, n: nat, a: int) {
    exists i: nat :: i < n && Address(e, i) == a
  }

  ghost predicate RebuiltVisits(e: Pattern, n: nat, a: int) {
    exists i: nat :: i < n && Rebuilt(e, i) == a
  }

  /** Main result on cyclic accesses.  However often the loop goes round, the program's addresses are
      those of the first min(n, 2^w) iterations. */
  lemma CycleIsOneRound(e: Pattern, n: nat, a: int)
    requires Valid(e)
    ensures Visits(e, n, a) <==> Visits(e, Min(n, Pow2(e.w)), a)
  {
    if i: nat :| i < n && Address(e, i) == a {
      ModAtMost(i, Pow2(e.w));
      var j := i % Pow2(e.w);
      AddressIsPeriodic(e, i, j);
    }
  }

  lemma OneRoundRebuilt(e: Pattern, m: nat)
    requires Valid(e) && InnerFine(e, m) && OuterFine(e, m)
    ensures forall a :: Visits(e, m, a) <==> RebuiltVisits(e, m, a)
  {
    RewriteIsExact(e, m);
    assert forall i: nat :: i < m ==> Address(e, i) == Rebuilt(e, i);
  }

  /** What EXT2 reads is the unwrapped value less its wraps, up to multiples of 2^v. */
  lemma CastIsWrapped(e: Pattern, i: nat) returns (b: int)
    requires Valid(e) && (e.inner.ZExt? || e.inner.SExt?)
    ensures Cast(e, (e.start + i * e.step) % Pow2(e.w)) == Unwrapped(e, i) - Wraps(e, i) * Pow2(e.w) + b * Pow2(e.v)
    ensures Low(e) <= Unwrapped(e, i) - Wraps(e, i) * Pow2(e.w) < Low(e) + Pow2(e.w)
  {
    var w, q := Pow2(e.w), Wraps(e, i);
    if e.inner.ZExt? {
      Remainder(e.start + i * e.step, w);
      b := 0;
    } else {
      SignedRemainder(e, i);
      var s, t := Signed(e.start, e.w), Signed(e.step, e.w);
      var bs := SignedReading(e, e.start);
      var bt := SignedReading(e, e.step);
      var r := s + i * t - q * w;
      var k := SExtOfSum(r, s, bs, t, bt, i, q, w, Pow2(e.v));
      SignedCast(e, r, (e.start + i * e.step) % w);
      b := if r < 0 then 1 else 0;
    }
  }

  lemma ProductIsWrapped(e: Pattern, i: nat) returns (b: int)
    requires Valid(e) && (e.inner.ZExt? || e.inner.SExt?)
    ensures Product(e, i) == e.inv1 * (Unwrapped(e, i) - Wraps(e, i) * Pow2(e.w)) + b * Pow2(e.v)
  {
    var k := CastIsWrapped(e, i);
    var c, v := Cast(e, (e.start + i * e.step) % Pow2(e.w)), Pow2(e.v);
    Remainder(e.inv1 * c, v);
    ScaleSum(e.inv1, Unwrapped(e, i) - Wraps(e, i) * Pow2(e.w), k, v);
    b := e.inv1 * k - e.inv1 * c / v;
    Expand(e.inv1 * k, -(e.inv1 * c / v), 0, v);
  }

  lemma LinearIsUnwrapped(e: Pattern, i: nat) returns (b: int)
    requires Valid(e) && (e.inner.ZExt? || e.inner.SExt?)
    ensures Linear(e, i) == e.inv1 * Unwrapped(e, i) + b * Pow2(e.v)
  {
    var v, z := Pow2(e.v), Wraps(e, i) * Pow2(e.w);
    var c := Cast(e, (e.start + i * e.step) % Pow2(e.w));
    var l := CastIsWrapped(e, i);
    var k := CastOfSum(e, i);
    var j := ProductOfSum(e.inv1, Cast(e, e.start), Cast(e, e.step), i, c, z, k, v);
    b := Recombine(e.inv1, c, z, Unwrapped(e, i), l, j, v);
  }

  lemma Recombine(m: int, c: int, z: int, u: int, l: int, j: int, v: int) returns (b: int)
    requires c == u - z + l * v
    ensures m * c + m * z + j * v == m * u + b * v
  {
    b := m * l + j;
    assert m * (l * v) == m * l * v;
    assert m * c == m * (u - z) + m * (l * v);
    assert m * (u - z) == m * u - m * z;
  }

  /** An odd factor does not help a number to be a multiple of 2^v. */
  lemma {:induction false} OddCancels(k: int, d: int, q: int, v: nat) returns (r: int)
    requires k * d == q * Pow2(v) && d % 2 == 1
    ensures k == r * Pow2(v)
    decreases v
  {
    if v == 0 {
      r := k;
    } else {
      HalveBoth(k, d, q, Pow2(v - 1));
      r := OddCancels(k / 2, d, q, v - 1);
      Regroup(r, Pow2(v - 1));
    }
  }

  lemma HalveBoth(k: int, d: int, q: int, h: int)
    requires k * d == q * (2 * h) && d % 2 == 1
    ensures k == 2 * (k / 2) && k / 2 * d == q * h
  {
    Regroup(q, h);
    MulAssoc(2, q, h);
    EvenFactor(k, d, q * h);
    MulAssoc(2, k / 2, d);
  }

  lemma EvenFactor(k: int, d: int, x: int)
    requires k * d == 2 * x && d % 2 == 1
    ensures k == 2 * (k / 2)
  {
    OddTimesOdd(k / 2, d / 2);
  }

  lemma OddTimesOdd(a: int, b: int)
    ensures (2 * a + 1) * (2 * b + 1) == 2 * (2 * (a * b) + a + b) + 1
  {
  }

  /** If K makes some distance below 2^(w+1) vanish modulo 2^v, it makes 2^w vanish. */
  lemma {:induction false} VanishingDistance(k: int, d: int, w: nat, v: nat)
    requires k * d % Pow2(v) == 0 && 0 < d < 2 * Pow2(w)
    ensures k * Pow2(w) % Pow2(v) == 0
    decreases d
  {
    if d % 2 == 1 {
      Remainder(k * d, Pow2(v));
      var q := OddCancels(k, d, k * d / Pow2(v), v);
      assert k * Pow2(w) == q * Pow2(w) * Pow2(v) by {
        Swap(q, Pow2(v), Pow2(w));
      }
      ModMultiple(q * Pow2(w), Pow2(v));
    } else {
      assert w > 0 by {
        assert Pow2(0) == 1;
      }
      assert 2 * k * (d / 2) == k * d by {
        Regroup(k, d / 2);
      }
      VanishingDistance(2 * k, d / 2, w - 1, v);
      Regroup(k, Pow2(w - 1));
    }
  }

  lemma Swap(q: int, a: int, b: int)
    ensures q * a * b == q * b * a
  {
  }

  lemma Regroup(k: int, h: int)
    ensures 2 * k * h == k * (2 * h)
  {
  }

  /** The distance from the first value out of range to any value in range. */
  lemma FirstWrapIsNear(e: Pattern, j: nat)
    requires Valid(e) && (Wraps(e, j) == 1 || Wraps(e, j) == -1)
    ensures Unwrapped(e, j) < Low(e) || Low(e) + Pow2(e.w) <= Unwrapped(e, j)
    ensures Low(e) - Pow2(e.w) <= Unwrapped(e, j) < Low(e) + 2 * Pow2(e.w)
  {
    Remainder(Unwrapped(e, j) - Low(e), Pow2(e.w));
  }

  /** The rebuilt recurrence leaves the program's addresses with its first visible wrap. */
  lemma FirstWrapIsNew(e: Pattern, j: nat, i: nat)
    requires Valid(e) && (e.inner.ZExt? || e.inner.SExt?) && e.inv1 * Pow2(e.w) % Pow2(e.v) != 0
    requires Wraps(e, j) == 1 || Wraps(e, j) == -1
    ensures Address(e, i) != Rebuilt(e, j)
  {
    BaseCancels(e, i, j);
    Narrow(e, i);
    Narrow(e, j);
    var v := Pow2(e.v);
    var x := Unwrapped(e, i) - Wraps(e, i) * Pow2(e.w);
    var y := Unwrapped(e, j);
    if Product(e, i) % v == Linear(e, j) % v {
      var b := ProductIsWrapped(e, i);
      var c := LinearIsUnwrapped(e, j);
      var k := CastIsWrapped(e, i);
      FirstWrapIsNear(e, j);
      SameRemainder(e.inv1, x, b, y, c, v);
      VanishingDistance(if x < y then e.inv1 else -e.inv1, if x < y then y - x else x - y, e.w, e.v);
      if y < x {
        Negated(e.inv1, Pow2(e.w), v);
      }
    }
  }

  lemma Negated(k: int, w: int, v: int)
    requires v > 0 && -k * w % v == 0
    ensures k * w % v == 0
  {
    Remainder(-k * w, v);
    var q := -k * w / v;
    assert k * w == -q * v;
    ModMultiple(-q, v);
  }

  lemma SameRemainder(k: int, x: int, b: int, y: int, c: int, v: int)
    requires v > 0 && (k * x + b * v) % v == (k * y + c * v) % v
    ensures k * (y - x) % v == 0 && -k * (x - y) % v == 0
  {
    ModShift(k * x, b, v);
    ModShift(k * y, c, v);
    ModCancel(k * y, k * x, -(k * x), v);
    ModSmall(0, v);
    assert k * (y - x) == k * y + -(k * x);
    assert -k * (x - y) == k * (y - x);
  }

  /** Main result on cyclic accesses, for every start, step, cast and multiplier: over min(n, 2^w)
      iterations the rebuilt recurrence has exactly the addresses of the program's n iterations if
      and only if the counter does not leave its range within them (or the multiplier hides that)
      and, under a real zero extension, the product stays within its width. */
  lemma CyclicIsExact(e: Pattern, n: nat)
    requires Valid(e)
    ensures var m := Min(n, Pow2(e.w));
            (forall a :: Visits(e, n, a) <==> RebuiltVisits(e, m, a)) <==> InnerFine(e, m) && OuterFine(e, m)
  {
    var m: nat := Min(n, Pow2(e.w));
    forall a {
      CycleIsOneRound(e, n, a);
    }
    if InnerFine(e, m) && OuterFine(e, m) {
      OneRoundRebuilt(e, m);
    } else {
      var j := NewAddress(e, m);
      assert RebuiltVisits(e, m, Rebuilt(e, j));
      assert !Visits(e, m, Rebuilt(e, j));
    }
  }

  lemma NewAddress(e: Pattern, m: nat) returns (j: nat)
    requires Valid(e) && !(InnerFine(e, m) && OuterFine(e, m))
    ensures j < m && forall i: nat :: Address(e, i) != Rebuilt(e, j)
  {
    if !OuterFine(e, m) {
      j := FirstOverflow(e, m - 1);
      forall i: nat
        ensures Address(e, i) != Rebuilt(e, j)
      {
        BaseCancels(e, i, j);
        Narrow(e, i);
      }
    } else {
      j := FirstWrap(e, m - 1);
      forall i: nat
        ensures Address(e, i) != Rebuilt(e, j)
      {
        FirstWrapIsNew(e, j, i);
      }
    }
  }

  /** Counting from zero in steps of one, read as it is or zero-extended, never leaves the range. */
  lemma CyclicStepOne(e: Pattern, n: nat)
    requires Valid(e) && e.start == 0 && e.step == 1 && (e.inner.NoCast? || e.inner.ZExt?)
    ensures var m := Min(n, Pow2(e.w));
            (forall a :: Visits(e, n, a) <==> RebuiltVisits(e, m, a)) <==> OuterFine(e, m)
  {
    CyclicIsExact(e, n);
  }

  /** Sign-extended, the same counter leaves its range after half a round. */
  lemma CyclicStepOneSigned(e: Pattern, n: nat)
    requires Valid(e) && e.start == 0 && e.step == 1 && e.w > 1 && e.inner.SExt?
    ensures var m := Min(n, Pow2(e.w));
            (forall a :: Visits(e, n, a) <==> RebuiltVisits(e, m, a))
            <==> OuterFine(e, m) && (n <= Pow2(e.w - 1) || e.inv1 * Pow2(e.w) % Pow2(e.v) == 0)
  {
    CyclicIsExact(e, n);
    Pow2Monotone(1, e.w - 1);
    assert Pow2(e.w) == 2 * Pow2(e.w - 1);
  }

  // ----- when addresses come again -----

  lemma SameAddress(e: Pattern, i: nat, j: nat)
    requires Valid(e)
    ensures Address(e, i) == Address(e, j) <==> Product(e, i) == Product(e, j)
  {
    Pow2Monotone(e.v, e.p);
    ModCancel(Product(e, i), Product(e, j), e.inv2, Pow2(e.p));
    ModSmall(Product(e, i), Pow2(e.p));
    ModSmall(Product(e, j), Pow2(e.p));
  }

  /** Wraps of the counter do not show in the address. */
  predicate WrapsHidden(e: Pattern)
    requires Valid(e)
  {
    e.inner.NoCast? || e.inner.Trunc? || e.inv1 * Pow2(e.w) % Pow2(e.v) == 0
  }

  lemma HiddenIsLinear(e: Pattern, i: nat)
    requires Valid(e) && WrapsHidden(e)
    ensures Product(e, i) == Linear(e, i) % Pow2(e.v)
  {
    ModuloProduct(e, i);
    WrapsInvisible(e, i, i + 1);
  }

  lemma HiddenReturns(e: Pattern, i: nat, d: nat)
    requires Valid(e) && WrapsHidden(e)
    ensures Address(e, i + d) == Address(e, i) <==> d * NewStep(e) % Pow2(e.v) == 0
  {
    SameAddress(e, i + d, i);
    HiddenIsLinear(e, i + d);
    HiddenIsLinear(e, i);
    assert Linear(e, i + d) == d * NewStep(e) + Linear(e, i) by {
      Distribute(i, d, NewStep(e));
    }
    ModCancel(d * NewStep(e), 0, Linear(e, i), Pow2(e.v));
    ModSmall(0, Pow2(e.v));
  }

  lemma Distribute(i: int, d: int, k: int)
    ensures (i + d) * k == d * k + i * k
  {
  }

  /** Visible values are different as soon as the counter is. */
  lemma VisibleIsInjective(e: Pattern, i: nat, j: nat)
    requires Valid(e) && !WrapsHidden(e) && Product(e, i) == Product(e, j)
    ensures Unwrapped(e, i) - Wraps(e, i) * Pow2(e.w) == Unwrapped(e, j) - Wraps(e, j) * Pow2(e.w)
  {
    var v := Pow2(e.v);
    var x, y := Unwrapped(e, i) - Wraps(e, i) * Pow2(e.w), Unwrapped(e, j) - Wraps(e, j) * Pow2(e.w);
    var b := ProductIsWrapped(e, i);
    var c := ProductIsWrapped(e, j);
    var k := CastIsWrapped(e, i);
    var l := CastIsWrapped(e, j);
    SameRemainder(e.inv1, x, b, y, c, v);
    if x < y {
      VanishingDistance(e.inv1, y - x, e.w, e.v);
    } else if y < x {
      VanishingDistance(-e.inv1, x - y, e.w, e.v);
      Negated(e.inv1, Pow2(e.w), v);
    }
  }

  /** The counter itself comes again after `d` iterations. */
  lemma CounterReturns(e: Pattern, i: nat, d: nat)
    ensures (e.start + (i + d) * e.step) % Pow2(e.w) == (e.start + i * e.step) % Pow2(e.w)
            <==> d * e.step % Pow2(e.w) == 0
  {
    Distribute(i, d, e.step);
    ModCancel(d * e.step, 0, e.start + i * e.step, Pow2(e.w));
    ModSmall(0, Pow2(e.w));
  }

  lemma VisibleReturns(e: Pattern, i: nat, d: nat)
    requires Valid(e) && !WrapsHidden(e)
    ensures Address(e, i + d) == Address(e, i) <==> d * e.step % Pow2(e.w) == 0
  {
    CounterReturns(e, i, d);
    if Address(e, i + d) == Address(e, i) {
      SameAddress(e, i + d, i);
      VisibleIsInjective(e, i + d, i);
      StepsVanish(e, i, d);
    }
  }

  lemma UnwrappedMoves(e: Pattern, i: nat, d: nat) returns (t: int, b: int)
    requires Valid(e)
    ensures Unwrapped(e, i + d) == Unwrapped(e, i) + d * t && e.step == t + b * Pow2(e.w)
  {
    t, b := e.step, 0;
    if e.inner.SExt? {
      t := Signed(e.step, e.w);
      b := if t == e.step then 0 else 1;
    }
    Distribute(i, d, t);
  }

  lemma StepsVanish(e: Pattern, i: nat, d: nat)
    requires Valid(e) && Unwrapped(e, i + d) - Wraps(e, i + d) * Pow2(e.w) == Unwrapped(e, i) - Wraps(e, i) * Pow2(e.w)
    ensures d * e.step % Pow2(e.w) == 0
  {
    var t, b := UnwrappedMoves(e, i, d);
    hide Unwrapped;
    hide Wraps;
    ApartByWraps(Unwrapped(e, i), d * t, Wraps(e, i + d), Wraps(e, i), Pow2(e.w));
    SumOfMultiples(d, t, b, Wraps(e, i + d) - Wraps(e, i), e.step, Pow2(e.w));
  }

  lemma ApartByWraps(u: int, x: int, a: int, b: int, w: int)
    requires u + x - a * w == u - b * w
    ensures x == (a - b) * w
  {
  }

  lemma SumOfMultiples(d: int, t: int, b: int, q: int, step: int, w: int)
    requires w > 0 && d * t == q * w && step == t + b * w
    ensures d * step % w == 0
  {
    ScaleSum(d, t, b, w);
    Expand(q, d * b, 0, w);
    ModMultiple(q + d * b, w);
  }

  /** Whether an address comes again depends on the distance only. */
  lemma ReturnsAnywhere(e: Pattern, i: nat, d: nat)
    requires Valid(e)
    ensures Address(e, i + d) == Address(e, i) <==> Address(e, d) == Address(e, 0)
  {
    if WrapsHidden(e) {
      HiddenReturns(e, i, d);
      HiddenReturns(e, 0, d);
    } else {
      VisibleReturns(e, i, d);
      VisibleReturns(e, 0, d);
    }
  }

  /** After some of the first `c` iterations the program is back at its first address. */
  ghost predicate ReturnsWithin(e: Pattern, c: nat) {
    exists d: nat :: 0 < d <= c && Address(e, d) == Address(e, 0)
  }

  lemma {:induction false} AllVisitedEarly(e: Pattern, c: nat, d: nat, k: nat)
    requires Valid(e) && 0 < d <= c && Address(e, d) == Address(e, 0)
    ensures Visits(e, c, Address(e, k))
  {
    if k >= c {
      ReturnsAnywhere(e, k - d, d);
      AllVisitedEarly(e, c, d, k - d);
    }
  }

  /** The first `c` of `n` iterations visit all addresses exactly if they cover a round or a return. */
  lemma PrefixVisitsAll(e: Pattern, n: nat, c: nat)
    requires Valid(e) && c <= Min(n, Pow2(e.w))
    ensures (forall a :: Visits(e, n, a) <==> Visits(e, c, a)) <==> c == Min(n, Pow2(e.w)) || ReturnsWithin(e, c)
  {
    forall a {
      CycleIsOneRound(e, n, a);
    }
    if ReturnsWithin(e, c) {
      var d: nat :| 0 < d <= c && Address(e, d) == Address(e, 0);
      forall k: nat {
        AllVisitedEarly(e, c, d, k);
      }
      assert forall a :: Visits(e, n, a) ==> Visits(e, c, a);
    } else if c < Min(n, Pow2(e.w)) {
      var a := Address(e, c);
      assert Visits(e, n, a);
      if Visits(e, c, a) {
        var i: nat :| i < c && Address(e, i) == a;
        ReturnsAnywhere(e, i, c - i);
        assert false;
      }
    }
  }

  /** Main result on counts: a check of the first `c` iterations of the rebuilt recurrence, at most
      one round, has exactly the program's addresses if and only if the rewriting is exact that far
      and the iterations left out visit no new address. */
  lemma PrefixIsExact(e: Pattern, n: nat, c: nat)
    requires Valid(e) && c <= Min(n, Pow2(e.w))
    ensures (forall a :: Visits(e, n, a) <==> RebuiltVisits(e, c, a))
            <==> InnerFine(e, c) && OuterFine(e, c) && (c == Min(n, Pow2(e.w)) || ReturnsWithin(e, c))
  {
    if InnerFine(e, c) && OuterFine(e, c) {
      OneRoundRebuilt(e, c);
      PrefixVisitsAll(e, n, c);
    } else {
      var j := NewAddress(e, c);
      assert RebuiltVisits(e, c, Rebuilt(e, j)) && !Visits(e, n, Rebuilt(e, j));
    }
  }

  // ----- returns within one short of a round -----

  /** Half a round of the counter does not move the address. */
  predicate HalfRoundVanishes(e: Pattern)
    requires Valid(e)
  {
    e.inv1 * Pow2(e.w - 1) % Pow2(e.v) == 0
  }

  /** The step of the rebuilt recurrence is the plain product up to multiples of 2^v. */
  lemma HiddenStep(e: Pattern, d: nat)
    requires Valid(e) && WrapsHidden(e)
    ensures d * NewStep(e) % Pow2(e.v) == e.inv1 * (d * e.step) % Pow2(e.v)
  {
    var k := CastStep(e);
    SameUpTo(d, e.inv1, Cast(e, e.step), e.step, k, Pow2(e.v));
  }

  lemma SameUpTo(d: int, k: int, c: int, s: int, j: int, v: int)
    requires v > 0 && k * (c - s) == j * v
    ensures d * (k * c % v) % v == k * (d * s) % v
  {
    var q := k * c / v;
    Remainder(k * c, v);
    assert k * c == k * s + j * v;
    Expand(j, -q, 0, v);
    assert k * c % v == k * s + (j - q) * v;
    ScaleSum(d, k * s, j - q, v);
    Rotate(d, k, s);
    ModShift(k * (d * s), d * (j - q), v);
  }

  lemma Rotate(a: int, b: int, c: int)
    ensures a * (b * c) == b * (a * c)
  {
    MulAssoc(a, b, c);
    MulAssoc(b, a, c);
  }

  lemma CastStep(e: Pattern) returns (k: int)
    requires Valid(e) && WrapsHidden(e)
    ensures e.inv1 * (Cast(e, e.step) - e.step) == k * Pow2(e.v)
  {
    var v := Pow2(e.v);
    match e.inner
    case NoCast => k := 0;
    case ZExt => k := 0;
    case Trunc =>
      Remainder(e.step, v);
      k := e.inv1 * -(e.step / v);
      MulAssoc(e.inv1, -(e.step / v), v);
    case SExt =>
      if e.step < Pow2(e.w - 1) {
        k := 0;
      } else {
        Remainder(e.inv1 * Pow2(e.w), v);
        k := e.inv1 - e.inv1 * Pow2(e.w) / v;
        Expand(e.inv1, -(e.inv1 * Pow2(e.w) / v), 0, v);
        assert e.inv1 * (v - Pow2(e.w)) == e.inv1 * v - e.inv1 * Pow2(e.w);
      }
  }

  lemma HalfRoundIsHidden(e: Pattern)
    requires Valid(e) && HalfRoundVanishes(e)
    ensures WrapsHidden(e)
  {
    var h, v := Pow2(e.w - 1), Pow2(e.v);
    Remainder(e.inv1 * h, v);
    var q := e.inv1 * h / v;
    Regroup(e.inv1, h);
    MulAssoc(2, e.inv1, h);
    assert e.inv1 * Pow2(e.w) == 2 * q * v by {
      MulAssoc(2, q, v);
    }
    ModMultiple(2 * q, v);
  }

  lemma HalfRoundReturns(e: Pattern)
    requires Valid(e) && (e.step % 2 == 0 || HalfRoundVanishes(e))
    ensures Address(e, Pow2(e.w - 1)) == Address(e, 0)
  {
    var h := Pow2(e.w - 1);
    if e.step % 2 == 0 {
      CounterReturns(e, 0, h);
      Regroup(e.step / 2, h);
      assert h * e.step == e.step / 2 * Pow2(e.w);
      ModMultiple(e.step / 2, Pow2(e.w));
    } else {
      HalfRoundIsHidden(e);
      HiddenReturns(e, 0, h);
      HiddenStep(e, h);
      Rotate(e.inv1, h, e.step);
      MulAssoc(e.inv1, h, e.step);
      Remainder(e.inv1 * h, Pow2(e.v));
      var q := e.inv1 * h / Pow2(e.v);
      assert e.inv1 * (h * e.step) == q * e.step * Pow2(e.v) by {
        Swap(q, Pow2(e.v), e.step);
      }
      ModMultiple(q * e.step, Pow2(e.v));
    }
  }

  /** An odd factor does not help a product to vanish. */
  lemma OddVanishes(x: int, d: int, v: nat)
    requires x * d % Pow2(v) == 0 && d % 2 == 1
    ensures x % Pow2(v) == 0
  {
    Remainder(x * d, Pow2(v));
    var r := OddCancels(x, d, x * d / Pow2(v), v);
    ModMultiple(r, Pow2(v));
  }

  lemma ReturnMeansHalfRound(e: Pattern, d: nat)
    requires Valid(e) && 0 < d < Pow2(e.w) && Address(e, d) == Address(e, 0) && e.step % 2 == 1
    ensures HalfRoundVanishes(e)
  {
    if WrapsHidden(e) {
      HiddenReturns(e, 0, d);
      HiddenStep(e, d);
      MulAssoc(e.inv1, d, e.step);
      OddVanishes(e.inv1 * d, e.step, e.v);
      VanishingDistance(e.inv1, d, e.w - 1, e.v);
    } else {
      VisibleReturns(e, 0, d);
      OddVanishes(d, e.step, e.w);
      ModSmall(d, Pow2(e.w));
      assert false;
    }
  }

  /** A round less its last iteration holds a return exactly if half a round is one. */
  lemma ReturnsBeforeLast(e: Pattern)
    requires Valid(e)
    ensures ReturnsWithin(e, Pow2(e.w) - 1) <==> e.step % 2 == 0 || HalfRoundVanishes(e)
  {
    if ReturnsWithin(e, Pow2(e.w) - 1) && e.step % 2 == 1 {
      var d: nat :| 0 < d <= Pow2(e.w) - 1 && Address(e, d) == Address(e, 0);
      ReturnMeansHalfRound(e, d);
    }
    if e.step % 2 == 0 || HalfRoundVanishes(e) {
      HalfRoundReturns(e);
      assert Pow2(e.w) == 2 * Pow2(e.w - 1);
    }
  }

  lemma SmallPowers()
    ensures Pow2(8) == 256 && Pow2(16) == 65536
  {
    assert Pow2(4) == 16;
    Pow2Add(4, 4);
    Pow2Add(8, 8);
  }

  /** The pass accepts a zero offset with any step.  With step 4 an 8-bit index wraps after 64
      iterations, and the rebuilt recurrence goes on to addresses the program never uses. */
  lemma CyclicStepFourFails()
    ensures var e := Pattern(8, 16, 16, ZExt, 0, 4, 1, 1000);
            && Valid(e) && Rebuilt(e, 64) == 1256
            && forall i: nat :: Address(e, i) < 1256
  {
    SmallPowers();
    var e := Pattern(8, 16, 16, ZExt, 0, 4, 1, 1000);
    forall i: nat
      ensures Address(e, i) < 1256
    {
      var x := (0 + i * 4) % 256;
      assert Address(e, i) == (1 * x % 65536 + 1000) % 65536;
    }
  }

  /** So does one that counts down from zero: the rebuilt recurrence moves by 255, not by -1. */
  lemma CountDownFails()
    ensures var e := Pattern(8, 16, 16, ZExt, 0, 255, 1, 1000);
            && Valid(e) && Address(e, 2) == 1254 && Rebuilt(e, 2) == 1510
            && forall i: nat :: Address(e, i) < 1256
  {
    SmallPowers();
    var e := Pattern(8, 16, 16, ZExt, 0, 255, 1, 1000);
    assert 510 % 256 == 254;
    forall i: nat
      ensures Address(e, i) < 1256
    {
      var x := (0 + i * 255) % 256;
      assert Address(e, i) == (1 * x % 65536 + 1000) % 65536;
    }
  }

  lemma SignedIndexAddress(x: int)
    requires 0 <= x < 256
    ensures ((if x < 128 then x else x + 65280) % 65536 + 1000) % 65536 <= 1127
  {
    if x < 128 {
      ModSmall(x, 65536);
      ModSmall(x + 1000, 65536);
    } else {
      ModSmall(x + 65280, 65536);
      DivModUnique(x + 66280, 65536, 1, x + 744);
    }
  }

  /** A sign-extended 8-bit index counting up from zero, which the pass accepts. */
  lemma SignedIndexFails()
    ensures var e := Pattern(8, 16, 16, SExt, 0, 1, 1, 1000);
            && Valid(e) && Rebuilt(e, 200) == 1200
            && forall i: nat :: Address(e, i) <= 1127
  {
    SmallPowers();
    assert Pow2(7) == 128;
    var e := Pattern(8, 16, 16, SExt, 0, 1, 1, 1000);
    forall i: nat
      ensures Address(e, i) <= 1127
    {
      SignedIndexAddress((0 + i * 1) % 256);
    }
  }
}
