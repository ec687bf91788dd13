/** The inline check of a memory access against ASan's shadow. */
module AccessCheck {
  import opened Arith

  /** Shadow memory, from granule numbers to signed bytes. */
  type Shadow = int -> int

  /** Granules have 2^scale bytes; 0 means all of them are accessible, k > 0 the first k, a negative
      value none. */
  ghost predicate ValidShadow(s: Shadow, scale: nat) {
    scale <= 7 && forall g :: -128 <= s(g) < Pow2(scale)
  }

  predicate Addressable(s: Shadow, scale: nat, a: int) {
    var v := s(a / Pow2(scale));
    v == 0 || a % Pow2(scale) < v
  }

  ghost predicate SomeBad(s: Shadow, scale: nat, addr: int, size: int) {
    exists a :: addr <= a < addr + size && !Addressable(s, scale, a)
  }

  // ----- one check for 1, 2, 4, 8 or 16 bytes -----

  /** The signed value of `n` shadow bytes from granule `g` on, lowest address first. */
  function ShadowValue(s: Shadow, g: int, n: nat): int
    requires n > 0
    decreases n
  {
    if n == 1 then s(g) else s(g) % 256 + 256 * ShadowValue(s, g + 1, n - 1)
  }

  function Max(a: int, b: int): int {
    if a < b then b else a
  }

  /** The check of an access of 2^logSize bytes: report if the shadow is not zero and, on the slow
      path, the last byte accessed is not below it. */
  predicate Reported(s: Shadow, scale: nat, always: bool, addr: int, logSize: nat) {
    var size, granule := Pow2(logSize), Pow2(scale);
    var v := ShadowValue(s, addr / granule, Max(1, size / granule));
    v != 0 && (always || size < granule ==> addr % granule + size - 1 >= v)
  }

  lemma {:induction false} ShadowValueZero(s: Shadow, g: int, n: nat)
    requires n > 0 && forall k :: g <= k < g + n ==> -128 <= s(k) < 128
    ensures ShadowValue(s, g, n) == 0 <==> forall k :: g <= k < g + n ==> s(k) == 0
    decreases n
  {
    if n > 1 {
      ShadowValueZero(s, g + 1, n - 1);
      assert (forall k :: g + 1 <= k < g + n ==> s(k) == 0) && s(g) == 0 ==> forall k :: g <= k < g + n ==> s(k) == 0;
    }
  }

  /** An aligned access smaller than a granule lies inside one. */
  lemma WithinGranule(addr: int, logSize: nat, scale: nat)
    requires logSize <= scale && addr % Pow2(logSize) == 0
    ensures addr % Pow2(scale) + Pow2(logSize) <= Pow2(scale)
  {
    var z, m := Pow2(logSize), Pow2(scale - logSize);
    Pow2Add(logSize, scale - logSize);
    ModNested(addr, z, m);
    MultipleBelow(addr % Pow2(scale), z, m);
  }

  lemma MultipleBelow(r: int, z: int, m: int)
    requires 0 < z && 0 <= r < z * m && r % z == 0
    ensures r + z <= z * m
  {
    var q := r / z;
    assert r == q * z;
    if q >= m {
      MulMonotone(m, q, z);
    } else {
      MulMonotone(q + 1, m, z);
    }
  }

  lemma SmallAccess(s: Shadow, scale: nat, addr: int, logSize: nat)
    requires ValidShadow(s, scale) && logSize < scale && addr % Pow2(logSize) == 0
    ensures SomeBad(s, scale, addr, Pow2(logSize))
            <==> s(addr / Pow2(scale)) != 0 && addr % Pow2(scale) + Pow2(logSize) - 1 >= s(addr / Pow2(scale))
  {
    var granule, size := Pow2(scale), Pow2(logSize);
    WithinGranule(addr, logSize, scale);
    forall a | addr <= a < addr + size
      ensures a / granule == addr / granule && a % granule == addr % granule + (a - addr)
    {
      SameGranule(addr, a, granule);
    }
    assert !Addressable(s, scale, addr + size - 1) ==> SomeBad(s, scale, addr, size);
  }

  lemma SameGranule(addr: int, a: int, granule: int)
    requires 0 < granule && 0 <= addr % granule + (a - addr) < granule
    ensures a / granule == addr / granule && a % granule == addr % granule + (a - addr)
  {
    assert addr == addr / granule * granule + addr % granule;
    DivModUnique(a, granule, addr / granule, addr % granule + (a - addr));
  }

  /** An access of the `n` granules from `g` on. */
  lemma LargeAccess(s: Shadow, scale: nat, g: int, n: nat)
    requires ValidShadow(s, scale)
    ensures SomeBad(s, scale, g * Pow2(scale), n * Pow2(scale)) <==> exists k :: g <= k < g + n && s(k) != 0
  {
    if SomeBad(s, scale, g * Pow2(scale), n * Pow2(scale)) {
      BadGranule(s, scale, g, n);
    }
    if k :| g <= k < g + n && s(k) != 0 {
      LastOfGranule(s, scale, g, n, k);
    }
  }

  lemma BadGranule(s: Shadow, scale: nat, g: int, n: nat)
    requires SomeBad(s, scale, g * Pow2(scale), n * Pow2(scale))
    ensures exists k :: g <= k < g + n && s(k) != 0
  {
    var granule := Pow2(scale);
    var a :| g * granule <= a < g * granule + n * granule && !Addressable(s, scale, a);
    InGranule(g, n, granule, a);
    assert s(a / granule) != 0;
  }

  lemma LastOfGranule(s: Shadow, scale: nat, g: int, n: nat, k: int)
    requires ValidShadow(s, scale) && g <= k < g + n && s(k) != 0
    ensures SomeBad(s, scale, g * Pow2(scale), n * Pow2(scale))
  {
    var granule := Pow2(scale);
    var a := k * granule + granule - 1;
    DivModUnique(a, granule, k, granule - 1);
    MulMonotone(g, k, granule);
    MulMonotone(k, g + n, granule);
    Expand(g, n, 0, granule);
    assert !Addressable(s, scale, a);
  }

  lemma InGranule(g: int, n: nat, granule: int, a: int)
    requires 0 < granule && g * granule <= a < g * granule + n * granule
    ensures g <= a / granule < g + n
  {
    var q := a / granule;
    assert a == q * granule + a % granule;
    assert (g + n) * granule == g * granule + n * granule;
    if q < g {
      MulMonotone(q, g, granule);
    } else if q >= g + n {
      MulMonotone(g + n, q, granule);
    }
  }

  predicate IsAligned(scale: nat, addr: int, logSize: nat) {
    addr % Pow2(if logSize < scale then logSize else scale) == 0
  }

  /** Main result on the check: an access aligned to its size or to a granule is reported exactly
      when some byte of it is not accessible. */
  lemma CheckIsExact(s: Shadow, scale: nat, addr: int, logSize: nat)
    requires ValidShadow(s, scale) && IsAligned(scale, addr, logSize)
    ensures Reported(s, scale, false, addr, logSize) <==> SomeBad(s, scale, addr, Pow2(logSize))
  {
    if logSize < scale {
      Pow2Monotone(logSize, scale);
      DivModUnique(Pow2(logSize), Pow2(scale), 0, Pow2(logSize));
      SmallAccess(s, scale, addr, logSize);
    } else {
      WholeGranules(s, scale, addr, logSize);
    }
  }

  lemma WholeGranules(s: Shadow, scale: nat, addr: int, logSize: nat)
    requires ValidShadow(s, scale) && scale <= logSize && addr % Pow2(scale) == 0
    ensures Reported(s, scale, false, addr, logSize) <==> SomeBad(s, scale, addr, Pow2(logSize))
  {
    var n, g := Pow2(logSize - scale), addr / Pow2(scale);
    Pow2Add(logSize - scale, scale);
    ExactQuotient(addr, Pow2(scale));
    FastPath(s, scale, addr, logSize, g, n);
    LargeAccess(s, scale, g, n);
    GranuleAtMost128(scale);
    ShadowValueZero(s, g, n);
  }

  lemma ExactQuotient(x: int, m: int)
    requires 0 < m && x % m == 0
    ensures x == x / m * m
  {
  }

  lemma FastPath(s: Shadow, scale: nat, addr: int, logSize: nat, g: int, n: nat)
    requires 0 < n && addr == g * Pow2(scale) && Pow2(logSize) == n * Pow2(scale)
    ensures Reported(s, scale, false, addr, logSize) <==> ShadowValue(s, g, n) != 0
  {
    DivModUnique(addr, Pow2(scale), g, 0);
    DivModUnique(Pow2(logSize), Pow2(scale), n, 0);
    MulMonotone(1, n, Pow2(scale));
  }

  lemma GranuleAtMost128(scale: nat)
    requires scale <= 7
    ensures Pow2(scale) <= 128
  {
    assert Pow2(3) == 8 && Pow2(4) == 16;
    Pow2Add(3, 4);
    Pow2Monotone(scale, 7);
  }

  /** The slow path forced on an access of whole granules: it is right exactly if the shadow loaded,
      as a signed number, is below the size of the access. */
  lemma ForcedSlowPathIsExact(s: Shadow, scale: nat, addr: int, logSize: nat)
    requires ValidShadow(s, scale) && scale <= logSize && addr % Pow2(scale) == 0
    ensures var v := ShadowValue(s, addr / Pow2(scale), Pow2(logSize - scale));
            (Reported(s, scale, true, addr, logSize) <==> SomeBad(s, scale, addr, Pow2(logSize))) <==> v < Pow2(logSize)
  {
    GranulesOfSize(scale, logSize);
    GranulesBad(s, scale, addr, Pow2(logSize - scale));
    hide SomeBad;
    hide ShadowValue;
    hide Pow2;
  }

  lemma GranulesOfSize(scale: nat, logSize: nat)
    requires scale <= logSize
    ensures Pow2(logSize) / Pow2(scale) == Pow2(logSize - scale)
    ensures Pow2(logSize) == Pow2(logSize - scale) * Pow2(scale) >= Pow2(scale)
  {
    Pow2Add(scale, logSize - scale);
    Pow2Monotone(scale, logSize);
    DivModUnique(Pow2(logSize), Pow2(scale), Pow2(logSize - scale), 0);
  }

  /** Whole granules hold a bad byte exactly if their shadow is not zero. */
  lemma GranulesBad(s: Shadow, scale: nat, addr: int, n: nat)
    requires ValidShadow(s, scale) && addr % Pow2(scale) == 0 && n > 0
    ensures SomeBad(s, scale, addr, n * Pow2(scale)) <==> ShadowValue(s, addr / Pow2(scale), n) != 0
  {
    var g := addr / Pow2(scale);
    Remainder(addr, Pow2(scale));
    assert addr == g * Pow2(scale);
    GranuleAtMost128(scale);
    LargeAccess(s, scale, g, n);
    hide SomeBad;
    ShadowValueZero(s, g, n);
  }

  /** The slow path forced on a 16-byte access misses errors: exactly those where the second
      granule is partly accessible, or is fully accessible and the first not at all. */
  lemma ForcedSlowPathMisses(s: Shadow, addr: int)
    requires ValidShadow(s, 3) && addr % 8 == 0
    ensures var v, w := s(addr / 8), s(addr / 8 + 1);
            (Reported(s, 3, true, addr, 4) <==> SomeBad(s, 3, addr, 16)) <==> !(w > 0 || (w == 0 && v < 0))
  {
    assert Pow2(3) == 8 && Pow2(4) == 16;
    var g := addr / 8;
    LargeAccess(s, 3, g, 2);
    var v, w := s(g), s(g + 1);
    assert ShadowValue(s, g, 2) == v % 256 + 256 * w;
    assert (exists k :: g <= k < g + 2 && s(k) != 0) <==> v != 0 || w != 0;
  }

  // ----- the choice of check -----

  /** The exponent of a size that has a check of its own. */
  function LogSize(size: nat): int {
    if size == 1 then 0 else if size == 2 then 1 else if size == 4 then 2
    else if size == 8 then 3 else if size == 16 then 4 else -1
  }

  /** The alignment of an access, 2^exponent, where one is given. */
  datatype Alignment = Unknown | Known(exponent: nat)

  /** The emitted check of an access: one check where size and alignment allow it. */
  predicate AccessReported(s: Shadow, scale: nat, addr: int, size: nat, align: Alignment) {
    var k := LogSize(size);
    if k >= 0 && (align.Unknown? || align.exponent >= scale || align.exponent >= k) then
      Reported(s, scale, false, addr, k)
    else
      EndsReported(s, scale, addr, size)
  }

  /** An access of 1, 2, 4, 8 or 16 bytes that meets the alignment test is reported exactly when some
      byte of it is not accessible; where no alignment is given, if it is as aligned as its size. */
  lemma AlignedAccessIsExact(s: Shadow, scale: nat, addr: int, size: nat, align: Alignment)
    requires ValidShadow(s, scale) && size in {1, 2, 4, 8, 16}
    requires align.Unknown? ==> addr % size == 0
    requires align.Known? ==> addr % Pow2(align.exponent) == 0
    requires align.Known? ==> Pow2(align.exponent) >= Pow2(scale) || Pow2(align.exponent) >= size
    ensures AccessReported(s, scale, addr, size, align) <==> SomeBad(s, scale, addr, size)
  {
    var k := Exponent(size);
    var e := if align.Known? then align.exponent else k;
    if e < scale {
      Pow2Monotone(e, scale);
    }
    if e < k {
      Pow2Monotone(e, k);
    }
    LowerAlignment(addr, e, if k < scale then k else scale);
    CheckIsExact(s, scale, addr, k);
  }

  /** Any other size, or a smaller alignment: the first and the last byte decide. */
  lemma OtherAccessChecksEnds(s: Shadow, scale: nat, addr: int, size: nat, align: Alignment)
    requires ValidShadow(s, scale) && size > 0
    requires size !in {1, 2, 4, 8, 16}
             || (align.Known? && Pow2(align.exponent) < Pow2(scale) && Pow2(align.exponent) < size)
    ensures AccessReported(s, scale, addr, size, align)
            <==> !Addressable(s, scale, addr) || !Addressable(s, scale, addr + size - 1)
  {
    EndsAreChecked(s, scale, addr, size);
    if size in {1, 2, 4, 8, 16} {
      var k := Exponent(size);
      var e := align.exponent;
      if scale <= e {
        Pow2Monotone(scale, e);
      }
      if k <= e {
        Pow2Monotone(k, e);
      }
    }
  }

  lemma Exponent(size: nat) returns (k: nat)
    requires size in {1, 2, 4, 8, 16}
    ensures k == LogSize(size) && Pow2(k) == size
  {
    k := LogSize(size);
    assert Pow2(0) == 1 && Pow2(1) == 2 && Pow2(2) == 4 && Pow2(3) == 8 && Pow2(4) == 16;
  }

  lemma LowerAlignment(addr: int, align: nat, k: nat)
    requires k <= align && addr % Pow2(align) == 0
    ensures addr % Pow2(k) == 0
  {
    Pow2Add(k, align - k);
    ModNested(addr, Pow2(k), Pow2(align - k));
    ModSmall(0, Pow2(k));
  }

  /** Unusual sizes and alignments: the first and the last byte are checked. */
  predicate EndsReported(s: Shadow, scale: nat, addr: int, size: nat) {
    Reported(s, scale, false, addr, 0) || Reported(s, scale, false, addr + size - 1, 0)
  }

  lemma OneByte(s: Shadow, scale: nat, addr: int)
    requires ValidShadow(s, scale)
    ensures Reported(s, scale, false, addr, 0) <==> !Addressable(s, scale, addr)
  {
    CheckIsExact(s, scale, addr, 0);
    assert !Addressable(s, scale, addr) ==> SomeBad(s, scale, addr, 1);
  }

  /** A run of inaccessible bytes between two accessible ones, of less than size - 1 bytes. */
  ghost predicate ShortGap(s: Shadow, scale: nat, p: int, q: int, size: int) {
    && p < q < p + size - 1 && Addressable(s, scale, p - 1) && Addressable(s, scale, q)
    && forall a :: p <= a < q ==> !Addressable(s, scale, a)
  }

  lemma EndsAreChecked(s: Shadow, scale: nat, addr: int, size: nat)
    requires ValidShadow(s, scale)
    ensures EndsReported(s, scale, addr, size)
            <==> !Addressable(s, scale, addr) || !Addressable(s, scale, addr + size - 1)
  {
    OneByte(s, scale, addr);
    OneByte(s, scale, addr + size - 1);
  }

  /** The fallback never reports falsely, and is exact if inaccessible runs between accessible bytes
      have at least size - 1 bytes. */
  lemma FallbackIsExact(s: Shadow, scale: nat, addr: int, size: nat)
    requires ValidShadow(s, scale) && size > 0
    ensures EndsReported(s, scale, addr, size) ==> SomeBad(s, scale, addr, size)
    ensures (forall p, q :: Addressable(s, scale, p) && Addressable(s, scale, q) && p + 1 < q < p + size ==>
                              exists a :: p < a < q && Addressable(s, scale, a)) ==>
              (EndsReported(s, scale, addr, size) <==> SomeBad(s, scale, addr, size))
  {
    EndsAreChecked(s, scale, addr, size);
    if SomeBad(s, scale, addr, size) && !EndsReported(s, scale, addr, size) {
      var p, q := FindGap(s, scale, addr, size);
      assert Addressable(s, scale, p - 1);
    }
  }

  /** A shadow whose only inaccessible bytes are the `r` bytes before address 0. */
  function OneGap(scale: nat, r: int): Shadow {
    var granule := Pow2(scale);
    (g: int) => if g >= 0 || g * granule + granule <= -r then 0
                else if g * granule >= -r then -1
                else -r - g * granule
  }

  lemma OneGapIsThere(scale: nat, r: int, a: int)
    requires scale <= 7 && 0 < r
    ensures Addressable(OneGap(scale, r), scale, a) <==> a < -r || a >= 0
  {
    var granule := Pow2(scale);
    var g := a / granule;
    assert a == g * granule + a % granule;
    if g >= 0 {
      MulMonotone(0, g, granule);
    } else {
      MulMonotone(g, -1, granule);
    }
  }

  /** That bound is tight: with one shorter run the fallback misses an access. */
  lemma FallbackMissesShortGap(scale: nat, r: int, size: nat)
    requires scale <= 7 && 0 < r && r + 2 <= size
    ensures var s := OneGap(scale, r);
            ValidShadow(s, scale) && SomeBad(s, scale, -r - 1, size) && !EndsReported(s, scale, -r - 1, size)
  {
    var s := OneGap(scale, r);
    OneGapIsThere(scale, r, -r - 1);
    OneGapIsThere(scale, r, -r);
    OneGapIsThere(scale, r, -r - 1 + size - 1);
    EndsAreChecked(s, scale, -r - 1, size);
  }

  /** The run of inaccessible bytes around `m` starts behind an accessible one. */
  lemma GapStart(s: Shadow, scale: nat, addr: int, m: int) returns (p: int)
    requires addr < m && Addressable(s, scale, addr) && !Addressable(s, scale, m)
    ensures addr < p <= m && Addressable(s, scale, p - 1) && forall a :: p <= a <= m ==> !Addressable(s, scale, a)
  {
    p := m;
    while !Addressable(s, scale, p - 1)
      invariant addr < p <= m && forall a :: p <= a <= m ==> !Addressable(s, scale, a)
      decreases p - addr
    {
      p := p - 1;
    }
  }

  lemma GapEnd(s: Shadow, scale: nat, m: int, last: int) returns (q: int)
    requires m < last && !Addressable(s, scale, m) && Addressable(s, scale, last)
    ensures m < q <= last && Addressable(s, scale, q) && forall a :: m <= a < q ==> !Addressable(s, scale, a)
  {
    q := m + 1;
    while !Addressable(s, scale, q)
      invariant m < q <= last && forall a :: m <= a < q ==> !Addressable(s, scale, a)
      decreases last - q
    {
      q := q + 1;
    }
  }

  lemma FindGap(s: Shadow, scale: nat, addr: int, size: nat) returns (p: int, q: int)
    requires SomeBad(s, scale, addr, size) && Addressable(s, scale, addr) && Addressable(s, scale, addr + size - 1)
    ensures ShortGap(s, scale, p, q, size)
  {
    var m :| addr <= m < addr + size && !Addressable(s, scale, m);
    hide Addressable;
    p := GapStart(s, scale, addr, m);
    q := GapEnd(s, scale, m, addr + size - 1);
  }
}
