/** The address-space layout shared by the three sanitizers, and the constraints its generator solves. */
module ShadowLayout {
  import opened Arith
  import opened BitOps

  const WORD := 0x1_0000_0000_0000_0000
  const BLOCK := 0x1000_0000_0000

  datatype AppName = LoApp | MidApp | HiApp | Heap

  datatype Kind = MsanShadow | MsanOrigin | TsanShadow | TsanMeta

  /** The regions the generator lists. */
  datatype RegionId = App(a: AppName) | AsanShadowLo | AsanShadowRest | Shadow(kind: Kind, of: AppName)

  datatype Region = Region(beg: nat, end: nat)

  /** The parameters; numbers stand for 64-bit words. */
  datatype Layout = Layout(lo: Region, mid: Region, hi: Region, heap: Region, asanOffset: nat, msanXor: nat,
                           msanAdd: nat, tsanMask: nat, tsanXor: nat, tsanAdd: nat, metaBeg: nat)

  function Apps(l: Layout, a: AppName): Region {
    match a
    case LoApp => l.lo
    case MidApp => l.mid
    case HiApp => l.hi
    case Heap => l.heap
  }

  predicate In(r: Region, m: int) {
    r.beg <= m < r.end
  }

  // ----- the mappings -----

  function Wrap(x: nat): nat {
    if x < WORD then x else x % WORD
  }

  function UserBits(l: Layout, m: nat): nat {
    Apply(AndNot, m, Apply(Or, l.tsanMask, 7))
  }

  /** The first shadow byte for an application byte; MSan has one byte for it, TSan a cell. */
  function Mapped(l: Layout, k: Kind, m: nat): nat {
    match k
    case MsanShadow => Apply(Xor, m, l.msanXor)
    case MsanOrigin => Wrap(Apply(Xor, m, l.msanXor) + l.msanAdd)
    case TsanShadow => Wrap(Apply(Xor, UserBits(l, m), l.tsanXor) * 2 + l.tsanAdd)
    case TsanMeta => Apply(Or, UserBits(l, m) / 8 * 4, l.metaBeg)
  }

  function CellSize(k: Kind): nat {
    match k
    case MsanShadow | MsanOrigin => 1
    case TsanShadow => 16
    case TsanMeta => 4
  }

  /** The region for an application region, computed from its two ends only. */
  function ShadowOf(l: Layout, k: Kind, r: Region): Region {
    Region(Mapped(l, k, r.beg), Wrap(Mapped(l, k, if r.end > 0 then r.end - 1 else WORD - 1) + CellSize(k)))
  }

  function AsanShadow(l: Layout, m: nat): nat {
    Wrap(m / 8 + l.asanOffset)
  }

  function RegionOf(l: Layout, id: RegionId): Region {
    match id
    case App(a) => Apps(l, a)
    case AsanShadowLo => Region(l.asanOffset, AsanShadow(l, l.asanOffset))
    case AsanShadowRest => Region(AsanShadow(l, AsanShadow(l, l.hi.end)), AsanShadow(l, l.hi.end))
    case Shadow(k, a) => ShadowOf(l, k, Apps(l, a))
  }

  // ----- the constraints -----

  predicate MinMax(l: Layout, r: Region) {
    l.lo.end < r.beg < r.end < l.hi.beg
  }

  predicate Basic(l: Layout) {
    && l.lo.beg == 0 && l.lo.end < l.mid.beg < l.mid.end < l.hi.beg < l.hi.end
    && MinMax(l, l.heap) && l.heap.beg > l.mid.end
  }

  predicate SanitizerSpecific(l: Layout) {
    && l.msanXor % BLOCK == 0 && l.msanAdd < l.hi.beg
    && l.tsanXor == 0 && l.tsanAdd < l.hi.beg
    && l.metaBeg % BLOCK == 0
  }

  predicate Disjoint(r1: Region, r2: Region) {
    r1.end <= r2.beg || r2.end <= r1.beg
  }

  /** What the solver is asked for; only ends of regions are mentioned. */
  ghost predicate Constraints(l: Layout) {
    && Basic(l) && SanitizerSpecific(l)
    && (forall k, a :: MinMax(l, RegionOf(l, Shadow(k, a))))
    && (forall i, j :: i != j && i != App(LoApp) && j != App(LoApp) ==> Disjoint(RegionOf(l, i), RegionOf(l, j)))
  }

  /** The two supported masks take the top bits of every application address. */
  predicate MaskFits(l: Layout) {
    && (l.tsanMask == 0x7000_0000_0000 || l.tsanMask == 0xF000_0000_0000)
    && l.hi.end <= l.tsanMask + BLOCK
  }

  /** No application region is as long as a block. */
  predicate ShortRegions(l: Layout) {
    forall a :: Apps(l, a).beg < Apps(l, a).end <= Apps(l, a).beg + BLOCK - 8
  }

  /** All parameters are 64-bit words. */
  predicate Words(l: Layout) {
    l.hi.end < WORD && l.msanXor < WORD && l.metaBeg < WORD
  }

  // ----- closed forms -----

  lemma Constants()
    ensures Pow2(44) == BLOCK && Pow2(3) == 8 && Pow2(4) == 16 && Pow2(20) * BLOCK == WORD
  {
    assert Pow2(4) == 16 && Pow2(3) == 8;
    Pow2Add(4, 4);
    Pow2Add(8, 8);
    Pow2Add(16, 4);
    Pow2Add(20, 20);
    Pow2Add(40, 4);
  }

  lemma LowHigh(m: nat)
    ensures Low(m, 44) == m % BLOCK && High(m, 44) == m / BLOCK
    ensures Low(m, 3) == m % 8 && High(m, 3) == m / 8
  {
    Constants();
  }

  /** Within a block, exclusive or with a multiple of the block size is a translation. */
  lemma XorTranslates(b: nat, m: nat, x: nat)
    requires b / BLOCK == m / BLOCK && x % BLOCK == 0
    ensures Apply(Xor, m, x) - Apply(Xor, b, x) == m - b
  {
    Constants();
    LowHigh(b);
    LowHigh(m);
    LowHigh(x);
    Split(Xor, b, x, 44);
    Split(Xor, m, x, 44);
    Zero(Xor, Low(b, 44));
    Zero(Xor, Low(m, 44));
  }

  lemma MaskValue(mask: nat)
    requires mask == 0x7000_0000_0000 || mask == 0xF000_0000_0000
    ensures Apply(Or, mask, 7) == mask + 7
  {
    OrAdds(7, mask);
    OrCommutes(mask, 7);
  }

  lemma {:induction false} OrCommutes(a: nat, b: nat)
    ensures Apply(Or, a, b) == Apply(Or, b, a)
    decreases a + b
  {
    if a + b > 0 {
      OrCommutes(a / 2, b / 2);
    }
  }

  /** Clearing the low three bits. */
  lemma ClearGranule(y: nat)
    ensures Apply(AndNot, y, 7) == y - y % 8
  {
    Constants();
    LowHigh(y);
    LowHigh(7);
    Split(AndNot, y, 7, 3);
    ClearAll(Low(y, 3), 3);
    Zero(AndNot, High(y, 3));
  }

  /** Masking leaves the low 44 bits, rounded down to a granule. */
  lemma UserBitsAreLow(l: Layout, m: nat)
    requires MaskFits(l) && m < l.tsanMask + BLOCK
    ensures UserBits(l, m) == m % BLOCK - m % 8
  {
    MaskValue(l.tsanMask);
    Constants();
    if l.tsanMask == 0x7000_0000_0000 {
      ClearTop(m, 7, 3);
    } else {
      ClearTop(m, 15, 4);
    }
  }

  lemma ClearTop(m: nat, t: nat, j: nat)
    requires t == Pow2(j) - 1 && m < (t + 1) * BLOCK
    ensures Apply(AndNot, m, t * BLOCK + 7) == m % BLOCK - m % 8
  {
    var n := t * BLOCK + 7;
    LowHigh(n);
    LowHigh(m);
    DivModUnique(n, BLOCK, t, 7);
    HighBelow(m, t + 1);
    ClearAll(High(m, 44), j);
    ClearGranule(m % BLOCK);
    ModNested(m, 8, BLOCK / 8);
    Split(AndNot, m, n, 44);
    assert Pow2(44) * Apply(AndNot, High(m, 44), t) == 0;
  }

  lemma HighBelow(m: nat, t: nat)
    requires m < t * BLOCK
    ensures m / BLOCK < t
  {
    var k := BlockOf(m, BLOCK, t);
    DivModUnique(m, BLOCK, k, m - k * BLOCK);
  }

  lemma OrAdds(y: nat, meta: nat)
    requires y < BLOCK && meta % BLOCK == 0
    ensures Apply(Or, y, meta) == y + meta
  {
    Constants();
    LowHigh(y);
    LowHigh(meta);
    Split(Or, y, meta, 44);
    Zero(Or, y);
    Zero(Or, High(meta, 44));
  }

  // ----- from region ends to single addresses -----

  /** The offset of the granule of `m` in its block. */
  function GranuleInBlock(m: nat): (g: nat)
    ensures g < BLOCK && g % 8 == 0 && g <= m % BLOCK < g + 8
  {
    ModNested(m, 8, BLOCK / 8);
    ModAtMost(m % BLOCK, 8);
    Remainder(m % BLOCK, 8);
    ModMultiple(m % BLOCK / 8, 8);
    m % BLOCK - m % 8
  }

  lemma UserBitsAreGranule(l: Layout, m: nat)
    requires MaskFits(l) && m < l.hi.end
    ensures UserBits(l, m) == GranuleInBlock(m)
  {
    UserBitsAreLow(l, m);
  }

  /** TSan's mappings without bit operations, for addresses below the top of the application space. */
  lemma ClosedShadow(l: Layout, m: nat)
    requires MaskFits(l) && SanitizerSpecific(l) && l.hi.beg <= l.hi.end && m < l.hi.end
    ensures Mapped(l, TsanShadow, m) == GranuleInBlock(m) * 2 + l.tsanAdd < WORD - 16
  {
    UserBitsAreGranule(l, m);
    Zero(Xor, UserBits(l, m));
  }

  lemma ClosedMeta(l: Layout, m: nat)
    requires MaskFits(l) && SanitizerSpecific(l) && m < l.hi.end
    ensures Mapped(l, TsanMeta, m) == GranuleInBlock(m) / 2 + l.metaBeg
  {
    UserBitsAreGranule(l, m);
    var g := GranuleInBlock(m);
    HalfOfEights(g);
    OrAdds(g / 8 * 4, l.metaBeg);
  }

  lemma HalfOfEights(g: nat)
    requires g % 8 == 0
    ensures g / 8 * 4 == g / 2
  {
  }

  predicate OneBlock(r: Region) {
    r.beg < r.end && r.beg / BLOCK == (r.end - 1) / BLOCK
  }

  /** TSan's constraint on the ends keeps a region shorter than a block from crossing into the next. */
  lemma StaysInBlock(l: Layout, r: Region)
    requires MaskFits(l) && SanitizerSpecific(l) && r.end <= l.hi.end && l.hi.beg < l.hi.end
    requires r.beg < r.end <= r.beg + BLOCK - 8
    requires ShadowOf(l, TsanShadow, r).beg < ShadowOf(l, TsanShadow, r).end
    ensures OneBlock(r)
  {
    hide Apply;
    EndsGrow(l, r);
    CrossingGoesDown(r.beg, r.end - 1);
  }

  lemma EndsGrow(l: Layout, r: Region)
    requires MaskFits(l) && SanitizerSpecific(l) && 0 < r.end <= l.hi.end && r.beg < l.hi.end && l.hi.beg < l.hi.end
    requires ShadowOf(l, TsanShadow, r).beg < ShadowOf(l, TsanShadow, r).end
    ensures GranuleInBlock(r.beg) < GranuleInBlock(r.end - 1) + 8
  {
    hide Apply;
    hide Mapped;
    hide GranuleInBlock;
    ClosedShadow(l, r.beg);
    ClosedShadow(l, r.end - 1);
  }

  /** Less than a block further on, in the next block, the granule offset is smaller. */
  lemma CrossingGoesDown(b: nat, e: nat)
    requires b <= e < b + BLOCK - 8
    ensures b / BLOCK == e / BLOCK || GranuleInBlock(e) + 8 <= GranuleInBlock(b)
  {
    Remainder(b, BLOCK);
    Remainder(e, BLOCK);
    var d := e / BLOCK - b / BLOCK;
    assert d * BLOCK == (e - e % BLOCK) - (b - b % BLOCK);
    assert 0 <= d <= 1;
  }

  /** The shadow cell of `m` lies in the region computed from the ends of `r`. */
  predicate MapsInside(l: Layout, k: Kind, r: Region, m: nat) {
    ShadowOf(l, k, r).beg <= Mapped(l, k, m) && Mapped(l, k, m) + CellSize(k) <= ShadowOf(l, k, r).end
  }

  lemma XorIsWord(l: Layout, m: nat)
    requires Words(l) && m < l.hi.end
    ensures Apply(Xor, m, l.msanXor) < WORD
  {
    Constants();
    Pow2Add(20, 44);
    Bounded(Xor, m, l.msanXor, 64);
  }

  lemma WrapOnce(x: nat)
    requires WORD <= x < 2 * WORD
    ensures Wrap(x) == x - WORD
  {
    DivModUnique(x, WORD, 1, x - WORD);
  }

  lemma MsanShadowInside(l: Layout, r: Region, m: nat)
    requires SanitizerSpecific(l) && Words(l) && r.end <= l.hi.end && OneBlock(r) && In(r, m)
    requires MinMax(l, ShadowOf(l, MsanShadow, r))
    ensures MapsInside(l, MsanShadow, r, m)
  {
    hide Apply;
    SameBlock(r, m);
    XorTranslates(r.beg, m, l.msanXor);
    XorTranslates(r.beg, r.end - 1, l.msanXor);
    XorIsWord(l, r.end - 1);
    WrapOnce(WORD);
  }

  lemma SameBlock(r: Region, m: nat)
    requires OneBlock(r) && In(r, m)
    ensures m / BLOCK == r.beg / BLOCK == (r.end - 1) / BLOCK && r.end - 1 - r.beg < BLOCK
  {
    Remainder(r.beg, BLOCK);
    Remainder(m, BLOCK);
    Remainder(r.end - 1, BLOCK);
    QuotientMonotone(r.beg, m, BLOCK);
    QuotientMonotone(m, r.end - 1, BLOCK);
  }

  lemma MsanOriginInside(l: Layout, r: Region, m: nat)
    requires SanitizerSpecific(l) && Words(l) && l.hi.beg < l.hi.end && r.end <= l.hi.end && OneBlock(r) && In(r, m)
    requires MinMax(l, ShadowOf(l, MsanOrigin, r))
    ensures MapsInside(l, MsanOrigin, r, m)
  {
    hide Apply;
    SameBlock(r, m);
    XorTranslates(r.beg, m, l.msanXor);
    XorTranslates(r.beg, r.end - 1, l.msanXor);
    XorIsWord(l, r.end - 1);
    OriginOrder(l, r, m, Apply(Xor, r.beg, l.msanXor), m - r.beg, r.end - 1 - r.beg);
  }

  lemma OriginOrder(l: Layout, r: Region, m: nat, u: nat, i: nat, n: nat)
    requires 0 < r.end && i <= n < BLOCK && u + n < WORD && l.msanAdd < WORD
    requires u == Apply(Xor, r.beg, l.msanXor) && u + i == Apply(Xor, m, l.msanXor)
    requires u + n == Apply(Xor, r.end - 1, l.msanXor)
    requires MinMax(l, ShadowOf(l, MsanOrigin, r))
    ensures MapsInside(l, MsanOrigin, r, m)
  {
    hide Apply;
    AddInside(u, i, n, l.msanAdd);
    assert Mapped(l, MsanOrigin, m) == Wrap(u + i + l.msanAdd);
    assert Mapped(l, MsanOrigin, r.end - 1) == Wrap(u + n + l.msanAdd);
  }

  /** Adding a constant modulo 2^64 keeps a short interval in order if it keeps its ends in order. */
  lemma AddInside(u: nat, i: nat, n: nat, add: nat)
    requires i <= n < BLOCK && u + n < WORD && add < WORD
    requires Wrap(u + add) < Wrap(Wrap(u + n + add) + 1)
    ensures Wrap(u + add) <= Wrap(u + i + add) < Wrap(Wrap(u + n + add) + 1)
  {
    if u + add >= WORD {
      WrapOnce(u + add);
    }
    if u + i + add >= WORD {
      WrapOnce(u + i + add);
    }
    if u + n + add >= WORD {
      WrapOnce(u + n + add);
    }
    WrapOnce(WORD);
  }

  /** The granule offset of `m`, with both of TSan's mappings in terms of it. */
  lemma Closed(l: Layout, m: nat) returns (g: nat)
    requires MaskFits(l) && SanitizerSpecific(l) && l.hi.beg < l.hi.end && m < l.hi.end
    ensures g == GranuleInBlock(m) < BLOCK
    ensures Mapped(l, TsanShadow, m) == g * 2 + l.tsanAdd < WORD - 16 && Mapped(l, TsanMeta, m) == g / 2 + l.metaBeg
  {
    g := GranuleInBlock(m);
    ClosedShadow(l, m);
    ClosedMeta(l, m);
  }

  /** Two addresses of one block, in order. */
  lemma ClosedPair(l: Layout, b: nat, m: nat) returns (gb: nat, gm: nat)
    requires MaskFits(l) && SanitizerSpecific(l) && l.hi.beg < l.hi.end && b <= m < l.hi.end && b / BLOCK == m / BLOCK
    ensures gb <= gm < BLOCK
    ensures Mapped(l, TsanShadow, b) == gb * 2 + l.tsanAdd && Mapped(l, TsanMeta, b) == gb / 2 + l.metaBeg
    ensures Mapped(l, TsanShadow, m) == gm * 2 + l.tsanAdd < WORD - 16 && Mapped(l, TsanMeta, m) == gm / 2 + l.metaBeg
  {
    gb := Closed(l, b);
    gm := Closed(l, m);
    GranulesAscend(b, m);
  }

  lemma GranulesAscend(b: nat, m: nat)
    requires b <= m && b / BLOCK == m / BLOCK
    ensures GranuleInBlock(b) <= GranuleInBlock(m)
  {
    Remainder(b, BLOCK);
    Remainder(m, BLOCK);
  }

  lemma TsanShadowInside(l: Layout, r: Region, m: nat)
    requires MaskFits(l) && SanitizerSpecific(l) && l.hi.beg < l.hi.end && r.end <= l.hi.end && OneBlock(r) && In(r, m)
    ensures MapsInside(l, TsanShadow, r, m)
  {
    hide Apply;
    SameBlock(r, m);
    var gb, gm := ClosedPair(l, r.beg, m);
    var gm', ge := ClosedPair(l, m, r.end - 1);
    ShadowOrder(l, r, m, gb, gm, ge);
  }

  lemma ShadowOrder(l: Layout, r: Region, m: nat, gb: nat, gm: nat, ge: nat)
    requires 0 < r.end && gb <= gm <= ge
    requires Mapped(l, TsanShadow, r.beg) == gb * 2 + l.tsanAdd && Mapped(l, TsanShadow, m) == gm * 2 + l.tsanAdd
    requires Mapped(l, TsanShadow, r.end - 1) == ge * 2 + l.tsanAdd < WORD - 16
    ensures MapsInside(l, TsanShadow, r, m)
  {
  }

  lemma TsanMetaInside(l: Layout, r: Region, m: nat)
    requires MaskFits(l) && SanitizerSpecific(l) && l.hi.beg < l.hi.end && r.end <= l.hi.end && OneBlock(r) && In(r, m)
    requires MinMax(l, ShadowOf(l, TsanMeta, r))
    ensures MapsInside(l, TsanMeta, r, m)
  {
    hide Apply;
    SameBlock(r, m);
    var gb, gm := ClosedPair(l, r.beg, m);
    var gm', ge := ClosedPair(l, m, r.end - 1);
    MetaOrder(l, r, m, gb, gm, ge);
  }

  lemma MetaOrder(l: Layout, r: Region, m: nat, gb: nat, gm: nat, ge: nat)
    requires 0 < r.end && gb <= gm <= ge < BLOCK && l.hi.beg < WORD / 2
    requires Mapped(l, TsanMeta, r.beg) == gb / 2 + l.metaBeg && Mapped(l, TsanMeta, m) == gm / 2 + l.metaBeg
    requires Mapped(l, TsanMeta, r.end - 1) == ge / 2 + l.metaBeg
    requires MinMax(l, ShadowOf(l, TsanMeta, r))
    ensures MapsInside(l, TsanMeta, r, m)
  {
  }

  /** Main result, first part: the solver's constraints speak of region ends only, yet every
      application byte has its shadow cell inside the listed region. */
  lemma CellInside(l: Layout, k: Kind, a: AppName, m: nat)
    requires Constraints(l) && MaskFits(l) && ShortRegions(l) && Words(l) && In(Apps(l, a), m)
    ensures MapsInside(l, k, Apps(l, a), m)
  {
    var r := Apps(l, a);
    assert MinMax(l, RegionOf(l, Shadow(TsanShadow, a)));
    assert MinMax(l, RegionOf(l, Shadow(k, a)));
    hide Apply;
    hide Mapped;
    StaysInBlock(l, r);
    match k
    case MsanShadow => MsanShadowInside(l, r, m);
    case MsanOrigin => MsanOriginInside(l, r, m);
    case TsanShadow => TsanShadowInside(l, r, m);
    case TsanMeta => TsanMetaInside(l, r, m);
  }

  /** Second part: so no byte of the cell lies in application memory, in ASan's shadow or in any
      other listed region. */
  lemma CellMeetsNothingElse(l: Layout, k: Kind, a: AppName, m: nat, x: nat, id: RegionId)
    requires Constraints(l) && MaskFits(l) && ShortRegions(l) && Words(l) && In(Apps(l, a), m)
    requires Mapped(l, k, m) <= x < Mapped(l, k, m) + CellSize(k) && id != Shadow(k, a)
    ensures In(RegionOf(l, Shadow(k, a)), x) && !In(RegionOf(l, id), x)
  {
    CellInside(l, k, a, m);
    assert MinMax(l, RegionOf(l, Shadow(k, a)));
    if id != App(LoApp) {
      assert Disjoint(RegionOf(l, Shadow(k, a)), RegionOf(l, id));
    }
  }

  /** Third part: cells of different bytes (of eight-byte granules for TSan) do not overlap, not even
      across regions, although the mappings drop the address bits that tell regions apart. */
  lemma CellsAreDistinct(l: Layout, k: Kind, a1: AppName, m1: nat, a2: AppName, m2: nat, x: nat)
    requires Constraints(l) && MaskFits(l) && ShortRegions(l) && Words(l)
    requires In(Apps(l, a1), m1) && In(Apps(l, a2), m2)
    requires Mapped(l, k, m1) <= x < Mapped(l, k, m1) + CellSize(k)
    requires Mapped(l, k, m2) <= x < Mapped(l, k, m2) + CellSize(k)
    ensures a1 == a2
    ensures if k.MsanShadow? || k.MsanOrigin? then m1 == m2 else m1 / 8 == m2 / 8
  {
    hide Apply;
    hide Mapped;
    if a1 != a2 {
      CellMeetsNothingElse(l, k, a1, m1, x, Shadow(k, a2));
      CellMeetsNothingElse(l, k, a2, m2, x, Shadow(k, a1));
    } else {
      RegionInBlock(l, a1);
      SameBlock(Apps(l, a1), m1);
      SameBlock(Apps(l, a1), m2);
      DistinctInBlock(l, k, m1, m2, x);
    }
  }

  lemma RegionInBlock(l: Layout, a: AppName)
    requires Constraints(l) && MaskFits(l) && ShortRegions(l) && Words(l)
    ensures SanitizerSpecific(l) && OneBlock(Apps(l, a)) && l.hi.beg < l.hi.end && Apps(l, a).end <= l.hi.end
  {
    assert MinMax(l, RegionOf(l, Shadow(TsanShadow, a)));
    hide Apply;
    hide Mapped;
    StaysInBlock(l, Apps(l, a));
  }

  lemma DistinctInBlock(l: Layout, k: Kind, m1: nat, m2: nat, x: nat)
    requires SanitizerSpecific(l) && MaskFits(l) && Words(l) && l.hi.beg < l.hi.end
    requires m1 < l.hi.end && m2 < l.hi.end && m1 / BLOCK == m2 / BLOCK
    requires Mapped(l, k, m1) <= x < Mapped(l, k, m1) + CellSize(k)
    requires Mapped(l, k, m2) <= x < Mapped(l, k, m2) + CellSize(k)
    ensures if k.MsanShadow? || k.MsanOrigin? then m1 == m2 else m1 / 8 == m2 / 8
  {
    hide Apply;
    hide Mapped;
    if k.MsanShadow? || k.MsanOrigin? {
      MsanDistinct(l, k, m1, m2);
    } else {
      TsanDistinct(l, k, m1, m2, x);
    }
  }

  lemma MsanDistinct(l: Layout, k: Kind, m1: nat, m2: nat)
    requires SanitizerSpecific(l) && Words(l) && m1 < l.hi.end && m2 < l.hi.end && l.hi.beg < l.hi.end
    requires (k.MsanShadow? || k.MsanOrigin?) && m1 / BLOCK == m2 / BLOCK && Mapped(l, k, m1) == Mapped(l, k, m2)
    ensures m1 == m2
  {
    XorTranslates(m1, m2, l.msanXor);
    XorIsWord(l, m1);
    XorIsWord(l, m2);
    if k.MsanOrigin? {
      WrapInjective(Apply(Xor, m1, l.msanXor), Apply(Xor, m2, l.msanXor), l.msanAdd);
    }
  }

  lemma WrapInjective(u: nat, v: nat, add: nat)
    requires u < WORD && v < WORD && add < WORD && Wrap(u + add) == Wrap(v + add)
    ensures u == v
  {
    if u + add >= WORD {
      WrapOnce(u + add);
    }
    if v + add >= WORD {
      WrapOnce(v + add);
    }
  }

  lemma TsanDistinct(l: Layout, k: Kind, m1: nat, m2: nat, x: nat)
    requires MaskFits(l) && SanitizerSpecific(l) && m1 < l.hi.end && m2 < l.hi.end && l.hi.beg < l.hi.end
    requires (k.TsanShadow? || k.TsanMeta?) && m1 / BLOCK == m2 / BLOCK
    requires Mapped(l, k, m1) <= x < Mapped(l, k, m1) + CellSize(k)
    requires Mapped(l, k, m2) <= x < Mapped(l, k, m2) + CellSize(k)
    ensures m1 / 8 == m2 / 8
  {
    ClosedShadow(l, m1);
    ClosedShadow(l, m2);
    ClosedMeta(l, m1);
    ClosedMeta(l, m2);
    SameGranule(m1, m2);
  }

  lemma SameGranule(m1: nat, m2: nat)
    requires m1 / BLOCK == m2 / BLOCK
    requires GranuleInBlock(m1) < GranuleInBlock(m2) + 8 && GranuleInBlock(m2) < GranuleInBlock(m1) + 8
    ensures m1 / 8 == m2 / 8
  {
    EightsApart(GranuleInBlock(m1), GranuleInBlock(m2));
    Remainder(m1, BLOCK);
    Remainder(m2, BLOCK);
  }

  lemma EightsApart(g: nat, h: nat)
    requires g % 8 == 0 && h % 8 == 0 && g < h + 8 && h < g + 8
    ensures g == h
  {
  }

  // ----- ASan -----

  /** ASan's shadow of an address lies in its two listed regions exactly for the addresses before the
      shadow and those behind it, taken by granules. */
  lemma AsanCellInside(l: Layout, m: nat)
    requires l.hi.end < WORD / 2 && l.asanOffset < WORD / 4 && m < l.hi.end
    ensures In(RegionOf(l, AsanShadowLo), AsanShadow(l, m)) || In(RegionOf(l, AsanShadowRest), AsanShadow(l, m))
            <==> m / 8 < l.asanOffset / 8 || RegionOf(l, AsanShadowRest).end / 8 <= m / 8 < l.hi.end / 8
  {
    assert m / 8 <= l.hi.end / 8 < WORD / 4;
  }
}
