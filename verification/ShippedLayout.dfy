/** The two layouts shipped, for x86-64 and AArch64 with 48-bit addresses, solve the constraints. */
module ShippedLayout {
  import opened Arith
  import opened BitOps
  import opened ShadowLayout

  const TB := 0x0100_0000_0000

  datatype Platform = X64 | Aarch64

  function Terabytes(beg: nat, end: nat): Region {
    Region(beg * TB, end * TB)
  }

  function Shipped(p: Platform): Layout {
    match p
    case X64 =>
      Layout(Terabytes(0x00, 0x01), Terabytes(0x55, 0x5a), Terabytes(0x7a, 0x80), Terabytes(0x62, 0x64),
             0x7fff_8000, 0x40 * TB, 0x2f * TB, 0x7000_0000_0000, 0, 0x1a * TB, 0x70 * TB)
    case Aarch64 =>
      Layout(Terabytes(0x00, 0x01), Region(0xaaaa_0000_0000, 0xac * TB), Terabytes(0xfc, 0x100), Terabytes(0xd8, 0xda),
             0x10_0000_0000, 0x90 * TB, 0x2c * TB, 0xf000_0000_0000, 0, 0xaf * TB, 0xd0 * TB)
  }

  /** The regions the headers list. */
  function Listed(p: Platform, id: RegionId): Region {
    match id
    case App(a) => Apps(Shipped(p), a)
    case AsanShadowLo => if p.X64? then Region(0x7fff_8000, 0x8fff_7000) else Region(0x10_0000_0000, 0x12_0000_0000)
    case AsanShadowRest =>
      if p.X64? then Region(0x0200_8fff_7000, 0x1000_7fff_8000) else Region(0x0412_0000_0000, 0x2010_0000_0000)
    case Shadow(k, a) => if p.X64? then ListedX64(k, a) else ListedAarch64(k, a)
  }

  function ListedX64(k: Kind, a: AppName): Region {
    match (k, a)
    case (MsanShadow, LoApp) => Terabytes(0x40, 0x41)
    case (MsanShadow, MidApp) => Terabytes(0x15, 0x1a)
    case (MsanShadow, HiApp) => Terabytes(0x3a, 0x40)
    case (MsanShadow, Heap) => Terabytes(0x22, 0x24)
    case (MsanOrigin, LoApp) => Terabytes(0x6f, 0x70)
    case (MsanOrigin, MidApp) => Terabytes(0x44, 0x49)
    case (MsanOrigin, HiApp) => Terabytes(0x69, 0x6f)
    case (MsanOrigin, Heap) => Terabytes(0x51, 0x53)
    case (TsanShadow, LoApp) => Terabytes(0x1a, 0x1c)
    case (TsanShadow, MidApp) => Terabytes(0x24, 0x2e)
    case (TsanShadow, HiApp) => Terabytes(0x2e, 0x3a)
    case (TsanShadow, Heap) => Terabytes(0x1e, 0x22)
    case (TsanMeta, LoApp) => Region(0x70 * TB, 0x7080_0000_0000)
    case (TsanMeta, MidApp) => Region(0x7280_0000_0000, 0x75 * TB)
    case (TsanMeta, HiApp) => Terabytes(0x75, 0x78)
    case (TsanMeta, Heap) => Terabytes(0x71, 0x72)
  }

  function ListedAarch64(k: Kind, a: AppName): Region {
    match (k, a)
    case (MsanShadow, LoApp) => Terabytes(0x90, 0x91)
    case (MsanShadow, MidApp) => Region(0x3aaa_0000_0000, 0x3c * TB)
    case (MsanShadow, HiApp) => Terabytes(0x6c, 0x70)
    case (MsanShadow, Heap) => Terabytes(0x48, 0x4a)
    case (MsanOrigin, LoApp) => Terabytes(0xbc, 0xbd)
    case (MsanOrigin, MidApp) => Region(0x66aa_0000_0000, 0x68 * TB)
    case (MsanOrigin, HiApp) => Terabytes(0x98, 0x9c)
    case (MsanOrigin, Heap) => Terabytes(0x74, 0x76)
    case (TsanShadow, LoApp) => Terabytes(0xaf, 0xb1)
    case (TsanShadow, MidApp) => Region(0xc454_0000_0000, 0xc7 * TB)
    case (TsanShadow, HiApp) => Terabytes(0xc7, 0xcf)
    case (TsanShadow, Heap) => Terabytes(0xbf, 0xc3)
    case (TsanMeta, LoApp) => Region(0xd0 * TB, 0xd080_0000_0000)
    case (TsanMeta, MidApp) => Region(0xd555_0000_0000, 0xd6 * TB)
    case (TsanMeta, HiApp) => Terabytes(0xd6, 0xd8)
    case (TsanMeta, Heap) => Terabytes(0xd4, 0xd5)
  }

  // ----- regions inside one block, in closed form -----

  /** Region [from, to) of block `h`. */
  predicate At(r: Region, h: nat, from: nat, to: nat) {
    from < to <= BLOCK && from % 8 == 0 && to % 8 == 0 && r == Region(h * BLOCK + from, h * BLOCK + to)
  }

  lemma GranuleAt(h: nat, q: nat, k: nat)
    requires 8 * q + k < BLOCK && k < 8
    ensures GranuleInBlock(h * BLOCK + (8 * q + k)) == 8 * q
  {
    var i := 8 * q + k;
    DivModUnique(h * BLOCK + i, BLOCK, h, i);
    DivModUnique(i, 8, q, k);
    ModNested(h * BLOCK + i, 8, BLOCK / 8);
  }

  lemma TsanShadowAt(l: Layout, r: Region, h: nat, from: nat, to: nat)
    requires SanitizerSpecific(l) && MaskFits(l) && l.hi.beg <= l.hi.end && r.end <= l.hi.end && At(r, h, from, to)
    ensures ShadowOf(l, TsanShadow, r) == Region(from * 2 + l.tsanAdd, to * 2 + l.tsanAdd)
  {
    hide Apply;
    hide Mapped;
    hide GranuleInBlock;
    GranuleAt(h, from / 8, 0);
    GranuleAt(h, to / 8 - 1, 7);
    assert r.end - 1 == h * BLOCK + (8 * (to / 8 - 1) + 7);
    ClosedShadow(l, r.beg);
    ClosedShadow(l, r.end - 1);
  }

  lemma TsanMetaAt(l: Layout, r: Region, h: nat, from: nat, to: nat)
    requires SanitizerSpecific(l) && MaskFits(l) && r.end <= l.hi.end && At(r, h, from, to) && l.metaBeg < WORD / 2
    ensures ShadowOf(l, TsanMeta, r) == Region(from / 2 + l.metaBeg, to / 2 + l.metaBeg)
  {
    hide Apply;
    hide Mapped;
    hide GranuleInBlock;
    GranuleAt(h, from / 8, 0);
    GranuleAt(h, to / 8 - 1, 7);
    assert r.end - 1 == h * BLOCK + (8 * (to / 8 - 1) + 7);
    ClosedMeta(l, r.beg);
    ClosedMeta(l, r.end - 1);
    hide MaskFits;
    hide SanitizerSpecific;
  }

  lemma XorAt(h: nat, i: nat, x: nat)
    requires i < BLOCK && x % BLOCK == 0
    ensures Apply(Xor, h * BLOCK + i, x) == Apply(Xor, h, x / BLOCK) * BLOCK + i
  {
    hide Apply;
    Constants();
    DivModUnique(h * BLOCK + i, BLOCK, h, i);
    LowHigh(h * BLOCK + i);
    LowHigh(x);
    Split(Xor, h * BLOCK + i, x, 44);
    Zero(Xor, i);
  }

  lemma MsanRegions(l: Layout, r: Region, h: nat, from: nat, to: nat, y: nat)
    requires SanitizerSpecific(l) && At(r, h, from, to) && y == Apply(Xor, h, l.msanXor / BLOCK)
    requires (y + 1) * BLOCK + l.msanAdd < WORD
    ensures ShadowOf(l, MsanShadow, r) == Region(y * BLOCK + from, y * BLOCK + to)
    ensures ShadowOf(l, MsanOrigin, r) == Region(y * BLOCK + from + l.msanAdd, y * BLOCK + to + l.msanAdd)
  {
    hide Apply;
    XorAt(h, from, l.msanXor);
    XorAt(h, to - 1, l.msanXor);
  }

  // ----- the shipped regions -----

  /** Block and extent of an application region. */
  function Place(p: Platform, a: AppName): (nat, nat, nat) {
    match a
    case LoApp => (0, 0, TB)
    case MidApp => if p.X64? then (5, 0x05 * TB, 0x0a * TB) else (10, 0x0aaa_0000_0000, 0x0c * TB)
    case HiApp => if p.X64? then (7, 0x0a * TB, 0x10 * TB) else (15, 0x0c * TB, 0x10 * TB)
    case Heap => if p.X64? then (6, 0x02 * TB, 0x04 * TB) else (13, 0x08 * TB, 0x0a * TB)
  }

  /** Its block in MSan's shadow. */
  function ShadowBlock(p: Platform, a: AppName): nat {
    match a
    case LoApp => if p.X64? then 4 else 9
    case MidApp => if p.X64? then 1 else 3
    case HiApp => if p.X64? then 3 else 6
    case Heap => if p.X64? then 2 else 4
  }

  lemma PlaceIsRight(p: Platform, a: AppName)
    ensures var (h, from, to) := Place(p, a);
            At(Apps(Shipped(p), a), h, from, to) && Apps(Shipped(p), a).end <= Shipped(p).hi.end
  {
  }

  lemma SmallXor()
    ensures Apply(Xor, 1, 1) == 0 && Apply(Xor, 3, 2) == 1 && Apply(Xor, 2, 2) == 0
    ensures Apply(Xor, 5, 4) == 1 && Apply(Xor, 6, 4) == 2 && Apply(Xor, 7, 4) == 3
  {
    Zero(Xor, 1);
  }

  lemma BlockIsRight(p: Platform, a: AppName)
    ensures Apply(Xor, Place(p, a).0, Shipped(p).msanXor / BLOCK) == ShadowBlock(p, a)
  {
    SmallXor();
    Zero(Xor, 4);
    Zero(Xor, 9);
    assert Apply(Xor, 10, 9) == 1 + 2 * Apply(Xor, 5, 4);
    assert Apply(Xor, 13, 9) == 2 * Apply(Xor, 6, 4);
    assert Apply(Xor, 15, 9) == 2 * Apply(Xor, 7, 4);
  }

  lemma ShippedIsUsable(p: Platform)
    ensures SanitizerSpecific(Shipped(p)) && MaskFits(Shipped(p)) && Words(Shipped(p)) && ShortRegions(Shipped(p))
    ensures Basic(Shipped(p)) && Shipped(p).metaBeg < WORD / 2
  {
  }

  lemma MsanIsListed(p: Platform, k: Kind, a: AppName)
    requires k.MsanShadow? || k.MsanOrigin?
    ensures ShadowOf(Shipped(p), k, Apps(Shipped(p), a)) == if p.X64? then ListedX64(k, a) else ListedAarch64(k, a)
  {
    hide Apply;
    hide ShadowOf;
    hide SanitizerSpecific;
    var (h, from, to) := Place(p, a);
    ShippedIsUsable(p);
    PlaceIsRight(p, a);
    BlockIsRight(p, a);
    MsanRegions(Shipped(p), Apps(Shipped(p), a), h, from, to, ShadowBlock(p, a));
  }

  lemma TsanIsListed(p: Platform, k: Kind, a: AppName)
    requires k.TsanShadow? || k.TsanMeta?
    ensures ShadowOf(Shipped(p), k, Apps(Shipped(p), a)) == if p.X64? then ListedX64(k, a) else ListedAarch64(k, a)
  {
    hide ShadowOf;
    hide SanitizerSpecific;
    hide MaskFits;
    var (h, from, to) := Place(p, a);
    ShippedIsUsable(p);
    PlaceIsRight(p, a);
    TsanShadowAt(Shipped(p), Apps(Shipped(p), a), h, from, to);
    TsanMetaAt(Shipped(p), Apps(Shipped(p), a), h, from, to);
  }

  lemma ListedIsComputed(p: Platform, id: RegionId)
    ensures RegionOf(Shipped(p), id) == Listed(p, id)
  {
    hide Apply;
    if id.Shadow? {
      hide ShadowOf;
      if id.kind.MsanShadow? || id.kind.MsanOrigin? {
        MsanIsListed(p, id.kind, id.of);
      } else {
        TsanIsListed(p, id.kind, id.of);
      }
    }
  }

  lemma ListedAreDisjoint(p: Platform, i: RegionId, j: RegionId)
    requires i != j && i != App(LoApp) && j != App(LoApp)
    ensures Disjoint(Listed(p, i), Listed(p, j))
  {
  }

  /** Main result: both shipped layouts meet every premise of the safety theorems. */
  lemma ShippedLayoutIsASolution(p: Platform)
    ensures var l := Shipped(p); Constraints(l) && MaskFits(l) && ShortRegions(l) && Words(l)
  {
    hide RegionOf;
    ShippedIsUsable(p);
    forall id {
      ListedIsComputed(p, id);
    }
    forall i, j | i != j && i != App(LoApp) && j != App(LoApp)
      ensures Disjoint(RegionOf(Shipped(p), i), RegionOf(Shipped(p), j))
    {
      ListedAreDisjoint(p, i, j);
    }
  }

  /** In both layouts ASan's shadow of every application byte it knows of lies in its listed regions. */
  lemma AsanShadowIsListed(p: Platform, a: AppName, m: nat)
    requires In(Apps(Shipped(p), a), m) && (a.LoApp? ==> m < Shipped(p).asanOffset)
    ensures var l := Shipped(p);
            In(Listed(p, AsanShadowLo), AsanShadow(l, m)) || In(Listed(p, AsanShadowRest), AsanShadow(l, m))
  {
    ListedIsComputed(p, AsanShadowLo);
    ListedIsComputed(p, AsanShadowRest);
    AsanCellInside(Shipped(p), m);
    AsanSide(p, a, m);
  }

  lemma AsanSide(p: Platform, a: AppName, m: nat)
    requires In(Apps(Shipped(p), a), m) && (a.LoApp? ==> m < Shipped(p).asanOffset)
    ensures m < Shipped(p).hi.end
    ensures m / 8 < Shipped(p).asanOffset / 8 || Listed(p, AsanShadowRest).end / 8 <= m / 8 < Shipped(p).hi.end / 8
  {
  }
}
