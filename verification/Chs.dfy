// Disk geometry: get_translation and setup_translation of src/block.c, and the use of the
// logical geometry in basic_access of src/disk.c.

module Chs {
  import opened Arith

  type u8 = x: int | 0 <= x < 0x100
  type u16 = x: int | 0 <= x < 0x1_0000

  datatype Geometry = Geometry(head: u16, cylinder: u16, sector: u16)

  datatype Translation = None | Lba | Large | Rechs | Host

  function Volume(c: int, h: int, s: int): int { c * h * s }

  // ---- setup_translation ----

  predicate HostSupplied(g: Geometry) { g.head <= 255 && 0 < g.sector <= 63 }

  /** The geometry of the LBA-assisted translation: the fewest heads out of five numbers for
      which about 1024 cylinders are enough. */
  predicate IsLbaAssisted(g: Geometry, sectors: nat) {
    var n := sectors / 63 / 1024;
    && g.sector == 63 && g.head in {16, 32, 64, 128, 255}
    && (g.head < 255 ==> n <= g.head)
    && (g.head > 16 ==> n > 16) && (g.head > 32 ==> n > 32) && (g.head > 64 ==> n > 64) && (g.head > 128 ==> n > 128)
    && g.cylinder == if sectors / 63 / g.head > 1024 then 1024 else sectors / 63 / g.head
  }

  predicate AtaRange(g: Geometry) { g.head <= 16 && g.sector <= 63 }

  /** The translation an emulator stores in two bits. */
  function Stored(bits: int): Translation {
    if bits == 0 then None else if bits == 1 then Lba else if bits == 2 then Large else Rechs
  }

  class Drive {
    const pchs: Geometry
    const sectors: nat
    /** the two bits that an emulator stores for an ATA drive, if it does */
    const nvram: int
    var lchs: Geometry
    var translation: Translation

    constructor (pchs: Geometry, sectors: nat, nvram: int, host: Geometry)
      ensures this.pchs == pchs && this.sectors == sectors && this.nvram == nvram && lchs == host
    {
      this.pchs, this.sectors, this.nvram, lchs, translation := pchs, sectors, nvram, host, None;
    }

    method GetTranslation() returns (t: Translation)
      requires sectors < 0x1_0000_0000_0000_0000 && (pchs.cylinder as int) * pchs.head < TWO31
      ensures t == Host <==> HostSupplied(lchs)
      ensures t != Host && nvram == 0 ==> t == None
      ensures t != Host && nvram == 1 ==> t == Lba
      ensures t != Host && nvram == 2 ==> t == Large
      ensures t != Host && nvram == 3 ==> t == Rechs
      ensures t != Host && !(0 <= nvram < 4) ==>
                var known := 0 < Volume(pchs.cylinder, pchs.head, pchs.sector) <= sectors;
                var small := pchs.cylinder <= 1024 && pchs.head <= 16 && pchs.sector <= 63;
                && (t == None <==> known && small)
                && (t == Large <==> known && !small && (pchs.cylinder as int) * pchs.head <= 131072)
                && t != Rechs
    {
      if HostSupplied(lchs) {
        return Host;
      }
      if 0 <= nvram < 4 {
        return Stored(nvram);
      }
      var heads, cylinders, spt := pchs.head, pchs.cylinder, pchs.sector;
      var psectors := (heads as int) * cylinders * spt % 0x1_0000_0000_0000_0000;
      if heads == 0 || cylinders == 0 || spt == 0 || psectors > sectors {
        return Lba;
      }
      PsectorsFit(cylinders, heads, spt);
      if cylinders <= 1024 && heads <= 16 && spt <= 63 {
        return None;
      }
      if (cylinders as int) * heads <= 131072 {
        return Large;
      }
      return Lba;
    }

    /** For a drive in the range of ATA geometries no translation but the host's own makes the
        logical disk larger than the drive, unless an emulator stored one that relies on a
        physical geometry beyond the drive's sectors. */
    method SetupTranslation()
      requires sectors < 0x1_0000_0000_0000_0000 && (pchs.cylinder as int) * pchs.head < TWO31
      modifies this
      ensures translation == Host <==> HostSupplied(old(lchs))
      ensures lchs.cylinder <= 1024
      ensures translation != Host && AtaRange(pchs)
              && (0 <= nvram < 4 && nvram != 1 ==> Volume(pchs.cylinder, pchs.head, pchs.sector) <= sectors) ==>
                lchs.head <= 255 && lchs.sector <= 63 && Volume(lchs.cylinder, lchs.head, lchs.sector) <= sectors
      ensures translation == None ==> lchs == pchs.(cylinder := if pchs.cylinder > 1024 then 1024 else pchs.cylinder)
      ensures translation == Lba ==> IsLbaAssisted(lchs, sectors)
      ensures translation == Large || translation == Rechs ==> lchs.sector == pchs.sector
      ensures pchs.head < 0x8000 && (translation == Large || (translation == Rechs && pchs.head != 16)) ==>
                ShiftedTo(pchs.cylinder, pchs.head, lchs.cylinder, lchs.head)
      ensures translation == Rechs && pchs.head == 16 ==>
                ShiftedTo((if pchs.cylinder > 61439 then 61439 else pchs.cylinder as int) * 16 / 15, 15, lchs.cylinder, lchs.head)
      ensures translation == Host ==>
                lchs == old(lchs).(cylinder := if old(lchs).cylinder > 1024 then 1024 else old(lchs).cylinder)
    {
      hide IsLbaAssisted, ShiftedTo, Shifted;
      translation := GetTranslation();
      var heads: u16, cylinders: u16, spt: u16 := pchs.head, pchs.cylinder, pchs.sector;
      ghost var from: (int, int) := (cylinders, heads);
      match translation {
        case None =>
        case Lba =>
          cylinders, heads, spt := LbaGeometry(sectors);
        case Rechs =>
          if heads == 16 {
            ghost var c0: int := cylinders;
            if cylinders > 61439 { cylinders := 61439; }
            heads := 15;
            ghost var c1: int := cylinders;
            cylinders := cylinders * 16 / 15;
            Fifteen(c0, c1, cylinders, spt);
            from := (cylinders, heads);
          }
          cylinders, heads := Shift(cylinders, heads, spt);
        case Large =>
          cylinders, heads := Shift(cylinders, heads, spt);
        case Host =>
          cylinders, heads, spt := lchs.cylinder, lchs.head, lchs.sector;
      }
      var clipped := if cylinders > 1024 then 1024 else cylinders;
      if translation == Large || translation == Rechs {
        if from.1 < 0x8000 { ClippedShift(from.0, from.1, cylinders, heads, clipped); }
      }
      Clip(clipped, cylinders, heads, spt);
      lchs := Geometry(heads, clipped, spt);
    }
  }

  /** The LBA-assisted geometry, before the cut to 1024 cylinders. */
  method LbaGeometry(sectors: nat) returns (cylinders: u16, heads: u16, spt: u16)
    ensures heads <= 255 && spt == 63 && Volume(cylinders, heads, spt) <= sectors
    ensures IsLbaAssisted(Geometry(heads, if cylinders > 1024 then 1024 else cylinders, spt), sectors)
  {
    hide Volume, IsLbaAssisted;
    spt := 63;
    if sectors > 63 * 255 * 1024 {
      heads, cylinders := 255, 1024;
      LbaLargest(sectors);
    } else {
      var sect := sectors % TWO32 / 63;
      var h := sect / 1024;
      heads := if h > 128 then 255 else if h > 64 then 128 else if h > 32 then 64 else if h > 16 then 32 else 16;
      LbaCylinders(sect, heads, sectors);
      LbaAssisted(sect, heads, sectors);
      cylinders := sect / heads;
    }
  }

  lemma PsectorsFit(c: u16, h: u16, s: u16)
    ensures (h as int) * c * s % 0x1_0000_0000_0000_0000 == (h as int) * c * s == Volume(c, h, s)
    ensures c > 0 && h > 0 && s > 0 ==> Volume(c, h, s) > 0
  {
    var m := 0xFFFF;
    MulLe(h, c, m, m);
    assert (h as int) * c == (c as int) * h;
    MulLe((h as int) * c, s, m * m, m);
    if c > 0 && h > 0 && s > 0 {
      MulLe(1, 1, c, h);
      MulLe(1, 1, (c as int) * h, s);
    }
  }

  /** Fewer cylinders, smaller disk. */
  lemma Clip(c: int, c': int, h: int, s: int)
    requires 0 <= c <= c' && 0 <= h && 0 <= s
    ensures 0 <= Volume(c, h, s) <= Volume(c', h, s)
  {
    MulLe(c, h, c', h);
    MulLe(c * h, s, c' * h, s);
  }

  lemma LbaCylinders(sect: nat, heads: int, sectors: nat)
    requires sect == sectors / 63 && sectors <= 63 * 255 * 1024
    requires heads == (if sect / 1024 > 128 then 255 else if sect / 1024 > 64 then 128
                       else if sect / 1024 > 32 then 64 else if sect / 1024 > 16 then 32 else 16)
    ensures sect / heads < 0x1_0000 && Volume(sect / heads, heads, 63) <= sectors
  {
    assert sect / heads * heads <= sect;
  }

  lemma LbaLargest(sectors: nat)
    requires sectors > 63 * 255 * 1024
    ensures Volume(1024, 255, 63) <= sectors && IsLbaAssisted(Geometry(255, 1024, 63), sectors)
  {
    assert sectors / 63 >= 255 * 1024 && sectors / 63 / 255 >= 1024 && sectors / 63 / 1024 >= 255;
  }

  lemma LbaAssisted(sect: nat, heads: int, sectors: nat)
    requires sect == sectors / 63 && heads > 0 && sect / heads < 0x1_0000
    requires heads == (if sect / 1024 > 128 then 255 else if sect / 1024 > 64 then 128
                       else if sect / 1024 > 32 then 64 else if sect / 1024 > 16 then 32 else 16)
    ensures IsLbaAssisted(Geometry(heads, if sect / heads > 1024 then 1024 else sect / heads, 63), sectors)
  {}

  lemma Fifteen(c0: int, c1: int, c: int, s: int)
    requires 0 <= c1 <= c0 && c == c1 * 16 / 15 && 0 <= s
    ensures Volume(c, 15, s) <= Volume(c0, 16, s)
  {
    MulLe(c * 15, s, c0 * 16, s);
  }

  /** After k halvings, no more than needed. */
  ghost predicate Shifted(c0: int, h0: int, c: int, h: int, k: nat) {
    && c == c0 / Pow2(k) && h == h0 * Pow2(k) && (c <= 1024 || h > 127)
    && (k > 0 ==> c0 / Pow2(k - 1) > 1024 && h0 * Pow2(k - 1) <= 127)
  }

  /** The geometry that the loop leaves, cut to 1024 cylinders; with more than 127 heads it
      halves the cylinders at most once. */
  ghost predicate ShiftedTo(c0: int, h0: int, c: int, h: int) {
    if h0 <= 127 then exists k: nat, c1: int :: Shifted(c0, h0, c1, h, k) && c == if c1 > 1024 then 1024 else c1
    else if c0 <= 1024 then c == c0 && h == h0
    else c == (if c0 / 2 > 1024 then 1024 else c0 / 2) && h == h0 * 2
  }

  lemma ClippedShift(c0: int, h0: int, c: int, h: int, clipped: int)
    requires h0 <= 127 ==> exists k: nat :: Shifted(c0, h0, c, h, k)
    requires h0 > 127 ==> c == (if c0 <= 1024 then c0 else c0 / 2) && h == (if c0 <= 1024 then h0 else h0 * 2)
    requires clipped == if c > 1024 then 1024 else c
    ensures ShiftedTo(c0, h0, clipped, h)
  {
    hide Shifted;
  }

  lemma HalveAgain(c0: int, h0: int, k: nat)
    requires 0 <= c0
    ensures c0 / Pow2(k) / 2 == c0 / Pow2(k + 1) && h0 * Pow2(k) * 2 == h0 * Pow2(k + 1)
  {
    var p := Pow2(k);
    assert Pow2(k + 1) == 2 * p;
    hide Pow2;
    HalfQuotient(c0, p);
    DoubleProduct(h0, p);
  }

  lemma HalfQuotient(x: int, p: int)
    requires 0 < p
    ensures x / p / 2 == x / (2 * p)
  {
    var a, r := x / p, x % p;
    var b, t := a / 2, a % 2;
    assert x == a * p + r && a == b * 2 + t;
    Regrouped(a, b, t, p);
    assert 0 <= t * p <= p;
    DivMod(x, b, 2 * p, t * p + r);
  }

  lemma Regrouped(a: int, b: int, t: int, p: int)
    requires a == b * 2 + t
    ensures a * p == b * (2 * p) + t * p
  {}

  lemma DoubleProduct(h: int, p: int)
    ensures h * p * 2 == h * (2 * p)
  {}

  /** The state of the loop of the large translation after k halvings. */
  ghost predicate Halved(c0: int, h0: int, c: int, h: int, spt: int, k: nat) {
    && h <= 127 && Volume(c, h, spt) <= Volume(c0, h0, spt) && c == c0 / Pow2(k) && h == h0 * Pow2(k)
    && (k > 0 ==> c0 / Pow2(k - 1) > 1024 && h0 * Pow2(k - 1) <= 127)
  }

  lemma HalvedNone(c0: int, h0: int, spt: int)
    requires h0 <= 127
    ensures Halved(c0, h0, c0, h0, spt, 0)
  {}

  lemma HalvedOnce(c0: int, h0: int, c: int, h: int, spt: int, k: nat)
    requires 0 <= c0 && 0 <= h && 0 <= spt && c > 1024 && Halved(c0, h0, c, h, spt, k)
    ensures Volume(c / 2, h * 2, spt) <= Volume(c0, h0, spt)
    ensures if h * 2 <= 127 then Halved(c0, h0, c / 2, h * 2, spt, k + 1) else Shifted(c0, h0, c / 2, h * 2, k + 1)
  {
    Halve(c, h, spt);
    HalveAgain(c0, h0, k);
    hide Pow2, Volume;
  }

  lemma HalvedEnough(c0: int, h0: int, c: int, h: int, spt: int, k: nat)
    requires Halved(c0, h0, c, h, spt, k) && c <= 1024
    ensures Shifted(c0, h0, c, h, k) && h <= 127 && Volume(c, h, spt) <= Volume(c0, h0, spt)
  {
    hide Pow2, Volume;
  }

  /** The loop of the large translation. */
  method Shift(cylinders0: u16, heads0: u16, spt: u16) returns (cylinders: u16, heads: u16)
    ensures heads0 <= 127 ==> heads <= 255 && Volume(cylinders, heads, spt) <= Volume(cylinders0, heads0, spt)
    ensures heads0 <= 127 ==> exists k: nat :: Shifted(cylinders0, heads0, cylinders, heads, k)
    ensures 127 < heads0 < 0x8000 ==>
              cylinders == (if cylinders0 <= 1024 then cylinders0 else cylinders0 / 2)
              && heads as int == if cylinders0 <= 1024 then heads0 as int else heads0 * 2
  {
    hide Pow2, Volume, Shifted, Halved;
    cylinders, heads := cylinders0, heads0;
    ghost var k: nat := 0;
    if heads0 <= 127 { HalvedNone(cylinders0, heads0, spt); }
    while cylinders > 1024
      invariant 127 < heads0 < 0x8000 ==> cylinders == cylinders0 && heads == heads0
      invariant heads0 <= 127 ==> heads <= 127 && Halved(cylinders0, heads0, cylinders, heads, spt, k)
    {
      if heads0 <= 127 { HalvedOnce(cylinders0, heads0, cylinders, heads, spt, k); }
      k := k + 1;
      cylinders := cylinders / 2;
      heads := (heads as int) * 2 % 0x1_0000;
      if heads > 127 {
        return;
      }
    }
    if heads0 <= 127 { HalvedEnough(cylinders0, heads0, cylinders, heads, spt, k); }
  }

  lemma Halve(c: int, h: int, s: int)
    requires 0 <= c && 0 <= h && 0 <= s
    ensures Volume(c / 2, h * 2, s) <= Volume(c, h, s)
  {
    assert (c / 2) * (h * 2) == (c / 2 * 2) * h;
    MulLe(c / 2 * 2, h, c, h);
    MulLe((c / 2) * (h * 2), s, c * h, s);
  }

  // ---- basic_access ----

  datatype Request = Request(al: u8, ch: u8, cl: u8, dh: u8)

  function Cylinder(r: Request): int { r.ch + r.cl / 0x40 * 0x100 }

  function Sector(r: Request): int { r.cl % 0x40 }

  datatype Access = Invalid | Access(lba: int, count: int)

  /** The request names a block of the logical disk and a possible number of blocks. */
  predicate OnDisk(g: Geometry, r: Request) {
    0 < r.al <= 128 && 0 < Sector(r) <= g.sector && Cylinder(r) < g.cylinder && r.dh < g.head
  }

  /** Blocks before (c, h, s) in the order sector, head, cylinder; sectors count from one. */
  function BlockNumber(g: Geometry, c: int, h: int, s: int): int { (c * g.head + h) * g.sector + (s - 1) }

  /** The bits of the registers. */
  lemma RegisterBits(r: Request)
    ensures (r.ch as int) + (r.cl as int) * 4 / 0x100 % 4 * 0x100 == Cylinder(r) && 0 <= Cylinder(r) < 1024 && 0 <= Sector(r) < 64
  {}

  /** What the registers can address. */
  predicate Addressable(g: Geometry) { g.cylinder <= 1024 && g.head <= 256 && g.sector <= 63 }

  method BasicAccess(g: Geometry, r: Request) returns (a: Access)
    ensures a.Access? <==> OnDisk(g, r)
    ensures a.Access? && Addressable(g) ==>
              a == Access(BlockNumber(g, Cylinder(r), r.dh, Sector(r)), r.al) && 0 <= a.lba < Volume(g.cylinder, g.head, g.sector)
    ensures var c, h, s: int := r.ch as int + r.cl as int / 64 * 256, r.dh, r.cl % 64;
            && (a.Access? <==> 1 <= r.al <= 128 && c < g.cylinder && h < g.head && 1 <= s <= g.sector)
            && (a.Access? && Addressable(g) ==> a.count == r.al && a.lba == (c * g.head + h) * g.sector + s - 1)
  {
    RegistersAre(g, r);
    hide Cylinder, Sector, Volume, BlockNumber, Addressable, OnDisk;
    OnDiskMeans(g, r);
    var count := r.al;
    var cylinder := (r.ch as int) + (r.cl as int) * 4 / 0x100 % 4 * 0x100;
    var sector := SectorBits(r);
    var head: int := r.dh;
    RegisterBits(r);
    if count > 128 || count == 0 || sector == 0 {
      return Invalid;
    }
    var nlc, nlh, nls := g.cylinder, g.head, g.sector;
    if cylinder >= nlc || head >= nlh || sector > nls {
      return Invalid;
    }
    if Addressable(g) { LbaIs(g, cylinder, head, sector); }
    var track := (cylinder * nlh % TWO32 + head) % TWO32;
    a := Access((track * nls % TWO32 + sector - 1) % TWO32, count);
  }

  lemma RegistersAre(g: Geometry, r: Request)
    ensures Cylinder(r) == r.ch as int + r.cl as int / 64 * 256 && Sector(r) == r.cl % 64
    ensures forall c, h, s :: BlockNumber(g, c, h, s) == (c * g.head + h) * g.sector + s - 1
  {}

  lemma OnDiskMeans(g: Geometry, r: Request)
    ensures OnDisk(g, r) <==> 1 <= r.al <= 128 && Cylinder(r) < g.cylinder && r.dh < g.head && 1 <= Sector(r) <= g.sector
  {}

  method SectorBits(r: Request) returns (s: int)
    ensures s == Sector(r)
  {
    s := r.cl % 0x40;
  }

  /** No step of the 32-bit computation wraps. */
  lemma NoWrap(p: int, h: int, q: int, s: int)
    requires 0 <= p && 0 <= h && p + h < TWO32 && 0 <= q && 0 < s && q + s <= TWO32
    ensures (p % TWO32 + h) % TWO32 == p + h && (q % TWO32 + s - 1) % TWO32 == q + s - 1
  {}

  lemma BlockInRange(g: Geometry, c: int, h: int, s: int)
    requires 0 <= c < g.cylinder && 0 <= h < g.head && 0 < s <= g.sector
    requires Addressable(g)
    ensures 0 <= BlockNumber(g, c, h, s) < Volume(g.cylinder, g.head, g.sector) < TWO32
    ensures 0 <= c * g.head && c * g.head + h < TWO32
    ensures 0 <= (c * g.head + h) * g.sector && (c * g.head + h) * g.sector + s <= TWO32
  {
    var C: int, H: int, S: int := g.cylinder, g.head, g.sector;
    var t := c * H + h;
    MulLe(c, H, C - 1, H);
    assert (C - 1) * H == C * H - H;
    MulLe(t, S, C * H - 1, S);
    assert (C * H - 1) * S == C * H * S - S;
    MulLe(C, H, 1024, 256);
    MulLe(C * H, S, 1024 * 256, 63);
  }

  lemma WrapFree(c: int, H: int, h: int, S: int, s: int)
    requires 0 <= c * H && 0 <= h && c * H + h < TWO32
    requires 0 <= (c * H + h) * S && 0 < s && (c * H + h) * S + s <= TWO32
    ensures ((c * H % TWO32 + h) % TWO32 * S % TWO32 + s - 1) % TWO32 == (c * H + h) * S + (s - 1)
  {
    var p := c * H;
    var q := (p + h) * S;
    NoWrap(p, h, q, s);
    assert (p % TWO32 + h) % TWO32 * S == q;
  }

  lemma BlockNumberIs(g: Geometry, c: int, h: int, s: int, H: int, S: int)
    requires H == g.head && S == g.sector
    ensures BlockNumber(g, c, h, s) == (c * H + h) * S + (s - 1)
  {}

  lemma LbaIs(g: Geometry, c: int, h: int, s: int)
    requires 0 <= c < g.cylinder && 0 <= h < g.head && 0 < s <= g.sector && Addressable(g)
    ensures ((c * g.head % TWO32 + h) % TWO32 * g.sector % TWO32 + s - 1) % TWO32 == BlockNumber(g, c, h, s)
    ensures 0 <= BlockNumber(g, c, h, s) < Volume(g.cylinder, g.head, g.sector)
  {
    hide Volume, Addressable, BlockNumber;
    var H: int, S: int := g.head, g.sector;
    BlockInRange(g, c, h, s);
    WrapFree(c, H, h, S, s);
    BlockNumberIs(g, c, h, s, H, S);
  }

  /** Different triples, different blocks. */
  lemma {:induction false} OneToOne(g: Geometry, c: int, h: int, s: int, c': int, h': int, s': int)
    requires 0 <= c < g.cylinder && 0 <= h < g.head && 0 < s <= g.sector
    requires 0 <= c' < g.cylinder && 0 <= h' < g.head && 0 < s' <= g.sector
    requires BlockNumber(g, c, h, s) == BlockNumber(g, c', h', s')
    ensures c == c' && h == h' && s == s'
  {
    DivMod(BlockNumber(g, c, h, s), c * g.head + h, g.sector, s - 1);
    DivMod(BlockNumber(g, c', h', s'), c' * g.head + h', g.sector, s' - 1);
    DivMod(c * g.head + h, c, g.head, h);
    DivMod(c' * g.head + h', c', g.head, h');
  }

  /** Every block of the logical disk can be named by a request. */
  lemma {:induction false} Onto(g: Geometry, lba: int) returns (r: Request)
    requires Addressable(g)
    requires 0 <= lba < Volume(g.cylinder, g.head, g.sector)
    ensures OnDisk(g, r) && BlockNumber(g, Cylinder(r), r.dh, Sector(r)) == lba
  {
    ZeroVolume(g);
    var t, s := lba / g.sector, lba % g.sector + 1;
    QuotientBound(lba, g.cylinder * g.head, g.sector);
    QuotientBound(t, g.cylinder, g.head);
    var c, h := t / g.head, t % g.head;
    assert t == c * g.head + h && lba == t * g.sector + (s - 1);
    r := Registers(c, h, s);
  }

  lemma Registers(c: int, h: int, s: int) returns (r: Request)
    requires 0 <= c < 1024 && 0 <= h < 256 && 0 < s <= 63
    ensures r.al == 1 && Cylinder(r) == c && Sector(r) == s && r.dh == h
  {
    var ch: int, cl: int := c % 0x100, c / 0x100 * 0x40 + s;
    r := Request(1, ch, cl, h);
  }

  lemma ZeroVolume(g: Geometry)
    requires 0 < Volume(g.cylinder, g.head, g.sector)
    ensures 0 < g.cylinder && 0 < g.head && 0 < g.sector
  {}
}
