// How the allocator and the memory map work together: malloc_preinit and malloc_prepboot of
// src/malloc.c, and the PMM services of src/pmm.c in between.

module Boot {
  import opened Arith
  import opened Zones
  import opened Allocator
  import E820

  const BUILD_STACK_ADDR: nat := 0x7000
  const BUILD_EBDA_MINIMUM: nat := 0x90000
  const BUILD_LOWRAM_END: nat := 0xa0000
  const BUILD_BIOS_ADDR: nat := 0xf0000
  const BUILD_BIOS_SIZE: nat := 0x10000
  const BUILD_MAX_HIGHTABLE: nat := 0x40000
  const PAGE_SIZE: nat := 0x1000

  /** No address of [start, start+size) is reported as RAM. */
  ghost predicate NotRam(s: seq<E820.Entry>, start: int, size: int) {
    forall a :: start <= a < start + size ==> E820.TypeAt(s, a) != E820.RAM
  }

  /** Adding a range of a type other than RAM never makes RAM, even when the table is full. */
  lemma {:induction false} ReserveKeepsNotRam(before: seq<E820.Entry>, after: seq<E820.Entry>, ideal: seq<E820.Entry>,
                                              start: int, size: int, typ: E820.u32, lo: int, len: int)
    requires E820.IsOverwrite(ideal, before, start, size, typ) && E820.LosesOnly(after, ideal)
    requires NotRam(before, lo, len)
    requires typ != E820.RAM || start + size <= lo || lo + len <= start || size <= 0
    ensures NotRam(after, lo, len)
  {
    forall a | lo <= a < lo + len ensures E820.TypeAt(after, a) != E820.RAM {
      assert E820.TypeAt(ideal, a) == E820.Overwritten(before, start, size, typ, a);
      assert E820.TypeAt(after, a) == E820.TypeAt(ideal, a) || E820.TypeAt(after, a) == E820.HOLE;
    }
  }

  /** A range just given a type other than RAM is not RAM. */
  lemma {:induction false} ReservedIsNotRam(before: seq<E820.Entry>, after: seq<E820.Entry>, ideal: seq<E820.Entry>,
                                            start: int, size: int, typ: E820.u32)
    requires E820.IsOverwrite(ideal, before, start, size, typ) && E820.LosesOnly(after, ideal) && typ != E820.RAM
    ensures NotRam(after, start, size)
  {
    forall a | start <= a < start + size ensures E820.TypeAt(after, a) != E820.RAM {
      assert E820.TypeAt(ideal, a) == E820.Overwritten(before, start, size, typ, a);
      assert E820.TypeAt(after, a) == E820.TypeAt(ideal, a) || E820.TypeAt(after, a) == E820.HOLE;
    }
  }

  /** Every address of [lo, hi) is RAM. */
  ghost predicate AllRam(s: seq<E820.Entry>, lo: int, hi: int) {
    forall a :: lo <= a < hi ==> E820.TypeAt(s, a) == E820.RAM
  }

  ghost predicate NoNewRam(before: seq<E820.Entry>, after: seq<E820.Entry>) {
    forall a :: E820.TypeAt(after, a) == E820.RAM ==> E820.TypeAt(before, a) == E820.RAM
  }

  lemma {:induction false} ReserveMakesNoRam(before: seq<E820.Entry>, after: seq<E820.Entry>, ideal: seq<E820.Entry>,
                                             start: int, size: int, typ: E820.u32)
    requires E820.IsOverwrite(ideal, before, start, size, typ) && E820.LosesOnly(after, ideal) && typ != E820.RAM
    ensures NoNewRam(before, after)
  {
    forall a | E820.TypeAt(after, a) == E820.RAM ensures E820.TypeAt(before, a) == E820.RAM {
      assert E820.TypeAt(ideal, a) == E820.Overwritten(before, start, size, typ, a);
      assert E820.TypeAt(after, a) == E820.TypeAt(ideal, a) || E820.TypeAt(after, a) == E820.HOLE;
    }
  }

  lemma {:induction false} EntryIsRam(m: seq<E820.Entry>, i: nat)
    requires E820.Canonical(m) && i < |m| && m[i].typ == E820.RAM
    ensures AllRam(m, m[i].start, m[i].End())
  {
    forall a | m[i].start <= a < m[i].End() ensures E820.TypeAt(m, a) == E820.RAM { E820.TypeAtCovered(m, i, a); }
  }

  lemma SubRam(m: seq<E820.Entry>, lo: int, hi: int, lo': int, hi': int)
    requires AllRam(m, lo, hi) && lo <= lo' && hi' <= hi
    ensures AllRam(m, lo', hi')
  {}

  /** The regions of a zone were RAM in the map `m`. */
  ghost predicate WereRam(m: seq<E820.Entry>, rs: seq<Region>) {
    forall k :: 0 <= k < |rs| ==> AllRam(m, rs[k].lo, rs[k].hi)
  }

  lemma WereRamBefore(m0: seq<E820.Entry>, m: seq<E820.Entry>, rs: seq<Region>)
    requires NoNewRam(m0, m) && WereRam(m, rs)
    ensures WereRam(m0, rs)
  {
    forall k | 0 <= k < |rs| ensures AllRam(m0, rs[k].lo, rs[k].hi) { assert AllRam(m, rs[k].lo, rs[k].hi); }
  }

  lemma NoNewRamTwice(a: seq<E820.Entry>, b: seq<E820.Entry>, c: seq<E820.Entry>)
    requires NoNewRam(a, b) && NoNewRam(b, c)
    ensures NoNewRam(a, c)
  {}

  lemma NoNewRamSame(a: seq<E820.Entry>)
    ensures NoNewRam(a, a)
  {}

  lemma WereRamMore(m: seq<E820.Entry>, rs: seq<Region>, j: nat, r: Region)
    requires WereRam(m, rs) && j <= |rs| && AllRam(m, r.lo, r.hi)
    ensures WereRam(m, Insert(rs, j, r))
  {
    forall k | 0 <= k < |Insert(rs, j, r)| ensures AllRam(m, Insert(rs, j, r)[k].lo, Insert(rs, j, r)[k].hi) {
      assert Insert(rs, j, r)[k] == if k < j then rs[k] else if k == j then r else rs[k-1];
    }
  }

  /** 1 << __ffs(x): the lowest set bit of `x`. */
  function LowestBit(x: nat): (b: nat)
    requires 0 < x
    ensures IsPow2(b) && b <= x && x % b == 0 && x / b % 2 == 1
  {
    if x % 2 == 1 then 1
    else
      var h := LowestBit(x / 2);
      TwiceDivides(x / 2, h);
      2 * h
  }

  /** It is the largest power of two that divides `x`, and a multiple of all others. */
  lemma {:induction false} LowestBitLargest(x: nat, c: nat)
    requires 0 < x && IsPow2(c) && x % c == 0
    ensures c <= LowestBit(x) && LowestBit(x) % c == 0
  {
    if c == 1 {
      DivMod(LowestBit(x), LowestBit(x), 1, 0);
    } else {
      var q := x / c;
      assert x == 2 * (q * (c / 2));
      DivMod(x / 2, q, c / 2, 0);
      LowestBitLargest(x / 2, c / 2);
      TwiceDivides(LowestBit(x / 2), c / 2);
    }
  }

  lemma {:induction false} Pow2IsAlign(b: nat)
    requires IsPow2(b) && b <= TWO31
    ensures IsAlign(b)
  {
    Pow2IsPow2(31);
    Pow2Values();
    assert 2 * Pow2(31) == Pow2(32);
    SmallerDivides(TWO31, b);
  }

  lemma TookRecord(zones: seq<seq<Info>>, records: map<nat, Record>, zones': seq<seq<Info>>, records': map<nat, Record>,
                   zi: nat, data: nat, size: nat, align: nat, d: nat, tz: nat, handle: nat)
    requires Took(zones, records, zones', records', zi, data, size, align, d, tz, handle)
    ensures d in records' && records'[d].start == data && records'[d].size == size
  {}

  lemma TookWithHandle(zones: seq<seq<Info>>, records: map<nat, Record>, zones': seq<seq<Info>>, records': map<nat, Record>,
                       zi: nat, data: nat, size: nat, align: nat, d: nat, tz: nat, handle: nat)
    requires Took(zones, records, zones', records', zi, data, size, align, d, tz, DEFAULT_HANDLE)
    ensures d in records'
    ensures Took(zones, records, zones', records'[d := records'[d].(handle := handle)], zi, data, size, align, d, tz, handle)
  {
    assert records'[d := records'[d].(handle := handle)] == records[d := Record(zi, data, size, handle)];
  }

  // ---- What malloc_preinit finds in the memory map ----

  /** RAM that ends above 1 MiB and below 4 GiB. */
  predicate Usable(e: E820.Entry) { e.typ == E820.RAM && 0x100000 <= e.End() < TWO32 }

  /** The place for ZoneHigh at the top of a usable stretch. */
  function HighPlace(e: E820.Entry): int { AlignDown(e.End() - BUILD_MAX_HIGHTABLE, MALLOC_MIN_ALIGN) }

  /** ZoneHigh's place in the highest usable stretch from entry `i` on that is large enough; 0
      if there is none. */
  function HighFrom(m: seq<E820.Entry>, i: nat): int
    requires i <= |m|
    decreases |m| - i
  {
    if i == |m| then 0
    else if HighFrom(m, i + 1) != 0 then HighFrom(m, i + 1)
    else if Usable(m[i]) && m[i].start <= HighPlace(m[i]) then HighPlace(m[i])
    else 0
  }

  /** `a` and the 256K behind it lie in RAM entry `e`, which ends above 1 MiB and below 4 GiB. */
  predicate HoldsHigh(e: E820.Entry, a: int) {
    e.typ == 1 && 0x100000 <= e.start + e.size < TWO32 && a % 16 == 0 && e.start <= a && a + 0x40000 <= e.start + e.size
  }

  /** In numbers: the highest such place of all. */
  lemma {:induction false} HighFromIs(m: seq<E820.Entry>, i: nat)
    requires E820.Canonical(m) && i <= |m|
    ensures HighFrom(m, i) != 0 ==> exists k :: i <= k < |m| && HoldsHigh(m[k], HighFrom(m, i))
    ensures forall k, a :: i <= k < |m| && HoldsHigh(m[k], a) ==> a <= HighFrom(m, i)
    decreases |m| - i
  {
    if i < |m| {
      HighFromIs(m, i + 1);
      var e := m[i];
      AlignDownIs(e.End() - BUILD_MAX_HIGHTABLE, MALLOC_MIN_ALIGN);
      forall a | HoldsHigh(e, a) ensures a <= HighFrom(m, i) {
        AlignDownLargest(e.End() - BUILD_MAX_HIGHTABLE, MALLOC_MIN_ALIGN, a);
        if HighFrom(m, i + 1) != 0 {
          var k :| i + 1 <= k < |m| && HoldsHigh(m[k], HighFrom(m, i + 1));
          assert E820.Below(m[i], m[k]);
        }
      }
    }
  }

  /** The part of a usable stretch that is for ZoneTmpHigh. */
  function ShareEnd(e: E820.Entry, high: int): int { if e.start <= high < e.End() then high else e.End() }

  lemma ShareIs(r: Region, m: seq<E820.Entry>, i: nat, high: int)
    requires IsShare(r, m, i, high)
    ensures exists k :: i <= k < |m| && m[k].typ == 1 && 0x100000 <= m[k].start + m[k].size < TWO32 && r.lo == m[k].start
                        && r.hi == if m[k].start <= high < m[k].start + m[k].size then high else m[k].start + m[k].size
  {}

  /** The regions are shares of usable stretches from entry `i` on, and each share that can hold
      a record of its own is among them. */
  ghost predicate Shares(rs: seq<Region>, m: seq<E820.Entry>, i: nat, high: int) {
    && (forall j :: 0 <= j < |rs| ==> IsShare(rs[j], m, i, high))
    && (forall k :: i <= k < |m| && Usable(m[k]) && 64 <= ShareEnd(m[k], high) - m[k].start ==> HasShare(rs, m[k], high))
  }

  ghost predicate IsShare(r: Region, m: seq<E820.Entry>, i: nat, high: int) {
    exists k :: i <= k < |m| && Usable(m[k]) && r.lo == m[k].start && r.hi == ShareEnd(m[k], high)
  }

  ghost predicate HasShare(rs: seq<Region>, e: E820.Entry, high: int) {
    exists j :: 0 <= j < |rs| && rs[j].lo == e.start && rs[j].hi == ShareEnd(e, high)
  }

  lemma {:induction false} HighBelow(m: seq<E820.Entry>, i: nat, j: nat)
    requires j <= i <= |m| && forall k :: j <= k < i ==> !Usable(m[k])
    ensures HighFrom(m, j) == HighFrom(m, i)
    decreases i - j
  {
    if j < i { HighBelow(m, i, j + 1); }
  }

  /** An entry that is not usable has no share. */
  lemma SharesSkip(rs: seq<Region>, m: seq<E820.Entry>, i: nat, j: nat, high: int)
    requires j <= i <= |m| && Shares(rs, m, i, high) && forall k :: j <= k < i ==> !Usable(m[k])
    ensures Shares(rs, m, j, high)
  {
    forall n | 0 <= n < |rs| ensures IsShare(rs[n], m, j, high) { assert IsShare(rs[n], m, i, high); }
  }

  /** Choosing a place for ZoneHigh in entry `i` leaves the shares above it alone. */
  lemma SharesChosen(rs: seq<Region>, m: seq<E820.Entry>, i: nat, high: int)
    requires E820.Canonical(m) && i < |m| && Shares(rs, m, i + 1, 0) && 0 <= m[i].start <= high < m[i].End()
    ensures Shares(rs, m, i + 1, high)
  {
    forall k | i < k < |m| ensures ShareEnd(m[k], high) == ShareEnd(m[k], 0) { assert E820.Below(m[i], m[k]); }
    forall n | 0 <= n < |rs| ensures IsShare(rs[n], m, i + 1, high) {
      assert IsShare(rs[n], m, i + 1, 0);
      var k :| i + 1 <= k < |m| && Usable(m[k]) && rs[n].lo == m[k].start && rs[n].hi == ShareEnd(m[k], 0);
      assert rs[n].hi == ShareEnd(m[k], high);
    }
    forall k | i + 1 <= k < |m| && Usable(m[k]) && 64 <= ShareEnd(m[k], high) - m[k].start ensures HasShare(rs, m[k], high) {
      assert HasShare(rs, m[k], 0);
    }
  }

  /** The share of entry `i` has become a region, or was too small to be sure of one. */
  lemma SharesMore(rs: seq<Region>, m: seq<E820.Entry>, i: nat, high: int, rs': seq<Region>, j: nat, r: Region)
    requires i < |m| && Shares(rs, m, i + 1, high) && Usable(m[i]) && j <= |rs|
    requires rs' == Insert(rs, j, r) && r.lo == m[i].start && r.hi == ShareEnd(m[i], high)
    ensures Shares(rs', m, i, high)
  {
    hide ShareEnd, Usable;
    forall n | 0 <= n < |rs'| ensures IsShare(rs'[n], m, i, high) {
      assert rs'[n] == if n < j then rs[n] else if n == j then r else rs[n-1];
      if n < j { assert IsShare(rs[n], m, i + 1, high); }
      if n > j { assert IsShare(rs[n-1], m, i + 1, high); }
    }
    forall k | i <= k < |m| && Usable(m[k]) && 64 <= ShareEnd(m[k], high) - m[k].start ensures HasShare(rs', m[k], high) {
      if k == i {
        assert rs'[j] == r;
      } else {
        assert HasShare(rs, m[k], high);
        var n :| 0 <= n < |rs| && rs[n].lo == m[k].start && rs[n].hi == ShareEnd(m[k], high);
        assert rs'[if n < j then n else n + 1] == rs[n];
      }
    }
  }

  lemma SharesSmall(rs: seq<Region>, m: seq<E820.Entry>, i: nat, high: int)
    requires i < |m| && Shares(rs, m, i + 1, high) && ShareEnd(m[i], high) - m[i].start < 64
    ensures Shares(rs, m, i, high)
  {
    forall n | 0 <= n < |rs| ensures IsShare(rs[n], m, i, high) { assert IsShare(rs[n], m, i + 1, high); }
  }

  /** The zone has the one region [lo, hi). */
  ghost predicate OneRange(rs: seq<Region>, lo: int, hi: int) { |rs| == 1 && rs[0].lo == lo && rs[0].hi == hi }

  lemma NothingYet(m: seq<E820.Entry>)
    requires E820.Canonical(m)
    ensures forall k :: 0 <= k < |m| ==> m[k].End() <= E820.TWO64
    ensures HighFrom(m, |m|) == 0 && Shares([], m, |m|, 0)
  {}

  lemma LowerEntries(m: seq<E820.Entry>, i: nat)
    requires E820.Canonical(m) && i < |m|
    ensures m[i].start < m[i].End() && forall k :: 0 <= k < i ==> m[k].End() <= m[i].start
  {
    assert forall k :: 0 <= k < i ==> E820.Below(m[k], m[i]);
  }

  /** Where the loop stops, nothing below is usable. */
  lemma NoneBelow(rs: seq<Region>, m: seq<E820.Entry>, i: nat, high: int)
    requires E820.Canonical(m) && 0 < i <= |m| && m[i-1].End() < 0x100000 && high == HighFrom(m, i) && Shares(rs, m, i, high)
    ensures high == HighFrom(m, 0) && Shares(rs, m, 0, high)
  {
    hide Shares, HighFrom;
    LowerEntries(m, i - 1);
    HighBelow(m, i, 0);
    SharesSkip(rs, m, i, 0, high);
  }

  /** No region meets the space between the EBDA and 1 MiB. */
  ghost predicate OutsideFirmware(regions: seq<seq<Region>>) {
    forall i, k :: 0 <= i < |regions| && 0 <= k < |regions[i]| ==>
      regions[i][k].hi <= BUILD_EBDA_MINIMUM || 0x100000 <= regions[i][k].lo
  }

  /** The zones of temporary and, with flag 8, of permanent requests. */
  function LowZone(flags: nat): nat { if flags / 8 % 2 == 1 then LOW else TMPLOW }

  function HighZone(flags: nat): nat { if flags / 8 % 2 == 1 then HIGH else TMPHIGH }

  /** The answers to a memory size request. */
  ghost predicate IsPmmSpace(zones: seq<seq<Info>>, flags: nat, space: nat)
    requires |zones| == 5
  {
    if flags % 4 == 0 then space == 0
    else if flags % 4 == 1 then IsSpace(zones[LowZone(flags)], LowZone(flags), space)
    else if flags % 4 == 2 then IsSpace(zones[HighZone(flags)], HighZone(flags), space)
    else exists a: nat, b: nat :: IsLarger(zones, flags, a, b, space)
  }

  /** The larger of the spaces of the two zones. */
  ghost predicate IsLarger(zones: seq<seq<Info>>, flags: nat, a: nat, b: nat, space: nat)
    requires |zones| == 5
  {
    && IsSpace(zones[LowZone(flags)], LowZone(flags), a) && IsSpace(zones[HighZone(flags)], HighZone(flags), b)
    && space == if a > b then a else b
  }

  // ---- The memory map as a whole ----

  /** With six spare slots malloc_preinit changes exactly three ranges of the map. */
  lemma {:induction false} PreinitMap(m0: seq<E820.Entry>, m1: seq<E820.Entry>, m2: seq<E820.Entry>, m3: seq<E820.Entry>, h: int)
    requires |m0| + 6 <= E820.MAX_E820
    requires E820.Added(m0, m1, BUILD_LOWRAM_END, BUILD_BIOS_ADDR - BUILD_LOWRAM_END, E820.HOLE)
    requires E820.Added(m1, m2, BUILD_BIOS_ADDR, BUILD_BIOS_SIZE, E820.RESERVED)
    requires if h == 0 then m3 == m2 else E820.Added(m2, m3, h, BUILD_MAX_HIGHTABLE, E820.RESERVED)
    ensures forall a :: E820.TypeAt(m3, a) ==
              if h != 0 && h <= a < h + BUILD_MAX_HIGHTABLE then E820.RESERVED
              else if BUILD_BIOS_ADDR <= a < BUILD_BIOS_ADDR + BUILD_BIOS_SIZE then E820.RESERVED
              else if BUILD_LOWRAM_END <= a < BUILD_BIOS_ADDR then E820.HOLE
              else E820.TypeAt(m0, a)
  {
    hide E820.TypeAt, E820.Canonical, E820.Needed;
    forall a ensures E820.TypeAt(m2, a) ==
                       if BUILD_BIOS_ADDR <= a < BUILD_BIOS_ADDR + BUILD_BIOS_SIZE then E820.RESERVED
                       else if BUILD_LOWRAM_END <= a < BUILD_BIOS_ADDR then E820.HOLE
                       else E820.TypeAt(m0, a)
    {
      assert E820.TypeAt(m2, a) == E820.Overwritten(m1, BUILD_BIOS_ADDR, BUILD_BIOS_SIZE, E820.RESERVED, a);
      assert E820.TypeAt(m1, a) == E820.Overwritten(m0, BUILD_LOWRAM_END, BUILD_BIOS_ADDR - BUILD_LOWRAM_END, E820.HOLE, a);
    }
  }

  /** With four spare slots malloc_prepboot changes exactly two. */
  lemma {:induction false} PrepbootMap(m0: seq<E820.Entry>, m1: seq<E820.Entry>, m2: seq<E820.Entry>, endlow: int, high: seq<Info>)
    requires |m0| + 4 <= E820.MAX_E820 && endlow <= BUILD_LOWRAM_END
    requires E820.Added(m0, m1, endlow, BUILD_LOWRAM_END - endlow, E820.RESERVED) && GivenBack(m1, m2, high)
    ensures forall a :: E820.TypeAt(m2, a) ==
              if high != [] && FreePage(high[|high| - 1], a) then E820.RAM
              else if endlow <= a < BUILD_LOWRAM_END then E820.RESERVED
              else E820.TypeAt(m0, a)
  {
    hide E820.TypeAt, E820.Canonical, E820.Needed;
  }

  /** `a` lies in a whole page from the start of a free range on. */
  predicate FreePage(e: Info, a: int) { e.start <= a < e.start + AlignDown(e.end - e.start, PAGE_SIZE) }

  // ---- The firmware's memory state ----

  /** `b` lies in a region of ZoneTmpHigh. */
  ghost predicate InTmpHigh(regions: seq<seq<Region>>, b: (nat, nat))
    requires |regions| == 5
  {
    exists k :: 0 <= k < |regions[TMPHIGH]| && regions[TMPHIGH][k].lo <= b.0 && b.0 + b.1 <= regions[TMPHIGH][k].hi
  }

  class Firmware {
    const e820: E820.Map
    const heap: Heap
    /** The blocks that PMM ever took from ZoneTmpHigh for permanent use. */
    ghost var permanent: set<(nat, nat)>

    /** Until malloc_prepboot: nothing in ZoneHigh is RAM to the operating system, and no
        permanent block is. */
    ghost predicate Valid()
      reads this, e820, e820.list, heap
    {
      && e820.Valid() && heap.Valid()
      && (forall k :: 0 <= k < |heap.regions[HIGH]| ==>
            NotRam(e820.Contents(), heap.regions[HIGH][k].lo, heap.regions[HIGH][k].hi - heap.regions[HIGH][k].lo))
      && PermanentKept()
    }

    ghost predicate PermanentKept()
      requires e820.Valid() && |heap.regions| == 5
      reads this, e820, e820.list, heap
    {
      forall b :: b in permanent ==> InTmpHigh(heap.regions, b) && NotRam(e820.Contents(), b.0, b.1)
    }

    constructor (e820: E820.Map)
      requires e820.Valid()
      ensures Valid() && this.e820 == e820 && fresh(heap) && heap.zones == [[], [], [], [], []]
    {
      this.e820 := e820;
      heap := new Heap();
      permanent := {};
    }

    /** e820_add of memory that is not RAM, wherever it may come from. */
    method AddReserved(start: E820.u64, size: E820.u64, typ: E820.u32)
      requires Valid() && typ != E820.RAM && start + size < E820.TWO64
      modifies e820`count, e820.list
      ensures Valid() && permanent == old(permanent) && NotRam(e820.Contents(), start, size)
      ensures NoNewRam(old(e820.Contents()), e820.Contents())
      ensures E820.Added(old(e820.Contents()), e820.Contents(), start, size, typ)
    {
      hide E820.TypeAt, E820.Canonical, E820.IsOverwrite, E820.LosesOnly, E820.Added, NotRam, NoNewRam, TilesFrom, Tiles, Keys, RegionsApart, Paired;
      ghost var before := e820.Contents();
      ghost var ideal := e820.Add(start, size, typ);
      ReservedIsNotRam(before, e820.Contents(), ideal, start, size, typ);
      ReserveMakesNoRam(before, e820.Contents(), ideal, start, size, typ);
      forall k | 0 <= k < |heap.regions[HIGH]|
        ensures NotRam(e820.Contents(), heap.regions[HIGH][k].lo, heap.regions[HIGH][k].hi - heap.regions[HIGH][k].lo)
      {
        var r := heap.regions[HIGH][k];
        ReserveKeepsNotRam(before, e820.Contents(), ideal, start, size, typ, r.lo, r.hi - r.lo);
      }
      forall b | b in permanent ensures NotRam(e820.Contents(), b.0, b.1) {
        ReserveKeepsNotRam(before, e820.Contents(), ideal, start, size, typ, b.0, b.1);
      }
    }

    /** malloc_palloc from any zone. */
    method Palloc(zi: nat, size: nat, align: nat) returns (data: nat, ghost d: nat, ghost tz: nat)
      requires Valid() && zi < 5 && size + align <= TWO32 && IsAlign(align)
      modifies heap
      ensures Valid() && permanent == old(permanent) && heap.regions == old(heap.regions)
      ensures data != 0 && zi == TMPHIGH ==> InTmpHigh(heap.regions, (data, size))
      ensures data != 0 ==> data % align == 0 && data + size < TWO32
      ensures data == 0 <==> Refuses(old(heap.zones), zi, size, align)
      ensures data == 0 ==> heap.zones == old(heap.zones) && heap.records == old(heap.records)
      ensures data != 0 ==> Took(old(heap.zones), old(heap.records), heap.zones, heap.records, zi, data, size, align, d, tz, DEFAULT_HANDLE)
    {
      hide NotRam, E820.Canonical, TilesFrom, Tiles, Keys, RegionsApart, Paired, Refuses, FirstFit;
      data, d, tz := heap.Palloc(zi, size, align);
      if data != 0 { BlockInRegion(heap.zones, heap.regions, zi, Block(data, size, Data, d)); }
    }

    /** The regions that malloc_preinit has made so far: RAM of the map `m`, all in ZoneTmpHigh,
        above `low`, and none of them meeting the range set aside for ZoneHigh. */
    ghost predicate Populating(low: nat, highram: nat, m: seq<E820.Entry>)
      reads this, heap
    {
      && heap.Valid() && 0x100000 <= low
      && (forall i :: 0 <= i < 5 && i != TMPHIGH ==> heap.regions[i] == [])
      && (forall k :: 0 <= k < |heap.regions[TMPHIGH]| ==> low <= heap.regions[TMPHIGH][k].lo)
      && WereRam(m, heap.regions[TMPHIGH])
      && (highram != 0 ==> low <= highram && highram + BUILD_MAX_HIGHTABLE < TWO32
                           && AllRam(m, highram, highram + BUILD_MAX_HIGHTABLE))
      && (forall k :: highram != 0 && 0 <= k < |heap.regions[TMPHIGH]| ==>
            Apart(heap.regions[TMPHIGH][k], Region(highram, highram + BUILD_MAX_HIGHTABLE, TEMP)))
    }

    /** One turn of the loop of malloc_preinit: the usable stretch of entry `i` goes to
        ZoneTmpHigh, less the top of the first one that is large enough for ZoneHigh. */
    method PopulateHigh(s: nat, e0: nat, highram0: nat, ghost low: nat, ghost m: seq<E820.Entry>, ghost i: nat)
      returns (highram: nat)
      requires Populating(low, highram0, m) && 0x100000 <= s < e0 <= low && e0 < TWO32 && AllRam(m, s, e0)
      requires E820.Canonical(m) && i < |m| && m[i].typ == E820.RAM && m[i].start == s && m[i].End() == e0
      requires highram0 == HighFrom(m, i + 1) && Shares(heap.regions[TMPHIGH], m, i + 1, highram0)
      modifies heap
      ensures Populating(s, highram, m)
      ensures highram == HighFrom(m, i) && Shares(heap.regions[TMPHIGH], m, i, highram)
    {
      hide TilesFrom, Tiles, Keys, RegionsApart, Paired, Shares, E820.Canonical, AllRam, Homed, RecordsFull;
      var e := e0;
      highram := highram0;
      AlignDownIs(e - BUILD_MAX_HIGHTABLE, MALLOC_MIN_ALIGN);
      if highram == 0 {
        var newe := AlignDown(e - BUILD_MAX_HIGHTABLE, MALLOC_MIN_ALIGN);
        if newe <= e && newe >= s {
          highram := newe;
          e := newe;
          SubRam(m, s, e0, newe, newe + BUILD_MAX_HIGHTABLE);
          SharesChosen(heap.regions[TMPHIGH], m, i, newe);
        }
      }
      SubRam(m, s, e0, s, e);
      ghost var d, j, tz;
      ghost var before, zones := heap.regions, heap.zones;
      assert forall k :: 0 <= k < |before[TMPHIGH]| ==> Apart(before[TMPHIGH][k], Region(s, e, TEMP));
      if 64 <= e - s { AddedHasHome(zones, TMPHIGH, s, e, 1); }
      d, j, tz := heap.AddRegion(TMPHIGH, s, e);
      if d != 0 {
        WereRamMore(m, before[TMPHIGH], j, Region(s, e, d));
        SharesMore(before[TMPHIGH], m, i, highram, heap.regions[TMPHIGH], j, Region(s, e, d));
        forall k | 0 <= k < |heap.regions[TMPHIGH]|
          ensures heap.regions[TMPHIGH][k] == Region(s, e, d) || heap.regions[TMPHIGH][k] in before[TMPHIGH]
        {
          InsertIndex(before[TMPHIGH], j, Region(s, e, d), k);
        }
      } else {
        SharesSmall(before[TMPHIGH], m, i, highram);
      }
    }

    /** malloc_preinit, on the memory map found by platform setup. */
    method Preinit() returns (ghost m1: seq<E820.Entry>, ghost m2: seq<E820.Entry>)
      requires Valid() && heap.zones == [[], [], [], [], []] && heap.regions == [[], [], [], [], []] && permanent == {}
      modifies heap, e820`count, e820.list
      ensures Valid() && permanent == {}
      ensures E820.Added(old(e820.Contents()), m1, BUILD_LOWRAM_END, BUILD_BIOS_ADDR - BUILD_LOWRAM_END, E820.HOLE)
      ensures E820.Added(m1, m2, BUILD_BIOS_ADDR, BUILD_BIOS_SIZE, E820.RESERVED)
      ensures Shares(heap.regions[TMPHIGH], m2, 0, HighFrom(m2, 0))
      ensures OneRange(heap.regions[TMPLOW], BUILD_STACK_ADDR, BUILD_EBDA_MINIMUM)
      ensures heap.regions[LOW] == [] && heap.regions[FSEG] == []
      ensures var h := HighFrom(m2, 0);
              if h == 0 then heap.regions[HIGH] == [] && e820.Contents() == m2
              else OneRange(heap.regions[HIGH], h, h + BUILD_MAX_HIGHTABLE)
                   && E820.Added(m2, e820.Contents(), h, BUILD_MAX_HIGHTABLE, E820.RESERVED)
      ensures Spare(heap.zones[TMPLOW], 8000) && OutsideFirmware(heap.regions)
      ensures WereRam(old(e820.Contents()), heap.regions[TMPHIGH]) && WereRam(old(e820.Contents()), heap.regions[HIGH])
      ensures NotRam(e820.Contents(), BUILD_BIOS_ADDR, BUILD_BIOS_SIZE)
      ensures NoNewRam(old(e820.Contents()), e820.Contents())
    {
      hide NotRam, E820.TypeAt, E820.IsOverwrite, E820.LosesOnly, E820.Added, Consistent, Populating, WereRam, NoNewRam, Shares,
           OneRange, OutsideFirmware, Spare, HighFrom;
      ghost var m0 := e820.Contents();
      AddReserved(BUILD_LOWRAM_END, BUILD_BIOS_ADDR - BUILD_LOWRAM_END, E820.HOLE);
      m1 := e820.Contents();
      AddReserved(BUILD_BIOS_ADDR, BUILD_BIOS_SIZE, E820.RESERVED);
      m2 := e820.Contents();
      var highram := Populate();
      AddFixedRegions(highram);
      NoNewRamTwice(m0, m1, m2);
      NoNewRamTwice(m0, m2, e820.Contents());
      WereRamBefore(m0, m2, heap.regions[TMPHIGH]);
      WereRamBefore(m0, m2, heap.regions[HIGH]);
    }

    /** The loop over the memory map, from its top down to 1 MiB. */
    method Populate() returns (highram: nat)
      requires e820.Valid() && NotRam(e820.Contents(), BUILD_BIOS_ADDR, BUILD_BIOS_SIZE)
      requires heap.Valid() && heap.regions == [[], [], [], [], []]
      modifies heap
      ensures Populating(0x100000, highram, e820.Contents())
      ensures highram == HighFrom(e820.Contents(), 0) && Shares(heap.regions[TMPHIGH], e820.Contents(), 0, highram)
    {
      hide NotRam, E820.TypeAt, E820.Canonical, Tiles, RegionsApart, Paired, AllRam, Shares, HighFrom;
      highram := 0;
      var i: nat := e820.count;
      ghost var low: nat := E820.TWO64;
      ghost var m := e820.Contents();
      NothingYet(m);
      while i > 0
        invariant e820.Valid() && e820.Contents() == m && i <= |m|
        invariant Populating(low, highram, m)
        invariant highram == HighFrom(m, i) && Shares(heap.regions[TMPHIGH], m, i, highram)
        invariant forall k :: 0 <= k < i ==> m[k].End() <= low
      {
        i := i - 1;
        var en := e820.list[i];
        assert en == m[i];
        LowerEntries(m, i);
        if en.End() < 0x100000 {
          NoneBelow(heap.regions[TMPHIGH], m, i + 1, highram);
          break;
        }
        if en.typ != E820.RAM || en.End() > 0xFFFF_FFFF {
          HighBelow(m, i + 1, i);
          SharesSkip(heap.regions[TMPHIGH], m, i + 1, i, highram);
          continue;
        }
        RamStartsAbove(m, i);
        EntryIsRam(m, i);
        highram := PopulateHigh(en.start, en.End(), highram, low, m, i);
        low := en.start;
      }
    }

    /** The regions with fixed places, and the reservation of ZoneHigh. */
    method AddFixedRegions(highram: nat)
      requires e820.Valid() && Populating(0x100000, highram, e820.Contents()) && permanent == {}
      requires NotRam(e820.Contents(), BUILD_BIOS_ADDR, BUILD_BIOS_SIZE)
      modifies heap, e820`count, e820.list
      ensures Valid() && |heap.regions| == |old(heap.regions)| == 5 && heap.regions[TMPHIGH] == old(heap.regions)[TMPHIGH]
      ensures heap.regions[LOW] == [] && heap.regions[FSEG] == []
      ensures OneRange(heap.regions[TMPLOW], BUILD_STACK_ADDR, BUILD_EBDA_MINIMUM)
      ensures if highram == 0 then heap.regions[HIGH] == [] && e820.Contents() == old(e820.Contents())
              else OneRange(heap.regions[HIGH], highram, highram + BUILD_MAX_HIGHTABLE)
                   && E820.Added(old(e820.Contents()), e820.Contents(), highram, BUILD_MAX_HIGHTABLE, E820.RESERVED)
      ensures Spare(heap.zones[TMPLOW], 8000) && OutsideFirmware(heap.regions)
      ensures WereRam(old(e820.Contents()), heap.regions[TMPHIGH]) && WereRam(old(e820.Contents()), heap.regions[HIGH])
      ensures NotRam(e820.Contents(), BUILD_BIOS_ADDR, BUILD_BIOS_SIZE)
      ensures NoNewRam(old(e820.Contents()), e820.Contents())
    {
      hide NotRam, AllRam, NoNewRam, E820.TypeAt, E820.IsOverwrite, E820.LosesOnly, E820.Added, E820.Canonical, TilesFrom, Tiles, Keys,
           RegionsApart, Paired, Homed, RecordsFull, Spare, WithEntry;
      ghost var d, j, tz;
      ghost var before, zones0 := e820.Contents(), heap.zones;
      NoNewRamSame(before);
      AddedHasHome(zones0, TMPLOW, BUILD_STACK_ADDR, BUILD_EBDA_MINIMUM, 1);
      d, j, tz := heap.AddRegion(TMPLOW, BUILD_STACK_ADDR, BUILD_EBDA_MINIMUM);
      ghost var zones1 := heap.zones;
      AddedSpare(zones0, TMPLOW, BUILD_STACK_ADDR, BUILD_EBDA_MINIMUM, zones1, d, tz, TMPLOW, 8000);
      if highram != 0 {
        AddedSpare(zones0, TMPLOW, BUILD_STACK_ADDR, BUILD_EBDA_MINIMUM, zones1, d, tz, TMPLOW, 8001);
        AddedHasHome(zones1, HIGH, highram, highram + BUILD_MAX_HIGHTABLE, 8001);
        d, j, tz := heap.AddRegion(HIGH, highram, highram + BUILD_MAX_HIGHTABLE);
        AddedSpare(zones1, HIGH, highram, highram + BUILD_MAX_HIGHTABLE, heap.zones, d, tz, TMPLOW, 8000);
        ghost var ideal := e820.Add(highram, BUILD_MAX_HIGHTABLE, E820.RESERVED);
        ReservedIsNotRam(before, e820.Contents(), ideal, highram, BUILD_MAX_HIGHTABLE, E820.RESERVED);
        ReserveMakesNoRam(before, e820.Contents(), ideal, highram, BUILD_MAX_HIGHTABLE, E820.RESERVED);
        ReserveKeepsNotRam(before, e820.Contents(), ideal, highram, BUILD_MAX_HIGHTABLE, E820.RESERVED, BUILD_BIOS_ADDR, BUILD_BIOS_SIZE);
      }
    }

    method Pfree(data: nat) returns (ret: int)
      requires Valid()
      modifies heap
      ensures Valid() && permanent == old(permanent) && heap.regions == old(heap.regions)
      ensures ret == 0 <==> Freeable(old(heap.zones), data)
    {
      hide NotRam, E820.Canonical, TilesFrom, Tiles, Keys, RegionsApart, Paired;
      ghost var zi, b, tz;
      ret, zi, b, tz := heap.Pfree(data);
    }

    /** Flag 2 alone: high memory.  A permanent request that ZoneHigh cannot serve is served
        from the large ZoneTmpHigh and reserved in the map. */
    method AllocateHigh(isPermanent: bool, size: nat, align: nat) returns (data: nat, ghost zi: nat, ghost d: nat, ghost tz: nat)
      requires Valid() && 0 < size < TWO31 && IsAlign(align)
      modifies this`permanent, heap, e820`count, e820.list
      ensures Valid() && heap.regions == old(heap.regions)
      ensures data == 0 ==> heap.zones == old(heap.zones) && heap.records == old(heap.records)
      ensures data != 0 ==> Took(old(heap.zones), old(heap.records), heap.zones, heap.records, zi, data, size, align, d, tz, DEFAULT_HANDLE)
                            && data % align == 0
      ensures zi == if isPermanent && !Refuses(old(heap.zones), HIGH, size, align) then HIGH else TMPHIGH
      ensures data == 0 <==> Refuses(old(heap.zones), zi, size, align)
      ensures permanent == if data != 0 && isPermanent && zi == TMPHIGH then old(permanent) + {(data, size)} else old(permanent)
    {
      hide NotRam, E820.Canonical, Consistent, IsAlign, Refuses, Took;
      AlignBound(align);
      zi := if isPermanent then HIGH else TMPHIGH;
      data, d, tz := Palloc(if isPermanent then HIGH else TMPHIGH, size, align);
      if data == 0 && isPermanent {
        data, d, tz := Palloc(TMPHIGH, size, align);
        zi := TMPHIGH;
        if data != 0 {
          AddReserved(data, size, E820.RESERVED);
          permanent := permanent + {(data, size)};
        }
      }
    }

    /** The zone that serves a request: low for 1, high for 2, low if possible and else high for
        3; permanent requests for high memory fall back to ZoneTmpHigh. */
    ghost function ServedFrom(zones: seq<seq<Info>>, place: nat, isPermanent: bool, size: nat, align: nat): (zi: nat)
      requires |zones| == 5 && 0 < align
      ensures place == 1 ==> zi == if isPermanent then LOW else TMPLOW
      ensures place == 2 ==> zi == if isPermanent && !Refuses(zones, HIGH, size, align) then HIGH else TMPHIGH
      ensures place == 3 && isPermanent ==> zi == if Refuses(zones, LOW, size, align) then HIGH else LOW
      ensures place == 3 && !isPermanent ==> zi == if Refuses(zones, TMPLOW, size, align) then TMPHIGH else TMPLOW
    {
      var low, high := if isPermanent then LOW else TMPLOW, if isPermanent then HIGH else TMPHIGH;
      if place == 1 || (place == 3 && !Refuses(zones, low, size, align)) then low
      else if place == 2 && isPermanent && Refuses(zones, HIGH, size, align) then TMPHIGH
      else high
    }

    /** The three ways to place a block. */
    method AllocatePlaced(place: nat, isPermanent: bool, size: nat, align: nat) returns (data: nat, ghost d: nat, ghost tz: nat)
      requires Valid() && place < 4 && 0 < size < TWO31 && IsAlign(align)
      modifies this`permanent, heap, e820`count, e820.list
      ensures Valid() && heap.regions == old(heap.regions)
      ensures var zi := ServedFrom(old(heap.zones), place, isPermanent, size, align);
              && (data == 0 <==> place == 0 || Refuses(old(heap.zones), zi, size, align))
              && (data == 0 ==> heap.zones == old(heap.zones) && heap.records == old(heap.records))
              && (data != 0 ==>
                    && data % align == 0
                    && Took(old(heap.zones), old(heap.records), heap.zones, heap.records, zi, data, size, align, d, tz, DEFAULT_HANDLE))
              && permanent == if data != 0 && isPermanent && zi == TMPHIGH then old(permanent) + {(data, size)} else old(permanent)
    {
      hide NotRam, E820.Canonical, Consistent, IsAlign, Refuses, Took;
      AlignBound(align);
      var lowzone, highzone := TMPLOW, TMPHIGH;
      if isPermanent {
        lowzone, highzone := LOW, HIGH;
      }
      if place == 0 {
        data, d, tz := 0, 0, 0;
      } else if place == 1 {
        data, d, tz := Palloc(lowzone, size, align);
      } else if place == 2 {
        ghost var zi;
        data, zi, d, tz := AllocateHigh(isPermanent, size, align);
      } else {
        data, d, tz := Palloc(lowzone, size, align);
        if data == 0 {
          data, d, tz := Palloc(highzone, size, align);
        }
      }
    }

    /** handle_pmm00: without a length, the size of the largest block; else length * 16 bytes,
        low (flag 1), high (flag 2) or either; permanently (flag 8), aligned to the lowest bit of
        the size (flag 4). */
    method PmmAllocate(length: nat, handle: nat, flags: nat) returns (data: nat, ghost d: nat, ghost tz: nat)
      requires Valid() && length < TWO32
      modifies this`permanent, heap, e820`count, e820.list
      ensures Valid() && heap.regions == old(heap.regions)
      ensures length == 0 ==> heap.zones == old(heap.zones) && heap.records == old(heap.records) && permanent == old(permanent)
                              && e820.Contents() == old(e820.Contents()) && IsPmmSpace(heap.zones, flags, data)
      ensures var size := length * 16 % TWO32; var align := PmmAlign(size, flags); var isPermanent := flags / 8 % 2 == 1;
              var zi := ServedFrom(old(heap.zones), flags % 4, isPermanent, size, align);
              && (length != 0 ==>
                    (data == 0 <==> size == 0 || size >= TWO31 || flags % 4 == 0 || Refuses(old(heap.zones), zi, size, align)))
              && (data == 0 ==> heap.zones == old(heap.zones) && heap.records == old(heap.records) && permanent == old(permanent))
              && (length != 0 && data != 0 ==>
                    && Took(old(heap.zones), old(heap.records), heap.zones, heap.records, zi, data, size, align, d, tz,
                            if Freeable(heap.zones, data) then handle else DEFAULT_HANDLE)
                    && permanent == if isPermanent && zi == TMPHIGH then old(permanent) + {(data, size)} else old(permanent))
      ensures length != 0 && data != 0 ==> data % MALLOC_MIN_ALIGN == 0
      ensures length != 0 && data != 0 && flags / 4 % 2 == 1 ==>
                forall c: nat :: IsPow2(c) && 0 < c && length * 16 % TWO32 % c == 0 ==> data % c == 0
    {
      hide NotRam, E820.Canonical, TilesFrom, Tiles, Keys, RegionsApart, Paired, IsAlign, Refuses, Freeable, ServedFrom, Took, IsPmmSpace;
      d, tz := 0, 0;
      if length == 0 {
        data := PmmSpace(flags);
        return;
      }
      var size := length * 16 % TWO32;
      if size == 0 || size >= TWO31 {
        return 0, 0, 0;
      }
      var align := MALLOC_MIN_ALIGN;
      if flags / 4 % 2 == 1 {
        align := LowestBit(size);
        if align < MALLOC_MIN_ALIGN {
          align := MALLOC_MIN_ALIGN;
        }
      }
      AlignIsFine(size, align);
      data, d, tz := AllocatePlaced(flags % 4, flags / 8 % 2 == 1, size, align);
      if data != 0 {
        AlignedTo(data, size, align);
        ghost var zi := ServedFrom(old(heap.zones), flags % 4, flags / 8 % 2 == 1, size, align);
        NameBlock(data, handle, old(heap.zones), old(heap.records), zi, size, align, d, tz);
      }
    }

    /** The new block's record gets the caller's handle, if malloc_sethandle finds it. */
    method NameBlock(data: nat, handle: nat, ghost zones0: seq<seq<Info>>, ghost records0: map<nat, Record>, ghost zi: nat,
                     ghost size: nat, ghost align: nat, ghost d: nat, ghost tz: nat)
      requires Valid() && 0 < size && Took(zones0, records0, heap.zones, heap.records, zi, data, size, align, d, tz, DEFAULT_HANDLE)
      modifies heap`records
      ensures Valid()
      ensures Took(zones0, records0, heap.zones, heap.records, zi, data, size, align, d, tz,
                   if Freeable(heap.zones, data) then handle else DEFAULT_HANDLE)
    {
      hide NotRam, E820.Canonical, Tiles, RegionsApart, Paired, Freeable, Took;
      TookRecord(zones0, records0, heap.zones, heap.records, zi, data, size, align, d, tz, DEFAULT_HANDLE);
      if handle != DEFAULT_HANDLE {
        NewRecordFound(heap.zones, heap.regions, heap.records, data, size, d);
        ghost var before := heap.records;
        ghost var rec := heap.SetHandle(data, handle);
        if Freeable(heap.zones, data) {
          TookWithHandle(zones0, records0, heap.zones, before, zi, data, size, align, d, tz, handle);
        }
      }
    }

    /** The memory size request of PMM. */
    method PmmSpace(flags: nat) returns (space: nat)
      requires Valid()
      ensures IsPmmSpace(heap.zones, flags, space)
      ensures flags % 4 == 0 ==> space == 0
      ensures flags % 4 == 1 ==> var zi := if flags / 8 % 2 == 1 then LOW else TMPLOW; IsSpace(heap.zones[zi], zi, space)
      ensures flags % 4 == 2 ==> var zi := if flags / 8 % 2 == 1 then HIGH else TMPHIGH; IsSpace(heap.zones[zi], zi, space)
    {
      hide NotRam, E820.Canonical, Tiles, RegionsApart, Paired, IsSpace;
      var lowzone, highzone := TMPLOW, TMPHIGH;
      if flags / 8 % 2 == 1 {
        lowzone, highzone := LOW, HIGH;
      }
      if flags % 4 == 0 {
        space := 0;
      } else if flags % 4 == 1 {
        space := heap.GetSpace(lowzone);
      } else if flags % 4 == 2 {
        space := heap.GetSpace(highzone);
      } else {
        var spacelow := heap.GetSpace(lowzone);
        var spacehigh := heap.GetSpace(highzone);
        space := if spacelow > spacehigh then spacelow else spacehigh;
        assert IsLarger(heap.zones, flags, spacelow, spacehigh, space);
      }
    }

    /** handle_pmm01: the block with a handle of its own */
    method PmmFind(handle: nat) returns (data: nat, ghost rec: nat)
      requires Valid()
      ensures data == 0 <==> handle == DEFAULT_HANDLE || forall r :: r in heap.records ==> heap.records[r].handle != handle
      ensures data != 0 ==> rec in heap.records && heap.records[rec].handle == handle && heap.records[rec].start == data
    {
      if handle == DEFAULT_HANDLE {
        return 0, 0;
      }
      data, rec := heap.FindHandle(handle);
    }

    /** handle_pmm02 */
    method PmmFree(buffer: nat) returns (r: nat)
      requires Valid()
      modifies heap
      ensures Valid() && permanent == old(permanent) && heap.regions == old(heap.regions)
      ensures r == if Freeable(old(heap.zones), buffer) then 0 else 1
    {
      var ret := Pfree(buffer);
      r := if ret != 0 then 1 else 0;
    }

    /** malloc_init: ZoneLow gets the space from zonelow_base on, ZoneFSeg what the BIOS leaves
        of its segment, if there is room for their records. */
    method Init(zonelowBase: nat, varlowStart: nat, fsegStart: nat, fsegEnd: nat)
      requires Valid() && OutsideFirmware(heap.regions) && heap.regions[LOW] == [] && heap.regions[FSEG] == []
      requires BUILD_EBDA_MINIMUM <= zonelowBase && zonelowBase + OPROM_HEADER_RESERVE <= varlowStart <= fsegStart <= fsegEnd <= 0x100000
      modifies heap
      ensures Valid() && permanent == old(permanent)
      ensures forall i :: 0 <= i < 5 && i != LOW && i != FSEG ==> heap.regions[i] == old(heap.regions)[i]
      ensures heap.regions[LOW] == [] || OneRange(heap.regions[LOW], zonelowBase + OPROM_HEADER_RESERVE, varlowStart)
      ensures heap.regions[LOW] == [] <==> RecordsFull(WithEntry(old(heap.zones), LOW, zonelowBase + OPROM_HEADER_RESERVE, varlowStart))
      ensures heap.regions[FSEG] == [] || OneRange(heap.regions[FSEG], fsegStart, fsegEnd)
      ensures Spare(old(heap.zones)[TMPLOW], 2) ==> heap.regions[LOW] != [] && heap.regions[FSEG] != []
    {
      hide NotRam, E820.Canonical, TilesFrom, Tiles, Keys, RegionsApart, Paired, Homed, RecordsFull, Spare, WithEntry;
      ghost var d, j, tz;
      ghost var zones0, lo: nat := heap.zones, zonelowBase + OPROM_HEADER_RESERVE;
      if Spare(zones0[TMPLOW], 2) { AddedHasHome(zones0, LOW, lo, varlowStart, 2); }
      d, j, tz := heap.AddRegion(LOW, zonelowBase + OPROM_HEADER_RESERVE, varlowStart);
      ghost var zones1 := heap.zones;
      if Spare(zones0[TMPLOW], 2) {
        AddedSpare(zones0, LOW, lo, varlowStart, zones1, d, tz, TMPLOW, 1);
        AddedHasHome(zones1, FSEG, fsegStart, fsegEnd, 1);
      }
      d, j, tz := AddFseg(fsegStart, fsegEnd, varlowStart);
    }

    /** malloc_prepboot's updates of the memory map: the memory above `endlow` is reserved, and
        the free pages at the bottom of ZoneHigh become RAM again.  Blocks that are in use
        from ZoneHigh, and permanent blocks wherever they are, are not among them. */
    method Prepboot(endlow: nat) returns (ghost m1: seq<E820.Entry>)
      requires Valid() && endlow <= BUILD_LOWRAM_END
      modifies e820`count, e820.list
      ensures e820.Valid() && heap.Valid()
      ensures E820.Added(old(e820.Contents()), m1, endlow, BUILD_LOWRAM_END - endlow, E820.RESERVED)
      ensures GivenBack(m1, e820.Contents(), heap.zones[HIGH])
      ensures forall b :: b in heap.Blocks()[HIGH] && 0 < b.size ==> NotRam(e820.Contents(), b.start, b.size)
      ensures forall b :: b in permanent ==> NotRam(e820.Contents(), b.0, b.1)
    {
      hide NotRam, NoNewRam, E820.TypeAt, E820.Canonical, E820.Added, TilesFrom, Tiles, Keys, RegionsApart, Paired, GivenBack;
      AddReserved(endlow, BUILD_LOWRAM_END - endlow, E820.RESERVED);
      m1 := e820.Contents();
      GiveBack();
    }

    /** The free pages at the bottom of ZoneHigh become RAM. */
    method GiveBack()
      requires Valid()
      modifies e820`count, e820.list
      ensures e820.Valid() && heap.Valid()
      ensures GivenBack(old(e820.Contents()), e820.Contents(), heap.zones[HIGH])
      ensures forall b :: b in heap.Blocks()[HIGH] && 0 < b.size ==> NotRam(e820.Contents(), b.start, b.size)
      ensures forall b :: b in permanent ==> NotRam(e820.Contents(), b.0, b.1)
    {
      hide NotRam, E820.TypeAt, E820.Canonical, E820.IsOverwrite, E820.LosesOnly, E820.Added, E820.Needed, InTmpHigh,
           TilesFrom, Tiles, Keys, KeysAll, RegionsApart, Paired;
      ghost var before := e820.Contents();
      HighBlocksAreNotRam(before, heap.zones, heap.regions);
      if heap.zones[HIGH] != [] {
        var info := heap.zones[HIGH][|heap.zones[HIGH]| - 1];
        EntryBounds(heap.zones, heap.regions, HIGH, |heap.zones[HIGH]| - 1);
        AlignDownIs(info.end - info.start, PAGE_SIZE);
        var giveback := AlignDown(info.end - info.start, PAGE_SIZE);
        AlignDownLargest(info.end - info.start, PAGE_SIZE, 0);
        ghost var ideal := e820.Add(info.start, giveback, E820.RAM);
        BlocksStay(before, e820.Contents(), ideal, heap.zones, heap.regions, giveback, permanent);
      }
    }

    /** The second alloc_add of malloc_init. */
    method AddFseg(start: nat, end: nat, low: nat) returns (ghost d: nat, ghost j: nat, ghost tz: nat)
      requires Valid() && heap.regions[FSEG] == [] && 0 < start && low <= start <= end <= 0x100000
      requires forall i, k :: 0 <= i < 5 && 0 <= k < |heap.regions[i]| ==> heap.regions[i][k].hi <= low || 0x100000 <= heap.regions[i][k].lo
      modifies heap
      ensures Valid() && permanent == old(permanent)
      ensures d == 0 <==> RecordsFull(WithEntry(old(heap.zones), FSEG, start, end))
      ensures forall i :: 0 <= i < 5 && i != FSEG ==> heap.regions[i] == old(heap.regions)[i]
      ensures if d == 0 then heap.regions[FSEG] == [] else OneRange(heap.regions[FSEG], start, end)
    {
      hide NotRam, E820.Canonical, TilesFrom, Tiles, Keys, RegionsApart, Paired, Homed, RecordsFull, WithEntry;
      d, j, tz := heap.AddRegion(FSEG, start, end);
      assert heap.Valid();
      assert forall i :: 0 <= i < 5 && i != FSEG ==> heap.regions[i] == old(heap.regions)[i];
    }
  }

  /** The free part of ZoneHigh meets neither its blocks nor those of ZoneTmpHigh. */
  lemma {:induction false} BlocksStay(m: seq<E820.Entry>, m': seq<E820.Entry>, ideal: seq<E820.Entry>, zones: seq<seq<Info>>,
                                      regions: seq<seq<Region>>, giveback: int, permanent: set<(nat, nat)>)
    requires AllTile(zones, regions) && RegionsApart(regions) && zones[HIGH] != []
    requires var e := zones[HIGH][|zones[HIGH]| - 1];
             giveback <= e.end - e.start && E820.IsOverwrite(ideal, m, e.start, giveback, E820.RAM) && E820.LosesOnly(m', ideal)
    requires forall b :: b in KeysAll(zones)[HIGH] && 0 < b.size ==> NotRam(m, b.start, b.size)
    requires forall b :: b in permanent ==> InTmpHigh(regions, b) && NotRam(m, b.0, b.1)
    ensures forall b :: b in KeysAll(zones)[HIGH] && 0 < b.size ==> NotRam(m', b.start, b.size)
    ensures forall b :: b in permanent ==> NotRam(m', b.0, b.1)
  {
    hide NotRam, E820.IsOverwrite, E820.LosesOnly, Tiles, RegionsApart, InTmpHigh, Keys;
    var e := zones[HIGH][|zones[HIGH]| - 1];
    forall b | b in KeysAll(zones)[HIGH] && 0 < b.size ensures NotRam(m', b.start, b.size) {
      LowestIsBelow(zones, regions, b);
      ReserveKeepsNotRam(m, m', ideal, e.start, giveback, E820.RAM, b.start, b.size);
    }
    forall b | b in permanent ensures NotRam(m', b.0, b.1) {
      LowestIsApart(zones, regions, b);
      ReserveKeepsNotRam(m, m', ideal, e.start, giveback, E820.RAM, b.0, b.1);
    }
  }

  /** Whole pages from the bottom of ZoneHigh up to its lowest block. */
  ghost predicate GivenBack(m: seq<E820.Entry>, m': seq<E820.Entry>, high: seq<Info>) {
    if high == [] then m' == m
    else
      var base := high[|high| - 1];
      E820.Added(m, m', base.start, AlignDown(base.end - base.start, PAGE_SIZE), E820.RAM)
  }

  /** The alignment of a PMM block: 16, or the lowest bit of the size where that is more. */
  function PmmAlign(size: nat, flags: nat): (a: nat)
    ensures IsPow2(a) && MALLOC_MIN_ALIGN <= a
    ensures a == MALLOC_MIN_ALIGN || (flags / 4 % 2 == 1 && size % a == 0 && size / a % 2 == 1)
    ensures size > 0 && flags / 4 % 2 == 1 ==> a % LowestBit(size) == 0
  {
    assert IsPow2(MALLOC_MIN_ALIGN) by { assert IsPow2(4) by { assert IsPow2(2); } }
    if size > 0 && flags / 4 % 2 == 1 then
      SmallerDivides(MALLOC_MIN_ALIGN, if LowestBit(size) <= MALLOC_MIN_ALIGN then LowestBit(size) else 1);
      DivMod(LowestBit(size), 1, LowestBit(size), 0);
      if MALLOC_MIN_ALIGN <= LowestBit(size) then LowestBit(size) else MALLOC_MIN_ALIGN
    else MALLOC_MIN_ALIGN
  }

  /** The record whose block starts at a new block's address is the new record. */
  lemma {:induction false} NewRecordFound(zones: seq<seq<Info>>, regions: seq<seq<Region>>, records: map<nat, Record>, data: nat, size: nat, d: nat)
    requires Consistent(zones, regions, records) && d in records && records[d].start == data && 0 < records[d].size
    ensures forall rec :: rec in records && records[rec].start == data && 0 < records[rec].size ==> rec == d
  {
    assert PairedRecord(d, KeysAll(zones), records);
    forall rec | rec in records && records[rec].start == data && 0 < records[rec].size ensures rec == d {
      assert PairedRecord(rec, KeysAll(zones), records);
      SameStartSameBlock(zones, regions, records[rec].zone, DataBlock(rec, records[rec]), records[d].zone, DataBlock(d, records[d]));
    }
  }

  lemma {:induction false} BlockInRegion(zones: seq<seq<Info>>, regions: seq<seq<Region>>, zi: nat, b: Block)
    requires AllTile(zones, regions) && RegionsApart(regions) && zi < 5 && b in KeysAll(zones)[zi]
    ensures exists k :: 0 <= k < |regions[zi]| && regions[zi][k].lo <= b.start && b.start + b.size <= regions[zi][k].hi
    ensures b.start + b.size < TWO32
  {
    KeysOf(zones[zi], b);
    var i :| 0 <= i < |zones[zi]| && zones[zi][i].Key() == b;
    EntryBounds(zones, regions, zi, i);
    var k := Inside(zones[zi], regions[zi], Top(regions[zi]), i);
    assert regions[zi][k].lo <= b.start && b.start + b.size <= regions[zi][k].hi;
  }

  lemma {:induction false} AlignIsFine(size: nat, align: nat)
    requires 0 < size < TWO31
    requires align == MALLOC_MIN_ALIGN || (align == LowestBit(size) && MALLOC_MIN_ALIGN <= align)
    ensures IsAlign(align)
  {
    assert IsPow2(MALLOC_MIN_ALIGN) by { assert IsPow2(4) by { assert IsPow2(2); } }
    Pow2IsAlign(align);
  }

  /** A multiple of a power of two is one of every smaller power of two. */
  lemma {:induction false} AlignedTo(data: nat, size: nat, align: nat)
    requires 0 < size && 0 < align
    requires align == MALLOC_MIN_ALIGN || (align == LowestBit(size) && MALLOC_MIN_ALIGN <= align)
    requires data % align == 0
    ensures data % MALLOC_MIN_ALIGN == 0
    ensures LowestBit(size) <= align ==> forall c: nat :: IsPow2(c) && 0 < c && size % c == 0 ==> data % c == 0
  {
    assert IsPow2(MALLOC_MIN_ALIGN) by { assert IsPow2(4) by { assert IsPow2(2); } }
    SmallerDivides(align, MALLOC_MIN_ALIGN);
    DividesThrough(data, align, MALLOC_MIN_ALIGN);
    if LowestBit(size) <= align {
      forall c: nat | IsPow2(c) && 0 < c && size % c == 0 ensures data % c == 0 {
        LowestBitLargest(size, c);
        SmallerDivides(align, c);
        DividesThrough(data, align, c);
      }
    }
  }

  lemma {:induction false} HighBlockIsNotRam(m: seq<E820.Entry>, zones: seq<seq<Info>>, regions: seq<seq<Region>>, b: Block)
    requires AllTile(zones, regions) && RegionsApart(regions) && b in KeysAll(zones)[HIGH]
    requires forall k :: 0 <= k < |regions[HIGH]| ==> NotRam(m, regions[HIGH][k].lo, regions[HIGH][k].hi - regions[HIGH][k].lo)
    ensures NotRam(m, b.start, b.size)
  {
    hide E820.TypeAt;
    BlockInRegion(zones, regions, HIGH, b);
    var k :| 0 <= k < |regions[HIGH]| && regions[HIGH][k].lo <= b.start && b.start + b.size <= regions[HIGH][k].hi;
    assert NotRam(m, regions[HIGH][k].lo, regions[HIGH][k].hi - regions[HIGH][k].lo);
  }

  lemma {:induction false} HighBlocksAreNotRam(m: seq<E820.Entry>, zones: seq<seq<Info>>, regions: seq<seq<Region>>)
    requires AllTile(zones, regions) && RegionsApart(regions)
    requires forall k :: 0 <= k < |regions[HIGH]| ==> NotRam(m, regions[HIGH][k].lo, regions[HIGH][k].hi - regions[HIGH][k].lo)
    ensures forall b :: b in KeysAll(zones)[HIGH] && 0 < b.size ==> NotRam(m, b.start, b.size)
  {
    hide NotRam, Tiles, RegionsApart, Keys;
    forall b | b in KeysAll(zones)[HIGH] && 0 < b.size ensures NotRam(m, b.start, b.size) {
      HighBlockIsNotRam(m, zones, regions, b);
    }
  }

  /** What alloc_find_lowest finds in ZoneHigh has its free part below all blocks. */
  lemma {:induction false} LowestIsBelow(zones: seq<seq<Info>>, regions: seq<seq<Region>>, b: Block)
    requires AllTile(zones, regions) && RegionsApart(regions) && b in KeysAll(zones)[HIGH] && 0 < b.size
    ensures zones[HIGH] != [] && zones[HIGH][|zones[HIGH]| - 1].end <= b.start
  {
    KeysOf(zones[HIGH], b);
    var i :| 0 <= i < |zones[HIGH]| && zones[HIGH][i].Key() == b;
    TilesSorted(zones[HIGH], regions[HIGH], Top(regions[HIGH]));
    LastIsBase(zones[HIGH], regions[HIGH], Top(regions[HIGH]));
  }

  lemma {:induction false} LastIsBase(z: seq<Info>, rs: seq<Region>, top: nat)
    requires TilesFrom(z, rs, top) && z != []
    ensures z[|z| - 1].size == 0
    decreases |z|
  {
    if |z| > 1 {
      if z[0].size == 0 { LastIsBase(z[1..], rs[1..], Top(rs[1..])); } else { LastIsBase(z[1..], rs, z[0].start); }
    } else {
      assert z[1..] == [];
    }
  }

  lemma {:induction false} LowestIsApart(zones: seq<seq<Info>>, regions: seq<seq<Region>>, b: (nat, nat))
    requires AllTile(zones, regions) && RegionsApart(regions) && zones[HIGH] != [] && InTmpHigh(regions, b)
    ensures var e := zones[HIGH][|zones[HIGH]| - 1]; b.0 + b.1 <= e.start || e.end <= b.0
  {
    var j := Inside(zones[HIGH], regions[HIGH], Top(regions[HIGH]), |zones[HIGH]| - 1);
    var k :| 0 <= k < |regions[TMPHIGH]| && regions[TMPHIGH][k].lo <= b.0 && b.0 + b.1 <= regions[TMPHIGH][k].hi;
    assert Apart(regions[TMPHIGH][k], regions[HIGH][j]);
  }

  /** With the BIOS segment reserved, RAM that reaches 1 MiB starts there. */
  lemma {:induction false} RamStartsAbove(m: seq<E820.Entry>, i: nat)
    requires E820.Canonical(m) && i < |m| && NotRam(m, BUILD_BIOS_ADDR, BUILD_BIOS_SIZE)
    requires m[i].typ == E820.RAM && 0x100000 <= m[i].End()
    ensures 0x100000 <= m[i].start
  {
    if m[i].Covers(0xFFFFF) { E820.TypeAtCovered(m, i, 0xFFFFF); }
  }
}
