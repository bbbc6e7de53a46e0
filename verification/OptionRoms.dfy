// The space from 0xc0000 up to the BIOS, shared by option ROMs growing upwards and ZoneLow
// blocks growing downwards (src/malloc.c, with CONFIG_MALLOC_UPPERMEMORY).

module OptionRoms {
  import opened Arith
  import opened Zones
  import opened Allocator

  const BUILD_ROM_START: nat := 0xc0000
  const OPTION_ROM_ALIGN: nat := 2048

  /** The regions with that of ZoneLow starting at `s`. */
  ghost function LowFrom(regions: seq<seq<Region>>, s: nat): seq<seq<Region>>
    requires |regions| == 5 && |regions[LOW]| == 1
  {
    regions[LOW := [regions[LOW][0].(lo := s)]]
  }

  /** The one region of ZoneLow could reach down to `floor`. */
  ghost predicate RoomDownTo(regions: seq<seq<Region>>, floor: nat) {
    && |regions| == 5 && |regions[LOW]| == 1 && 0 < floor <= regions[LOW][0].lo
    && RegionsApart(LowFrom(regions, floor))
  }

  lemma {:induction false} RoomInBetween(regions: seq<seq<Region>>, floor: nat, s: nat)
    requires RoomDownTo(regions, floor) && floor <= s <= regions[LOW][0].hi && RegionsApart(regions)
    ensures RegionsApart(LowFrom(regions, s)) && RoomDownTo(LowFrom(regions, s), floor)
  {
    var low, mid := LowFrom(regions, floor), LowFrom(regions, s);
    assert LowFrom(mid, floor) == low;
    forall i, j, k, m | 0 <= i < j < 5 && 0 <= k < |mid[i]| && 0 <= m < |mid[j]| ensures Apart(mid[i][k], mid[j][m]) {
      assert Apart(low[i][k], low[j][m]);
      assert Apart(regions[i][k], regions[j][m]);
    }
    assert forall i, k :: 0 <= i < 5 && 0 <= k < |mid[i]| ==> i == LOW || mid[i][k] == regions[i][k];
  }

  lemma {:induction false} LowFromSame(regions: seq<seq<Region>>)
    requires |regions| == 5 && |regions[LOW]| == 1
    ensures LowFrom(regions, regions[LOW][0].lo) == regions
  {
    var r := regions[LOW][0];
    assert r.(lo := r.lo) == r && regions[LOW] == [r];
  }

  lemma {:induction false} StartsRoomy(zones: seq<seq<Info>>, regions: seq<seq<Region>>, records: map<nat, Record>)
    requires Consistent(zones, regions, records) && |regions[LOW]| == 1
    ensures RoomDownTo(regions, regions[LOW][0].lo)
  {
    LowFromSame(regions);
    RegionBounds(regions, LOW, 0);
  }

  /** RomEnd and RomBase, on top of the allocator. */
  class Roms {
    const heap: Heap
    /** The linker symbol zonelow_base. */
    const zonelowBase: nat
    var romEnd: nat

    /** ZoneLow is one region down to zonelow_base at most. */
    ghost predicate LowIsSound()
      reads this, heap
    {
      && heap.Valid() && |heap.regions[LOW]| == 1 && RoomDownTo(heap.regions, zonelowBase + OPROM_HEADER_RESERVE)
      && zonelowBase + OPROM_HEADER_RESERVE <= RomStart()
    }

    ghost predicate Valid()
      reads this, heap
    {
      LowIsSound() && BUILD_ROM_START <= romEnd && romEnd + OPROM_HEADER_RESERVE <= RomStart()
    }

    /** malloc_init has given ZoneLow the range from zonelow_base + OPROM_HEADER_RESERVE on. */
    constructor (heap: Heap, zonelowBase: nat)
      requires heap.Valid() && |heap.regions[LOW]| == 1 && BUILD_ROM_START <= zonelowBase
      requires heap.regions[LOW][0].lo == zonelowBase + OPROM_HEADER_RESERVE
      ensures Valid() && this.heap == heap && romEnd == BUILD_ROM_START
    {
      hide Consistent, RoomDownTo;
      StartsRoomy(heap.zones, heap.regions, heap.records);
      this.heap := heap;
      this.zonelowBase := zonelowBase;
      romEnd := BUILD_ROM_START;
    }

    /** RomBase->range_start and ->range_end: RomBase is the lowest entry of ZoneLow. */
    ghost function RomStart(): nat
      reads heap
      requires heap.Valid() && |heap.regions[LOW]| == 1
    {
      heap.regions[LOW][0].lo
    }

    method RomBaseEnd() returns (e: nat)
      requires heap.Valid() && |heap.regions[LOW]| == 1
      ensures heap.zones[LOW] != [] && e == heap.zones[LOW][|heap.zones[LOW]| - 1].end
      ensures RomStart() <= e <= heap.regions[LOW][0].hi < TWO32
    {
      LowestIsBase(heap.zones, heap.regions);
      e := heap.zones[LOW][|heap.zones[LOW]| - 1].end;
    }

    /** rom_get_max */
    method GetMax() returns (m: nat)
      requires Valid()
      ensures heap.zones[LOW] != []
      ensures m % OPTION_ROM_ALIGN == 0
      ensures m + OPROM_HEADER_RESERVE <= heap.zones[LOW][|heap.zones[LOW]| - 1].end
      ensures forall a: nat | a % OPTION_ROM_ALIGN == 0 ::
                a + OPROM_HEADER_RESERVE <= heap.zones[LOW][|heap.zones[LOW]| - 1].end ==> a <= m
    {
      hide Consistent, RoomDownTo;
      var e := RomBaseEnd();
      AlignDownIs(e - OPROM_HEADER_RESERVE, OPTION_ROM_ALIGN);
      forall a: nat | a % OPTION_ROM_ALIGN == 0 && a + OPROM_HEADER_RESERVE <= e
        ensures a <= AlignDown(e - OPROM_HEADER_RESERVE, OPTION_ROM_ALIGN)
      {
        AlignDownLargest(e - OPROM_HEADER_RESERVE, OPTION_ROM_ALIGN, a);
      }
      m := AlignDown(e - OPROM_HEADER_RESERVE, OPTION_ROM_ALIGN);
    }

    /** What the low megabyte looks like in every reachable state: the option ROMs, then a
        header's worth of space, then the free part of ZoneLow, then its blocks. */
    lemma Separated()
      requires Valid()
      ensures var z := heap.zones[LOW]; z != [] && var base := z[|z| - 1];
              && romEnd + OPROM_HEADER_RESERVE <= base.start <= base.end
              && forall k :: 0 <= k < |z| - 1 ==> base.end <= z[k].start && 0 < z[k].size
    {
      LowestIsBase(heap.zones, heap.regions);
      var r := heap.regions[LOW][0];
      assert heap.regions[LOW] == [r];
      OneRegion(heap.zones[LOW], r, r.hi);
    }

    /** rom_reserve: space for `size` bytes above the last ROM, or no change. The rounded end wraps
        in 32 bits for sizes near 2^32; then the test can pass although there is no such space. */
    method Reserve(size: nat) returns (pos: nat)
      requires Valid() && size < TWO32
      modifies this, heap
      ensures LowIsSound() && romEnd == old(romEnd) && old(heap.zones)[LOW] != []
      ensures pos != 0 <==> NewRomEnd(romEnd, size) + OPROM_HEADER_RESERVE <= old(heap.zones[LOW][|heap.zones[LOW]| - 1].end)
      ensures pos == 0 ==> heap.regions == old(heap.regions) && heap.zones == old(heap.zones)
      ensures pos != 0 ==> pos == romEnd && RomStart() == OPROM_HEADER_RESERVE + Larger(NewRomEnd(romEnd, size), zonelowBase)
      ensures Valid() <==> pos == 0 || romEnd <= Larger(NewRomEnd(romEnd, size), zonelowBase)
      ensures romEnd + size <= NewRomEnd(romEnd, size) ==> Valid()
      ensures OnlyLowestMoved(old(heap.zones), heap.zones)
    {
      hide TilesFrom, Tiles, Keys, RegionsApart, Paired, RoomDownTo, KeysAll, OnlyLowestMoved, AlignDown;
      OnlyLowestSame(heap.zones);
      var newend := AlignDown((romEnd + size + (OPTION_ROM_ALIGN - 1)) % TWO32, OPTION_ROM_ALIGN);
      RoundedDown((romEnd + size + (OPTION_ROM_ALIGN - 1)) % TWO32);
      var max := GetMax();
      if newend > max {
        return 0;
      }
      if newend < zonelowBase {
        newend := zonelowBase;
      }
      var e := RomBaseEnd();
      MoveRomBase(newend + OPROM_HEADER_RESERVE);
      pos := romEnd;
    }

    /** RomBase->range_start = s */
    method MoveRomBase(s: nat)
      requires LowIsSound() && zonelowBase + OPROM_HEADER_RESERVE <= s
      requires heap.zones[LOW] != [] && s <= heap.zones[LOW][|heap.zones[LOW]| - 1].end
      modifies heap
      ensures LowIsSound() && RomStart() == s && OnlyLowestMoved(old(heap.zones), heap.zones)
    {
      hide TilesFrom, Tiles, Keys, RegionsApart, Paired, RoomDownTo, KeysAll;
      LowestIsBase(heap.zones, heap.regions);
      RoomInBetween(heap.regions, zonelowBase + OPROM_HEADER_RESERVE, s);
      heap.MoveLowestLow(s);
    }

    /** rom_confirm: the reserved space becomes a ROM. The state stays sound exactly when RomEnd
        does not fall below the start of the option ROM space. */
    method Confirm(size: nat) returns (ret: int)
      requires Valid() && size < TWO32
      modifies this, heap
      ensures LowIsSound() && (ret == 0 || ret == -1) && old(heap.zones)[LOW] != []
      ensures ret == 0 <==> NewRomEnd(old(romEnd), size) + OPROM_HEADER_RESERVE <= old(heap.zones[LOW][|heap.zones[LOW]| - 1].end)
      ensures ret == -1 ==> romEnd == old(romEnd) && heap.zones == old(heap.zones)
      ensures ret == 0 ==> romEnd == NewRomEnd(old(romEnd), size)
      ensures Valid() <==> ret == -1 || BUILD_ROM_START <= NewRomEnd(old(romEnd), size)
      ensures old(romEnd) + size <= NewRomEnd(old(romEnd), size) ==> Valid()
      ensures OnlyLowestMoved(old(heap.zones), heap.zones)
    {
      hide TilesFrom, Tiles, Keys, RegionsApart, Paired, RoomDownTo, KeysAll, AlignDown;
      var pos := Reserve(size);
      if pos == 0 {
        return -1;
      }
      RoundedDown((romEnd + size + (OPTION_ROM_ALIGN - 1)) % TWO32);
      romEnd := AlignDown((romEnd + size + (OPTION_ROM_ALIGN - 1)) % TWO32, OPTION_ROM_ALIGN);
      ret := 0;
    }

    /** Allocating from any zone in between keeps the order. */
    method Alloc(zi: nat, size: nat, align: nat) returns (data: nat)
      requires Valid() && zi < 5 && size + align <= TWO32 && IsAlign(align)
      modifies heap
      ensures Valid() && romEnd == old(romEnd) && heap.regions == old(heap.regions)
      ensures data == 0 <==> Refuses(old(heap.zones), zi, size, align)
      ensures data == 0 ==> heap.zones == old(heap.zones)
      ensures data != 0 ==> data % align == 0 && exists k: nat :: FirstFit(old(heap.zones)[zi], k, data, size, align)
      ensures data != 0 && zi == LOW ==> romEnd + OPROM_HEADER_RESERVE <= data
    {
      hide TilesFrom, Tiles, Keys, RegionsApart, Paired, RoomDownTo;
      ghost var d, tz;
      data, d, tz := heap.Palloc(zi, size, align);
      if data != 0 && zi == LOW {
        BlockAboveRegion(heap.zones, heap.regions, Block(data, size, Data, d));
      }
    }

    method Free(data: nat) returns (ret: int)
      requires Valid()
      modifies heap
      ensures Valid() && romEnd == old(romEnd) && heap.regions == old(heap.regions)
      ensures if Freeable(old(heap.zones), data) then ret == 0 else ret == -1 && heap.zones == old(heap.zones)
    {
      ghost var zi, b, tz;
      ret, zi, b, tz := heap.Pfree(data);
    }
  }

  function Larger(a: int, b: int): int { if a < b then b else a }

  /** ALIGN(RomEnd + size, OPTION_ROM_ALIGN) in 32 bits */
  function NewRomEnd(romEnd: nat, size: nat): int {
    AlignDown((romEnd + size + (OPTION_ROM_ALIGN - 1)) % TWO32, OPTION_ROM_ALIGN)
  }

  lemma RoundedDown(x: nat)
    ensures AlignDown(x, OPTION_ROM_ALIGN) % OPTION_ROM_ALIGN == 0 && 0 <= AlignDown(x, OPTION_ROM_ALIGN) <= x
  {
    AlignDownIs(x, OPTION_ROM_ALIGN);
    AlignDownLargest(x, OPTION_ROM_ALIGN, 0);
  }

  /** The new end leaves room for the ROM if and only if the sum does not wrap; then it is the
      next multiple of 2048. */
  lemma {:induction false} SafeRomSizes(romEnd: nat, size: nat)
    requires romEnd < TWO32 && size < TWO32
    ensures romEnd + size <= NewRomEnd(romEnd, size) <==> romEnd + size + OPTION_ROM_ALIGN <= TWO32
    ensures romEnd + size + OPTION_ROM_ALIGN <= TWO32 ==> NewRomEnd(romEnd, size) == AlignUp(romEnd + size, OPTION_ROM_ALIGN)
  {
    var x := romEnd + size + (OPTION_ROM_ALIGN - 1);
    WrappedOnce(x);
    hide AlignDown;
    AlignDownIs(x % TWO32, OPTION_ROM_ALIGN);
  }

  lemma WrappedOnce(x: nat)
    ensures x < TWO32 ==> x % TWO32 == x
    ensures x >= TWO32 ==> x % TWO32 <= x - TWO32
  {
  }

  /** Such a size: the first ROM's end would lie below the space for option ROMs. */
  lemma WrappedRom()
    ensures NewRomEnd(BUILD_ROM_START, 0xFFFF_F800) == 0xb_f800 < BUILD_ROM_START
  {}

  /** The entries with payloads stay as they are. */
  ghost predicate OnlyLowestMoved(z: seq<seq<Info>>, z': seq<seq<Info>>) {
    && |z| == |z'| == 5 && |z[LOW]| == |z'[LOW]|
    && (forall i :: 0 <= i < 5 && i != LOW ==> z'[i] == z[i])
    && (forall k :: 0 <= k < |z[LOW]| - 1 ==> z'[LOW][k] == z[LOW][k])
  }

  lemma {:induction false} OnlyLowestSame(z: seq<seq<Info>>)
    requires |z| == 5
    ensures OnlyLowestMoved(z, z)
  {}

  lemma {:induction false} BlockAboveRegion(zones: seq<seq<Info>>, regions: seq<seq<Region>>, b: Block)
    requires AllTile(zones, regions) && RegionsApart(regions) && |regions[LOW]| == 1 && b in KeysAll(zones)[LOW]
    ensures regions[LOW][0].lo <= b.start
  {
    KeysOf(zones[LOW], b);
    var k :| 0 <= k < |zones[LOW]| && zones[LOW][k].Key() == b;
    var j := Inside(zones[LOW], regions[LOW], Top(regions[LOW]), k);
  }

  lemma {:induction false} LowestIsBase(zones: seq<seq<Info>>, regions: seq<seq<Region>>)
    requires AllTile(zones, regions) && RegionsApart(regions) && |regions[LOW]| == 1
    ensures zones[LOW] != []
    ensures var b := zones[LOW][|zones[LOW]| - 1];
            b.start == regions[LOW][0].lo <= b.end <= regions[LOW][0].hi < TWO32 && b.size == 0
    ensures forall k :: 0 <= k < |zones[LOW]| - 1 ==> zones[LOW][|zones[LOW]| - 1].end <= zones[LOW][k].start
  {
    var r := regions[LOW][0];
    assert regions[LOW] == [r];
    OneRegion(zones[LOW], r, r.hi);
    EntryBounds(zones, regions, LOW, |zones[LOW]| - 1);
    TilesSorted(zones[LOW], regions[LOW], r.hi);
  }
}
