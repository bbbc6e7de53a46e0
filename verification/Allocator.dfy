// Dynamic memory of the BIOS: alloc_new, alloc_add, alloc_free and the tracked allocations
// of src/malloc.c, whose bookkeeping records live in the zones they describe.

module Allocator {
  import opened Arith
  import opened Zones

  const MALLOC_MIN_ALIGN: nat := 16
  /** sizeof(struct allocdetail_s), and the offset of its `datainfo`. */
  const DETAIL_SIZE: nat := 44
  const DATAINFO_OFFSET: nat := 20
  const DEFAULT_HANDLE: nat := 0xFFFF_FFFF
  const OPROM_HEADER_RESERVE: nat := 16

  /** Zones[], in the order alloc_find searches them. */
  const TMPLOW: nat := 0
  const LOW: nat := 1
  const FSEG: nat := 2
  const TMPHIGH: nat := 3
  const HIGH: nat := 4

  /** The owner of an entry whose record is still on the caller's stack. */
  const TEMP: nat := 0

  // ---- Placement of one block ----

  function Sub32(a: nat, b: nat): nat
    requires a < TWO32 && b < TWO32
  {
    if a >= b then a - b else a + TWO32 - b
  }

  /** A power of two that a u32 can hold, up to 2^31. */
  predicate IsAlign(a: nat) { 0 < a && TWO31 % a == 0 }

  /** new_range_end of alloc_new. */
  function NewEnd(e: Info, size: nat, align: nat): int
    requires e.end < TWO32 && size < TWO32 && IsAlign(align)
  {
    AlignDown(Sub32(e.end, size), align)
  }

  predicate Fits(e: Info, size: nat, align: nat)
    requires e.end < TWO32 && size < TWO32 && IsAlign(align)
  {
    e.start + e.size <= NewEnd(e, size, align) <= e.end
  }

  /** There is an aligned place for `size` bytes in the free part of `e`. */
  ghost predicate Room(e: Info, size: nat, align: nat)
    requires 0 < align
  {
    exists a: nat :: a % align == 0 && e.start + e.size <= a && a + size <= e.end
  }

  /** The wrap-around test is exact for a size that leaves room for the alignment below 2^32:
      alloc_new takes an entry if and only if it has room, and then uses the highest place. */
  lemma FitsIsRoom(e: Info, size: nat, align: nat)
    requires e.start + e.size <= e.end < TWO32 && 0 < size && size + align <= TWO32 && IsAlign(align)
    ensures Fits(e, size, align) <==> Room(e, size, align)
    ensures Fits(e, size, align) ==> NewEnd(e, size, align) % align == 0 && NewEnd(e, size, align) + size <= e.end
    ensures forall a: nat :: a % align == 0 && a + size <= e.end ==> a <= NewEnd(e, size, align)
  {
    var x := Sub32(e.end, size);
    AlignDownIs(x, align);
    if size <= e.end {
      forall a: nat | a % align == 0 && a + size <= e.end ensures a <= NewEnd(e, size, align) {
        AlignDownLargest(x, align, a);
      }
    }
  }

  lemma AlignBound(align: nat)
    requires IsAlign(align)
    ensures align <= TWO31
  {}

  /** Any larger size lets a wrapped block through somewhere: the bound is exact. */
  lemma {:induction false} SafeSizes(size: nat, align: nat)
    requires 0 < size < TWO32 && IsAlign(align)
    ensures size + align <= TWO32 <==>
            forall e: Info :: e.start + e.size <= e.end < TWO32 ==> (Fits(e, size, align) <==> Room(e, size, align))
  {
    if size + align <= TWO32 {
      forall e: Info | e.start + e.size <= e.end < TWO32 ensures Fits(e, size, align) <==> Room(e, size, align) {
        FitsIsRoom(e, size, align);
      }
    } else {
      AlignBound(align);
      var e := Info(1, align, 0, Data, 1);
      DivMod(align + (TWO32 - size), 1, align, TWO32 - size);
      assert Fits(e, size, align) && !Room(e, size, align);
    }
  }

  // ---- The whole state ----

  /** What an allocdetail_s records about its data block. */
  datatype Record = Record(zone: nat, start: nat, size: nat, handle: nat)

  function DataBlock(rec: nat, r: Record): Block { Block(r.start, r.size, Data, rec) }

  function DetailBlock(rec: nat): Block { Block(rec, DETAIL_SIZE, Detail, rec) }

  predicate HoldsDetails(i: nat) { i == TMPLOW || i == TMPHIGH }

  /** Blocks and records belong together one to one: the record of every data block (and of
      every region) is itself a block of a temporary zone, and describes it. */
  ghost predicate Paired(keys: seq<set<Block>>, records: map<nat, Record>) {
    && |keys| == 5 && TEMP !in records
    && (forall i, b :: 0 <= i < 5 && b in keys[i] ==> PairedBlock(i, b, records))
    && (forall rec :: rec in records ==> PairedRecord(rec, keys, records))
  }

  ghost predicate PairedBlock(i: nat, b: Block, records: map<nat, Record>) {
    && b.rec in records
    && if b.kind == Detail then HoldsDetails(i) && b == DetailBlock(b.rec)
       else records[b.rec].zone == i && b == DataBlock(b.rec, records[b.rec])
  }

  ghost predicate PairedRecord(rec: nat, keys: seq<set<Block>>, records: map<nat, Record>)
    requires |keys| == 5 && rec in records
  {
    && (DetailBlock(rec) in keys[TMPLOW] || DetailBlock(rec) in keys[TMPHIGH])
    && records[rec].zone < 5 && DataBlock(rec, records[rec]) in keys[records[rec].zone]
  }

  function AddKey(keys: seq<set<Block>>, i: nat, b: Block): seq<set<Block>>
    requires i < |keys|
  {
    keys[i := keys[i] + {b}]
  }

  function DropKey(keys: seq<set<Block>>, i: nat, b: Block): seq<set<Block>>
    requires i < |keys|
  {
    keys[i := keys[i] - {b}]
  }

  /** A new data block with its new record. */
  lemma {:induction false} AddPaired(keys: seq<set<Block>>, records: map<nat, Record>, d: nat, tz: nat, r: Record)
    requires Paired(keys, records) && d !in records && d != TEMP && HoldsDetails(tz) && r.zone < 5
    ensures Paired(AddKey(AddKey(keys, r.zone, DataBlock(d, r)), tz, DetailBlock(d)), records[d := r])
  {
    var keys' := AddKey(AddKey(keys, r.zone, DataBlock(d, r)), tz, DetailBlock(d));
    var records' := records[d := r];
    forall i, b | 0 <= i < 5 && b in keys'[i] ensures PairedBlock(i, b, records') {
      if b in keys[i] { assert PairedBlock(i, b, records); }
    }
    forall rec | rec in records' ensures PairedRecord(rec, keys', records') {
      if rec != d { assert PairedRecord(rec, keys, records); }
    }
  }

  /** A data block leaves together with its record. */
  lemma {:induction false} DropPaired(keys: seq<set<Block>>, records: map<nat, Record>, d: nat, tz: nat)
    requires Paired(keys, records) && d in records && HoldsDetails(tz)
    requires DetailBlock(d) in keys[tz] && forall i :: 0 <= i < 5 && DetailBlock(d) in keys[i] ==> i == tz
    ensures records[d].zone < 5
    ensures Paired(DropKey(DropKey(keys, records[d].zone, DataBlock(d, records[d])), tz, DetailBlock(d)), records - {d})
  {
    assert PairedRecord(d, keys, records);
    var r := records[d];
    var keys' := DropKey(DropKey(keys, r.zone, DataBlock(d, r)), tz, DetailBlock(d));
    var records' := records - {d};
    forall i, b | 0 <= i < 5 && b in keys'[i] ensures PairedBlock(i, b, records') {
      assert b in keys[i] && PairedBlock(i, b, records);
      assert b.rec == d ==> (b == DetailBlock(d) && i == tz) || (b == DataBlock(d, r) && i == r.zone);
    }
    forall rec | rec in records' ensures PairedRecord(rec, keys', records') {
      assert PairedRecord(rec, keys, records);
    }
  }

  ghost function KeysAll(zones: seq<seq<Info>>): (k: seq<set<Block>>)
    ensures |k| == |zones|
  {
    seq(|zones|, i requires 0 <= i < |zones| => Keys(zones[i]))
  }

  ghost predicate RegionsApart(regions: seq<seq<Region>>) {
    && (forall i :: 0 <= i < |regions| ==> Descending(regions[i]))
    && (forall i, k :: 0 <= i < |regions| && 0 <= k < |regions[i]| ==> 0 < regions[i][k].lo && regions[i][k].hi < TWO32)
    && (forall i, j, k, m :: 0 <= i < j < |regions| && 0 <= k < |regions[i]| && 0 <= m < |regions[j]| ==>
          Apart(regions[i][k], regions[j][m]))
  }

  ghost predicate AllTile(zones: seq<seq<Info>>, regions: seq<seq<Region>>) {
    && |zones| == |regions| == 5
    && forall i :: 0 <= i < 5 ==> Tiles(zones[i], regions[i])
  }

  /** Every reachable state: the zones tile regions that are apart, and blocks and records
      are paired. */
  ghost predicate Consistent(zones: seq<seq<Info>>, regions: seq<seq<Region>>, records: map<nat, Record>) {
    AllTile(zones, regions) && RegionsApart(regions) && Paired(KeysAll(zones), records)
  }

  /** A zone list has no other memory than its regions and its blocks: two states that agree
      on those have the very same lists, however they came about. */
  lemma {:induction false} BlocksDetermineZones(zones: seq<seq<Info>>, zones': seq<seq<Info>>, regions: seq<seq<Region>>)
    requires AllTile(zones, regions) && AllTile(zones', regions) && RegionsApart(regions)
    requires KeysAll(zones) == KeysAll(zones')
    ensures zones == zones'
  {
    forall i | 0 <= i < 5 ensures zones[i] == zones'[i] {
      assert KeysAll(zones)[i] == KeysAll(zones')[i];
      TilesUnique(zones[i], zones'[i], regions[i], Top(regions[i]));
    }
  }

  predicate Disjoint(a: Info, b: Info) { a.start + a.size <= b.start || b.start + b.size <= a.start }

  /** All payloads, data blocks and records alike and in whatever zones, are disjoint. */
  lemma {:induction false} PayloadsDisjoint(zones: seq<seq<Info>>, regions: seq<seq<Region>>, i: nat, k: nat, j: nat, m: nat)
    requires AllTile(zones, regions) && RegionsApart(regions)
    requires i < 5 && k < |zones[i]| && j < 5 && m < |zones[j]| && (i != j || k != m)
    ensures Disjoint(zones[i][k], zones[j][m])
  {
    if i == j {
      TilesSorted(zones[i], regions[i], Top(regions[i]));
    } else {
      TilesSorted(zones[i], regions[i], Top(regions[i]));
      TilesSorted(zones[j], regions[j], Top(regions[j]));
      var p := Inside(zones[i], regions[i], Top(regions[i]), k);
      var q := Inside(zones[j], regions[j], Top(regions[j]), m);
      assert if i < j then Apart(regions[i][p], regions[j][q]) else Apart(regions[j][q], regions[i][p]);
    }
  }

  /** Live data blocks that start at one address are one block. */
  lemma {:induction false} SameStartSameBlock(zones: seq<seq<Info>>, regions: seq<seq<Region>>, i: nat, b: Block, j: nat, c: Block)
    requires AllTile(zones, regions) && RegionsApart(regions)
    requires i < 5 && b in KeysAll(zones)[i] && 0 < b.size && j < 5 && c in KeysAll(zones)[j] && 0 < c.size
    requires b.start == c.start
    ensures b == c
  {
    KeysOf(zones[i], b);
    KeysOf(zones[j], c);
    var k :| 0 <= k < |zones[i]| && zones[i][k].Key() == b;
    var m :| 0 <= m < |zones[j]| && zones[j][m].Key() == c;
    if i != j || k != m { PayloadsDisjoint(zones, regions, i, k, j, m); }
  }

  lemma {:induction false} EntryBounds(zones: seq<seq<Info>>, regions: seq<seq<Region>>, i: nat, k: nat)
    requires AllTile(zones, regions) && RegionsApart(regions) && i < 5 && k < |zones[i]|
    ensures 0 < zones[i][k].start && zones[i][k].start + zones[i][k].size <= zones[i][k].end < TWO32
  {
    TilesSorted(zones[i], regions[i], Top(regions[i]));
    var p := Inside(zones[i], regions[i], Top(regions[i]), k);
    assert 0 < regions[i][p].lo;
  }

  // ---- From the stack to the heap: alloc_new_detail's memcpy and hlist_replace ----

  function Moved(rec: nat, d: nat): nat { if rec == TEMP then d else rec }

  /** The list once the entries of the stack record live at `d`. */
  function Retarget(z: seq<Info>, d: nat): seq<Info> {
    seq(|z|, i requires 0 <= i < |z| => z[i].(rec := Moved(z[i].rec, d)))
  }

  function RetargetRegions(rs: seq<Region>, d: nat): seq<Region> {
    seq(|rs|, i requires 0 <= i < |rs| => rs[i].(rec := Moved(rs[i].rec, d)))
  }

  function RetargetAll(zones: seq<seq<Info>>, d: nat): seq<seq<Info>> {
    seq(|zones|, i requires 0 <= i < |zones| => Retarget(zones[i], d))
  }

  ghost function Rename(s: set<Block>, d: nat): set<Block> { set b | b in s :: b.(rec := Moved(b.rec, d)) }

  lemma {:induction false} RetargetTiles(z: seq<Info>, rs: seq<Region>, top: nat, d: nat)
    requires TilesFrom(z, rs, top)
    ensures TilesFrom(Retarget(z, d), RetargetRegions(rs, d), top)
    decreases |z|
  {
    if rs != [] {
      var e := z[0].(rec := Moved(z[0].rec, d));
      assert Retarget(z, d) == [e] + Retarget(z[1..], d);
      if z[0].size == 0 {
        RetargetTiles(z[1..], rs[1..], Top(rs[1..]), d);
        assert RetargetRegions(rs, d) == [rs[0].(rec := Moved(rs[0].rec, d))] + RetargetRegions(rs[1..], d);
        ConsBase(e, Retarget(z[1..], d), RetargetRegions(rs[1..], d), rs[0].(rec := Moved(rs[0].rec, d)));
      } else {
        RetargetTiles(z[1..], rs, z[0].start, d);
        ConsBlock(e, Retarget(z[1..], d), RetargetRegions(rs, d));
      }
    }
  }

  lemma {:induction false} RetargetKeys(z: seq<Info>, d: nat)
    ensures Keys(Retarget(z, d)) == Rename(Keys(z), d)
  {
    var t := Retarget(z, d);
    forall b: Block ensures b in Keys(t) <==> b in Rename(Keys(z), d) {
      KeysOf(t, b);
      if b in Keys(t) {
        var i :| 0 <= i < |t| && t[i].Key() == b;
        KeysOf(z, z[i].Key());
        assert z[i].Key() in Keys(z);
      }
      if b in Rename(Keys(z), d) {
        var a :| a in Keys(z) && b == a.(rec := Moved(a.rec, d));
        KeysOf(z, a);
        var i :| 0 <= i < |z| && z[i].Key() == a;
        assert t[i].Key() == b;
      }
    }
  }

  /** Renaming touches only the blocks of the stack record. */
  lemma {:induction false} RenameAdded(s: set<Block>, b: Block, d: nat)
    requires forall a :: a in s ==> a.rec != TEMP
    ensures Rename(s, d) == s && Rename(s + {b}, d) == s + {b.(rec := Moved(b.rec, d))}
  {
    assert Rename(s, d) == s by {
      forall a: Block ensures a in Rename(s, d) <==> a in s {
        if a in s { assert a == a.(rec := Moved(a.rec, d)); }
      }
    }
    forall a: Block ensures a in Rename(s + {b}, d) <==> a in s + {b.(rec := Moved(b.rec, d))} {
      if a in s { assert a in s + {b} && a == a.(rec := Moved(a.rec, d)); }
    }
  }

  lemma {:induction false} RenameUnion(s: set<Block>, t: set<Block>, d: nat)
    ensures Rename(s + t, d) == Rename(s, d) + Rename(t, d)
  {}

  function RetargetRegionsAll(regions: seq<seq<Region>>, d: nat): seq<seq<Region>> {
    seq(|regions|, i requires 0 <= i < |regions| => RetargetRegions(regions[i], d))
  }

  /** One block is linked in whose record is still on the stack; all else is paired. */
  ghost predicate Pending(zones: seq<seq<Info>>, regions: seq<seq<Region>>, records: map<nat, Record>,
                          keys: seq<set<Block>>, zi: nat, start: nat, size: nat) {
    && AllTile(zones, regions) && RegionsApart(regions) && Paired(keys, records) && zi < 5
    && KeysAll(zones) == AddKey(keys, zi, Block(start, size, Data, TEMP))
  }

  lemma {:induction false} KeysUpdate(zones: seq<seq<Info>>, i: nat, z: seq<Info>)
    requires i < |zones|
    ensures KeysAll(zones[i := z]) == KeysAll(zones)[i := Keys(z)]
  {}

  /** What the move does to the blocks of every zone. */
  lemma {:induction false} RetargetAllKeys(zones: seq<seq<Info>>, keys: seq<set<Block>>, records: map<nat, Record>,
                                           zi: nat, b: Block, tz: nat, c: Block, d: nat)
    requires Paired(keys, records) && |zones| == 5 && zi < 5 && tz < 5
    requires KeysAll(zones) == AddKey(AddKey(keys, zi, b), tz, c)
    ensures KeysAll(RetargetAll(zones, d)) ==
            AddKey(AddKey(keys, zi, b.(rec := Moved(b.rec, d))), tz, c.(rec := Moved(c.rec, d)))
  {
    hide Rename, Keys;
    var b', c' := b.(rec := Moved(b.rec, d)), c.(rec := Moved(c.rec, d));
    var keys' := AddKey(AddKey(keys, zi, b'), tz, c');
    forall i | 0 <= i < 5 ensures KeysAll(RetargetAll(zones, d))[i] == keys'[i] {
      RetargetKeys(zones[i], d);
      forall a | a in keys[i] ensures a.rec != TEMP { assert PairedBlock(i, a, records); }
      assert KeysAll(zones)[i] == AddKey(AddKey(keys, zi, b), tz, c)[i] == Keys(zones[i]);
      RenameAdded(keys[i], b, d);
      RenameAdded(keys[i], c, d);
      RenameUnion(keys[i] + {b}, keys[i] + {c}, d);
      assert (keys[i] + {b}) + (keys[i] + {c}) == keys[i] + {b} + {c};
      assert (keys[i] + {b'}) + (keys[i] + {c'}) == keys[i] + {b'} + {c'};
    }
  }

  /** Every region has its lowest entry in the list. */
  lemma {:induction false} RegionHasKey(z: seq<Info>, rs: seq<Region>, top: nat, j: nat)
    requires TilesFrom(z, rs, top) && j < |rs|
    ensures Block(rs[j].lo, 0, Data, rs[j].rec) in Keys(z)
    decreases |z|
  {
    assert z == [z[0]] + z[1..];
    KeysConcat([z[0]], z[1..]);
    KeysOne(z[0]);
    if z[0].size != 0 {
      RegionHasKey(z[1..], rs, z[0].start, j);
    } else if j > 0 {
      RegionHasKey(z[1..], rs[1..], Top(rs[1..]), j - 1);
    }
  }

  lemma {:induction false} RetargetAllTile(zones: seq<seq<Info>>, regions: seq<seq<Region>>, d: nat)
    requires AllTile(zones, regions)
    ensures AllTile(RetargetAll(zones, d), RetargetRegionsAll(regions, d))
  {
    forall i | 0 <= i < 5 ensures Tiles(RetargetAll(zones, d)[i], RetargetRegionsAll(regions, d)[i]) {
      RetargetTiles(zones[i], regions[i], Top(regions[i]), d);
    }
  }

  /** The record of a region is a known one, or the one on the stack. */
  lemma {:induction false} RegionRecord(zones: seq<seq<Info>>, regions: seq<seq<Region>>, records: map<nat, Record>,
                                        keys: seq<set<Block>>, zi: nat, start: nat, size: nat, i: nat, j: nat)
    requires Pending(zones, regions, records, keys, zi, start, size) && i < 5 && j < |regions[i]|
    ensures regions[i][j].rec in records || (regions[i][j].rec == TEMP && i == zi && size == 0)
  {
    var b := Block(regions[i][j].lo, 0, Data, regions[i][j].rec);
    RegionHasKey(zones[i], regions[i], Top(regions[i]), j);
    assert b in KeysAll(zones)[i];
    if b in keys[i] { assert PairedBlock(i, b, records); }
  }

  lemma {:induction false} RetargetRegionsApart(zones: seq<seq<Info>>, regions: seq<seq<Region>>, records: map<nat, Record>,
                                                keys: seq<set<Block>>, zi: nat, start: nat, size: nat, d: nat)
    requires Pending(zones, regions, records, keys, zi, start, size) && d !in records
    ensures RegionsApart(RetargetRegionsAll(regions, d))
    ensures 0 < size ==> RetargetRegionsAll(regions, d) == regions
  {
    var regions' := RetargetRegionsAll(regions, d);
    forall i | 0 <= i < 5
      ensures Descending(regions'[i])
      ensures 0 < size ==> regions'[i] == regions[i]
    {
      forall j | 0 <= j < |regions[i]| ensures regions[i][j].rec in records || regions[i][j].rec == TEMP {
        RegionRecord(zones, regions, records, keys, zi, start, size, i, j);
      }
      if 0 < size {
        forall j | 0 <= j < |regions[i]| ensures regions[i][j].rec != TEMP {
          RegionRecord(zones, regions, records, keys, zi, start, size, i, j);
        }
      }
    }
  }

  /** The state before the record moves off the stack: a place for it at entry `k` of `tz`. */
  ghost predicate BothPending(zones: seq<seq<Info>>, regions: seq<seq<Region>>, records: map<nat, Record>,
                              keys: seq<set<Block>>, zi: nat, start: nat, size: nat, tz: nat, k: nat) {
    && AllTile(zones, regions) && RegionsApart(regions) && Paired(keys, records) && zi < 5
    && HoldsDetails(tz) && k < |zones[tz]| && zones[tz][k].size == DETAIL_SIZE && zones[tz][k].rec == TEMP
    && KeysAll(zones) == AddKey(AddKey(keys, zi, Block(start, size, Data, TEMP)), tz,
                                Block(zones[tz][k].start, DETAIL_SIZE, Detail, TEMP))
  }

  /** The space just taken for a record holds no record yet. */
  lemma {:induction false} FreshDetail(zones: seq<seq<Info>>, regions: seq<seq<Region>>, records: map<nat, Record>,
                                       keys: seq<set<Block>>, zi: nat, start: nat, size: nat, tz: nat, k: nat)
    requires BothPending(zones, regions, records, keys, zi, start, size, tz, k)
    ensures zones[tz][k].start !in records
  {
    var d := zones[tz][k].start;
    if d in records {
      assert PairedRecord(d, keys, records);
      var i := if DetailBlock(d) in keys[TMPLOW] then TMPLOW else TMPHIGH;
      KeysOf(zones[i], DetailBlock(d));
      assert DetailBlock(d) in KeysAll(zones)[i];
      var m :| 0 <= m < |zones[i]| && zones[i][m].Key() == DetailBlock(d);
      assert zones[i][m].rec == d;
      EntryBounds(zones, regions, tz, k);
      PayloadsDisjoint(zones, regions, i, m, tz, k);
    }
  }

  /** After the move the state is consistent again, with one block and its record more. */
  lemma {:induction false} MoveConsistent(zones: seq<seq<Info>>, regions: seq<seq<Region>>, records: map<nat, Record>,
                                          keys: seq<set<Block>>, zi: nat, start: nat, size: nat, tz: nat, k: nat)
    requires BothPending(zones, regions, records, keys, zi, start, size, tz, k)
    requires RegionsApart(RetargetRegionsAll(regions, zones[tz][k].start))
    ensures var d := zones[tz][k].start;
            var r := Record(zi, start, size, DEFAULT_HANDLE);
            && d !in records && d != TEMP
            && Consistent(RetargetAll(zones, d), RetargetRegionsAll(regions, d), records[d := r])
            && KeysAll(RetargetAll(zones, d)) == AddKey(AddKey(keys, zi, DataBlock(d, r)), tz, DetailBlock(d))
  {
    var d := zones[tz][k].start;
    var r := Record(zi, start, size, DEFAULT_HANDLE);
    FreshDetail(zones, regions, records, keys, zi, start, size, tz, k);
    EntryBounds(zones, regions, tz, k);
    RetargetAllTile(zones, regions, d);
    RetargetAllKeys(zones, keys, records, zi, Block(start, size, Data, TEMP), tz, Block(d, DETAIL_SIZE, Detail, TEMP), d);
    AddPaired(keys, records, d, tz, r);
  }

  lemma {:induction false} ReserveAll(zones: seq<seq<Info>>, regions: seq<seq<Region>>, i: nat, k: nat, addr: nat, size: nat, kind: Kind)
    requires AllTile(zones, regions) && RegionsApart(regions) && i < 5 && k < |zones[i]| && 0 < size
    requires zones[i][k].start + zones[i][k].size <= addr && addr + size <= zones[i][k].end
    ensures var zones' := zones[i := Reserve(zones[i], k, addr, size, kind, TEMP)];
            AllTile(zones', regions) && KeysAll(zones') == AddKey(KeysAll(zones), i, Block(addr, size, kind, TEMP))
  {
    ReserveTiles(zones[i], regions[i], Top(regions[i]), k, addr, size, kind, TEMP);
    ReserveKeys(zones[i], k, addr, size, kind, TEMP);
    KeysUpdate(zones, i, Reserve(zones[i], k, addr, size, kind, TEMP));
  }

  lemma {:induction false} ReleaseAll(zones: seq<seq<Info>>, regions: seq<seq<Region>>, i: nat, k: nat)
    requires AllTile(zones, regions) && RegionsApart(regions) && i < 5 && k < |zones[i]| && 0 < zones[i][k].size
    ensures var zones' := zones[i := Release(zones[i], k)];
            AllTile(zones', regions) && KeysAll(zones') == DropKey(KeysAll(zones), i, zones[i][k].Key())
  {
    TilesSorted(zones[i], regions[i], Top(regions[i]));
    ReleaseTiles(zones[i], regions[i], Top(regions[i]), k);
    ReleaseKeys(zones[i], k);
    KeysUpdate(zones, i, Release(zones[i], k));
  }

  /** Some entry of the zone has room for the block. */
  ghost predicate ZoneHasRoom(z: seq<Info>, size: nat, align: nat)
    requires 0 < align
  {
    exists k :: 0 <= k < |z| && Room(z[k], size, align)
  }

  /** Entry `k` is the first with room, and `addr` the highest place in it. */
  ghost predicate FirstFit(z: seq<Info>, k: nat, addr: nat, size: nat, align: nat)
    requires 0 < align
  {
    && k < |z| && Room(z[k], size, align) && (forall j :: 0 <= j < k ==> !Room(z[j], size, align))
    && addr % align == 0 && z[k].start + z[k].size <= addr && addr + size <= z[k].end
    && (forall a: nat :: a % align == 0 && a + size <= z[k].end ==> a <= addr)
  }

  /** No zone for records has room for one more. */
  ghost predicate RecordsFull(zones: seq<seq<Info>>)
    requires |zones| == 5
  {
    !ZoneHasRoom(zones[TMPHIGH], DETAIL_SIZE, MALLOC_MIN_ALIGN) && !ZoneHasRoom(zones[TMPLOW], DETAIL_SIZE, MALLOC_MIN_ALIGN)
  }

  /** The zone in which alloc_new_detail finds room for a record. */
  ghost function HomeOf(zones: seq<seq<Info>>): (tz: nat)
    requires |zones| == 5
    ensures HoldsDetails(tz)
  {
    if ZoneHasRoom(zones[TMPHIGH], DETAIL_SIZE, MALLOC_MIN_ALIGN) then TMPHIGH else TMPLOW
  }

  /** The record of the entry with the stack record has moved to `d`, the first fit there. */
  ghost predicate Homed(zones: seq<seq<Info>>, zones': seq<seq<Info>>, d: nat, tz: nat)
    requires |zones| == 5
  {
    && tz == HomeOf(zones)
    && exists k: nat :: FirstFit(zones[tz], k, d, DETAIL_SIZE, MALLOC_MIN_ALIGN)
                        && zones' == RetargetAll(zones[tz := Reserve(zones[tz], k, d, DETAIL_SIZE, Detail, TEMP)], d)
  }

  lemma {:induction false} FirstFitUnique(z: seq<Info>, size: nat, align: nat, k: nat, a: nat, k': nat, a': nat)
    requires 0 < align && FirstFit(z, k, a, size, align) && FirstFit(z, k', a', size, align)
    ensures k == k' && a == a'
  {
    assert !(k < k') && !(k' < k);
  }

  /** Why malloc_palloc fails: nothing asked for, no room for the block, or none for its
      record once the block is placed. */
  ghost predicate Refuses(zones: seq<seq<Info>>, zi: nat, size: nat, align: nat)
    requires |zones| == 5 && zi < 5 && 0 < align
  {
    size == 0 || !ZoneHasRoom(zones[zi], size, align)
    || exists k: nat, a: nat :: FirstFit(zones[zi], k, a, size, align)
         && RecordsFull(zones[zi := Reserve(zones[zi], k, a, size, Data, TEMP)])
  }

  /** A block at `data` in zone `zi` with its record is all that the heap has gained. */
  ghost predicate Took(zones: seq<seq<Info>>, records: map<nat, Record>, zones': seq<seq<Info>>, records': map<nat, Record>,
                       zi: nat, data: nat, size: nat, align: nat, d: nat, tz: nat, handle: nat)
  {
    && |zones| == 5 && zi < 5 && tz < 5 && 0 < align
    && (exists k: nat :: FirstFit(zones[zi], k, data, size, align))
    && d !in records && records' == records[d := Record(zi, data, size, handle)]
    && KeysAll(zones') == AddKey(AddKey(KeysAll(zones), zi, Block(data, size, Data, d)), tz, DetailBlock(d))
  }

  /** A block at `data` and its record are all that the heap has lost. */
  ghost predicate Freed(zones: seq<seq<Info>>, records: map<nat, Record>, zones': seq<seq<Info>>, records': map<nat, Record>,
                        data: nat, zi: nat, b: Block, tz: nat)
  {
    && |zones| == 5 && zi < 5 && HoldsDetails(tz)
    && b in KeysAll(zones)[zi] && b.start == data && b.kind == Data && 0 < b.size && records' == records - {b.rec}
    && KeysAll(zones') == DropKey(DropKey(KeysAll(zones), zi, b), tz, DetailBlock(b.rec))
  }

  // ---- Adding a region ----

  /** Where alloc_add links the entry of a new region. */
  function AddIndex(z: seq<Info>, start: nat): (i: nat)
    ensures AddPosition(z, i, start)
  {
    if z == [] || z[0].start < start then 0 else 1 + AddIndex(z[1..], start)
  }

  lemma AddIndexIs(z: seq<Info>, start: nat, i: nat)
    requires AddPosition(z, i, start)
    ensures i == AddIndex(z, start)
  {
    var k := AddIndex(z, start);
    assert !(i < k) && !(k < i);
  }

  /** The zones with the entry of a new region, whose record is still on the stack. */
  function WithEntry(zones: seq<seq<Info>>, zi: nat, start: nat, end: nat): seq<seq<Info>>
    requires zi < |zones|
  {
    zones[zi := Insert(zones[zi], AddIndex(zones[zi], start), Info(start, end, 0, Data, TEMP))]
  }


  /** A range that alloc_add may be given: it meets no other region of any zone. */
  ghost predicate CanAddRegion(regions: seq<seq<Region>>, zi: nat, start: nat, end: nat) {
    && zi < |regions| && 0 < start <= end < TWO32
    && (forall i, k :: 0 <= i < |regions| && 0 <= k < |regions[i]| ==> Apart(regions[i][k], Region(start, end, TEMP)))
    && (forall k :: 0 <= k < |regions[zi]| && regions[zi][k].lo == regions[zi][k].hi ==> regions[zi][k].lo != start)
  }

  /** In a consistent state no region belongs to the stack record. */
  lemma {:induction false} NoTempRegion(zones: seq<seq<Info>>, regions: seq<seq<Region>>, records: map<nat, Record>, i: nat)
    requires Consistent(zones, regions, records) && i < 5
    ensures forall k :: 0 <= k < |regions[i]| ==> regions[i][k].rec in records
  {
    forall k | 0 <= k < |regions[i]| ensures regions[i][k].rec in records {
      var b := Block(regions[i][k].lo, 0, Data, regions[i][k].rec);
      RegionHasKey(zones[i], regions[i], Top(regions[i]), k);
      assert b in KeysAll(zones)[i] && PairedBlock(i, b, records);
    }
  }

  /** Linking the entry of a new region at the position alloc_add finds. */
  lemma {:induction false} AddPending(zones: seq<seq<Info>>, regions: seq<seq<Region>>, records: map<nat, Record>,
                                      zi: nat, i: nat, start: nat, end: nat) returns (j: nat)
    requires Consistent(zones, regions, records) && CanAddRegion(regions, zi, start, end)
    requires AddPosition(zones[zi], i, start)
    ensures j <= |regions[zi]|
    ensures Pending(zones[zi := Insert(zones[zi], i, Info(start, end, 0, Data, TEMP))],
                    regions[zi := Insert(regions[zi], j, Region(start, end, TEMP))], records, KeysAll(zones), zi, start, 0)
  {
    hide Keys, Insert;
    var r := Region(start, end, TEMP);
    var e := Info(start, end, 0, Data, TEMP);
    NoTempRegion(zones, regions, records, zi);
    j := AddTiles(zones[zi], regions[zi], Top(regions[zi]), false, i, r);
    InsertDescending(regions[zi], j, r);
    TopInsert(regions[zi], j, r);
    InsertKeys(zones[zi], i, e);
    KeysUpdate(zones, zi, Insert(zones[zi], i, e));
    AddApart(regions, zi, j, start, end);
  }

  lemma {:induction false} AddApart(regions: seq<seq<Region>>, zi: nat, j: nat, start: nat, end: nat)
    requires RegionsApart(regions) && CanAddRegion(regions, zi, start, end) && j <= |regions[zi]|
    requires Descending(Insert(regions[zi], j, Region(start, end, TEMP)))
    ensures RegionsApart(regions[zi := Insert(regions[zi], j, Region(start, end, TEMP))])
  {
    hide Insert;
    var r := Region(start, end, TEMP);
    var regions' := regions[zi := Insert(regions[zi], j, r)];
    forall k | 0 <= k < |regions'[zi]| ensures regions'[zi][k] == r || regions'[zi][k] in regions[zi] {
      InsertIndex(regions[zi], j, r, k);
    }
    forall i, k | 0 <= i < |regions'| && 0 <= k < |regions'[i]| && i != zi
      ensures forall m :: 0 <= m < |regions'[zi]| ==> Apart(regions'[i][k], regions'[zi][m]) && Apart(regions'[zi][m], regions'[i][k])
    {
      forall m | 0 <= m < |regions'[zi]| ensures Apart(regions'[i][k], regions'[zi][m]) {
        if regions'[zi][m] != r {
          var n :| 0 <= n < |regions[zi]| && regions[zi][n] == regions'[zi][m];
          assert if i < zi then Apart(regions[i][k], regions[zi][n]) else Apart(regions[zi][n], regions[i][k]);
        }
      }
    }
  }

  lemma {:induction false} InsertIndex(rs: seq<Region>, j: nat, r: Region, k: nat)
    requires j <= |rs|
    ensures |Insert(rs, j, r)| == |rs| + 1
    ensures k <= |rs| ==> Insert(rs, j, r)[k] == if k < j then rs[k] else if k == j then r else rs[k-1]
  {}

  /** Only the new region's record moves. */
  lemma {:induction false} RetargetAdded(zones: seq<seq<Info>>, regions: seq<seq<Region>>, records: map<nat, Record>,
                                         zi: nat, j: nat, start: nat, end: nat, d: nat)
    requires Consistent(zones, regions, records) && zi < 5 && j <= |regions[zi]|
    ensures RetargetRegionsAll(regions[zi := Insert(regions[zi], j, Region(start, end, TEMP))], d) ==
            regions[zi := Insert(regions[zi], j, Region(start, end, d))]
  {
    hide Insert, RetargetRegions;
    var a := RetargetRegionsAll(regions[zi := Insert(regions[zi], j, Region(start, end, TEMP))], d);
    var b := regions[zi := Insert(regions[zi], j, Region(start, end, d))];
    forall i | 0 <= i < 5 ensures a[i] == b[i] {
      NoTempRegion(zones, regions, records, i);
      RetargetInsert(regions[i], if i == zi then j else 0, Region(start, end, TEMP), d);
    }
  }

  lemma {:induction false} RetargetInsert(rs: seq<Region>, j: nat, r: Region, d: nat)
    requires j <= |rs| && r.rec == TEMP && forall k :: 0 <= k < |rs| ==> rs[k].rec != TEMP
    ensures RetargetRegions(rs, d) == rs && RetargetRegions(Insert(rs, j, r), d) == Insert(rs, j, r.(rec := d))
  {}

  // ---- Room for records ----

  /** Some entry has room for `n` records. */
  ghost predicate Spare(z: seq<Info>, n: nat) { exists k :: 0 <= k < |z| && HasSpare(z[k], n) }

  predicate HasSpare(e: Info, n: nat) { e.start + e.size + 64 * n <= e.end }

  lemma SpareIsRoom(z: seq<Info>, n: nat)
    requires Spare(z, n) && 0 < n
    ensures ZoneHasRoom(z, DETAIL_SIZE, MALLOC_MIN_ALIGN)
  {
    var k :| 0 <= k < |z| && HasSpare(z[k], n);
    var q := (z[k].start + z[k].size + 15) / 16;
    assert 16 * q % MALLOC_MIN_ALIGN == 0;
    assert Room(z[k], DETAIL_SIZE, MALLOC_MIN_ALIGN);
  }

  lemma SpareInsert(z: seq<Info>, i: nat, e: Info, n: nat)
    requires i <= |z| && (Spare(z, n) || HasSpare(e, n))
    ensures Spare(Insert(z, i, e), n)
  {
    var t := Insert(z, i, e);
    if HasSpare(e, n) {
      assert t[i] == e;
    } else {
      var k :| 0 <= k < |z| && HasSpare(z[k], n);
      assert t[if k < i then k else k + 1] == z[k];
    }
  }

  /** One record takes no more than the room of one. */
  lemma {:induction false} SpareHomed(zones: seq<seq<Info>>, zones': seq<seq<Info>>, d: nat, tz: nat, i: nat, n: nat)
    requires |zones| == 5 && i < 5 && Homed(zones, zones', d, tz) && Spare(zones[i], n + 1)
    ensures |zones'| == 5 && Spare(zones'[i], n)
  {
    hide Room;
    var k: nat :| FirstFit(zones[tz], k, d, DETAIL_SIZE, MALLOC_MIN_ALIGN)
                  && zones' == RetargetAll(zones[tz := Reserve(zones[tz], k, d, DETAIL_SIZE, Detail, TEMP)], d);
    var m :| 0 <= m < |zones[i]| && HasSpare(zones[i][m], n + 1);
    if i != tz {
      assert HasSpare(zones'[i][m], n);
    } else {
      var e := zones[i][k];
      var top := AlignDown(e.end - DETAIL_SIZE, MALLOC_MIN_ALIGN);
      AlignDownIs(e.end - DETAIL_SIZE, MALLOC_MIN_ALIGN);
      var at := if m < k then m else m + 1;
      assert HasSpare(zones'[i][at], n);
    }
  }

  /** alloc_add succeeds where some zone for records has room already, or gets it. */
  lemma {:induction false} AddedHasHome(zones: seq<seq<Info>>, zi: nat, start: nat, end: nat, n: nat)
    requires |zones| == 5 && zi < 5 && 0 < n
    requires Spare(zones[TMPHIGH], n) || Spare(zones[TMPLOW], n) || (HoldsDetails(zi) && HasSpare(Info(start, end, 0, Data, TEMP), n))
    ensures !RecordsFull(WithEntry(zones, zi, start, end))
  {
    hide Spare, ZoneHasRoom, Insert;
    var linked := WithEntry(zones, zi, start, end);
    var i := AddIndex(zones[zi], start);
    var h := if Spare(zones[TMPHIGH], n) then TMPHIGH else if Spare(zones[TMPLOW], n) then TMPLOW else zi;
    if h == zi { SpareInsert(zones[zi], i, Info(start, end, 0, Data, TEMP), n); }
    SpareIsRoom(linked[h], n);
  }

  lemma {:induction false} AddedSpare(zones: seq<seq<Info>>, zi: nat, start: nat, end: nat, zones': seq<seq<Info>>, d: nat, tz: nat,
                                      i: nat, n: nat)
    requires |zones| == 5 && zi < 5 && i < 5 && Homed(WithEntry(zones, zi, start, end), zones', d, tz)
    requires Spare(zones[i], n + 1) || (i == zi && HasSpare(Info(start, end, 0, Data, TEMP), n + 1))
    ensures |zones'| == 5 && Spare(zones'[i], n)
  {
    hide Spare, Homed, Insert;
    if i == zi { SpareInsert(zones[zi], AddIndex(zones[zi], start), Info(start, end, 0, Data, TEMP), n + 1); }
    SpareHomed(WithEntry(zones, zi, start, end), zones', d, tz, i, n);
  }

  /** A first region is the whole of its zone, unless the zone holds the record too. */
  lemma {:induction false} AddedAlone(zones: seq<seq<Info>>, zi: nat, start: nat, end: nat, zones': seq<seq<Info>>, d: nat, tz: nat)
    requires |zones| == 5 && zi < 5 && zones[zi] == [] && !HoldsDetails(zi)
    requires Homed(WithEntry(zones, zi, start, end), zones', d, tz)
    ensures |zones'| == 5 && zones'[zi] == [Info(start, end, 0, Data, d)]
  {
    hide FirstFit;
  }

  lemma AddedNone(zones: seq<seq<Info>>, zi: nat, start: nat, end: nat, zones': seq<seq<Info>>, d: nat, tz: nat, i: nat)
    requires |zones| == 5 && zi < 5 && i < 5 && i != zi && zones[i] == [] && !HoldsDetails(i)
    requires Homed(WithEntry(zones, zi, start, end), zones', d, tz)
    ensures |zones'| == 5 && zones'[i] == []
  {
    hide FirstFit;
  }

  // ---- Finding and freeing ----

  /** Entry `i` of zone `zi` is the first that alloc_find meets with this start. */
  ghost predicate FirstAt(zones: seq<seq<Info>>, zi: nat, i: nat, data: nat) {
    && zi < |zones| && i < |zones[zi]| && zones[zi][i].start == data
    && (forall j :: 0 <= j < i ==> zones[zi][j].start != data)
    && (forall z, j :: 0 <= z < zi && 0 <= j < |zones[z]| ==> zones[z][j].start != data)
  }

  ghost predicate Freeable(zones: seq<seq<Info>>, data: nat) {
    exists zi: nat, i: nat :: FirstAt(zones, zi, i, data) && IsLive(zones[zi][i])
  }

  predicate IsLive(e: Info) { e.kind == Data && 0 < e.size }

  lemma {:induction false} FirstUnique(zones: seq<seq<Info>>, data: nat, z1: nat, i1: nat, z2: nat, i2: nat)
    requires FirstAt(zones, z1, i1, data) && FirstAt(zones, z2, i2, data)
    ensures z1 == z2 && i1 == i2
  {
    assert !(z1 < z2) && !(z2 < z1);
    assert !(i1 < i2) && !(i2 < i1);
  }

  /** virt_to_phys(info) */
  function InfoAddr(e: Info): nat { if e.kind == Detail then e.rec else e.rec + DATAINFO_OFFSET }

  /** The record of a block, as an entry of a temporary zone; there is one, in one place. */
  lemma {:induction false} RecordEntry(zones: seq<seq<Info>>, regions: seq<seq<Region>>, records: map<nat, Record>, zi: nat, i: nat)
    returns (tz: nat, j: nat)
    requires Consistent(zones, regions, records) && zi < 5 && i < |zones[zi]|
    ensures HoldsDetails(tz) && j < |zones[tz]| && zones[tz][j].Key() == DetailBlock(zones[zi][i].rec)
    ensures forall z :: 0 <= z < 5 && DetailBlock(zones[zi][i].rec) in KeysAll(zones)[z] ==> z == tz
    ensures PairedBlock(zi, zones[zi][i].Key(), records)
  {
    hide TilesFrom, Tiles, Keys, RegionsApart;
    var e := zones[zi][i];
    KeysOf(zones[zi], e.Key());
    assert e.Key() in KeysAll(zones)[zi] && PairedBlock(zi, e.Key(), records);
    assert PairedRecord(e.rec, KeysAll(zones), records);
    tz := if DetailBlock(e.rec) in KeysAll(zones)[TMPLOW] then TMPLOW else TMPHIGH;
    KeysOf(zones[tz], DetailBlock(e.rec));
    j :| 0 <= j < |zones[tz]| && zones[tz][j].Key() == DetailBlock(e.rec);
    forall z | 0 <= z < 5 && z != tz ensures DetailBlock(e.rec) !in KeysAll(zones)[z] {
      KeysOf(zones[z], DetailBlock(e.rec));
      forall m | 0 <= m < |zones[z]| ensures zones[z][m].Key() != DetailBlock(e.rec) {
        PayloadsDisjoint(zones, regions, z, m, tz, j);
      }
    }
  }

  /** The test of alloc_find's callers tells the two kinds of entries apart: only an entry
      that heads its record starts at its own address. */
  lemma {:induction false} StartsAtItself(zones: seq<seq<Info>>, regions: seq<seq<Region>>, records: map<nat, Record>, zi: nat, i: nat)
    requires Consistent(zones, regions, records) && zi < 5 && i < |zones[zi]|
    ensures zones[zi][i].start == InfoAddr(zones[zi][i]) <==> zones[zi][i].kind == Detail
  {
    hide TilesFrom, Keys;
    var tz, j := RecordEntry(zones, regions, records, zi, i);
    if zones[zi][i].kind == Data {
      PayloadsDisjoint(zones, regions, zi, i, tz, j);
      if zones[zi][i].size == 0 {
        var p := BaseOf(zones[zi], regions[zi], Top(regions[zi]), i);
        var q := Inside(zones[tz], regions[tz], Top(regions[tz]), j);
        RegionNotInside(zones, regions, zi, i, p, tz, j, q);
      }
    }
  }

  /** A payload that reaches beyond an address cannot contain the start of another region. */
  lemma {:induction false} RegionNotInside(zones: seq<seq<Info>>, regions: seq<seq<Region>>, zi: nat, i: nat, p: nat, tz: nat, j: nat, q: nat)
    requires AllTile(zones, regions) && RegionsApart(regions)
    requires zi < 5 && p < |regions[zi]| && tz < 5 && j < |zones[tz]| && q < |regions[tz]|
    requires regions[tz][q].lo <= zones[tz][j].start && zones[tz][j].end <= regions[tz][q].hi
    ensures !(zones[tz][j].start < regions[zi][p].lo < zones[tz][j].end)
  {
    if zi < tz { assert Apart(regions[zi][p], regions[tz][q]); }
    if tz < zi { assert Apart(regions[tz][q], regions[zi][p]); }
    if zi == tz && p < q { assert regions[zi][q].hi <= regions[zi][p].lo; }
    if zi == tz && q < p { assert regions[zi][p].hi <= regions[zi][q].lo; }
  }

  /** Unlinking a block and then its record leaves a consistent state without them. */
  lemma {:induction false} FreeConsistent(zones: seq<seq<Info>>, regions: seq<seq<Region>>, records: map<nat, Record>,
                                          zi: nat, i: nat, tz: nat, j: nat)
    requires Consistent(zones, regions, records) && zi < 5 && i < |zones[zi]| && IsLive(zones[zi][i]) && HoldsDetails(tz)
    requires var z1 := zones[zi := Release(zones[zi], i)]; j < |z1[tz]| && z1[tz][j].Key() == DetailBlock(zones[zi][i].rec)
    ensures var z1 := zones[zi := Release(zones[zi], i)];
            var z2 := z1[tz := Release(z1[tz], j)];
            && Consistent(z2, regions, records - {zones[zi][i].rec})
            && KeysAll(z2) == DropKey(DropKey(KeysAll(zones), zi, zones[zi][i].Key()), tz, DetailBlock(zones[zi][i].rec))
  {
    hide TilesFrom, Tiles, Keys, RegionsApart;
    var rec := zones[zi][i].rec;
    var z1 := zones[zi := Release(zones[zi], i)];
    var t, m := RecordEntry(zones, regions, records, zi, i);
    ReleaseAll(zones, regions, zi, i);
    ReleaseAll(z1, regions, tz, j);
    KeysOf(z1[tz], DetailBlock(rec));
    assert DetailBlock(rec) in KeysAll(z1)[tz];
    DropPaired(KeysAll(zones), records, rec, tz);
  }

  /** After the block is unlinked its record is still there to be unlinked. */
  lemma {:induction false} RecordRemains(zones: seq<seq<Info>>, regions: seq<seq<Region>>, records: map<nat, Record>, zi: nat, i: nat)
    requires Consistent(zones, regions, records) && zi < 5 && i < |zones[zi]| && IsLive(zones[zi][i])
    ensures var z1 := zones[zi := Release(zones[zi], i)];
            exists tz: nat, j: nat :: tz < 5 && HoldsDetails(tz) && j < |z1[tz]| && z1[tz][j].Key() == DetailBlock(zones[zi][i].rec)
  {
    hide TilesFrom, Tiles, Keys, RegionsApart;
    var z1 := zones[zi := Release(zones[zi], i)];
    var b := DetailBlock(zones[zi][i].rec);
    var tz, j := RecordEntry(zones, regions, records, zi, i);
    ReleaseAll(zones, regions, zi, i);
    KeysOf(zones[tz], b);
    assert b in KeysAll(zones)[tz] && b in KeysAll(z1)[tz];
    KeysOf(z1[tz], b);
    var m :| 0 <= m < |z1[tz]| && z1[tz][m].Key() == b;
  }

  class Heap {
    var zones: seq<seq<Info>>
    var records: map<nat, Record>
    ghost var regions: seq<seq<Region>>

    ghost predicate Valid()
      reads this
    {
      Consistent(zones, regions, records)
    }

    ghost function Blocks(): seq<set<Block>>
      reads this
    {
      KeysAll(zones)
    }

    constructor ()
      ensures Valid() && zones == [[], [], [], [], []] && records == map[] && regions == [[], [], [], [], []]
    {
      zones := [[], [], [], [], []];
      records := map[];
      regions := [[], [], [], [], []];
    }

    /** alloc_new: the first entry with room gives up the top of its free part. */
    method AllocNew(zi: nat, size: nat, align: nat, kind: Kind) returns (addr: nat, ghost k: nat)
      requires AllTile(zones, regions) && RegionsApart(regions) && zi < 5 && 0 < size && size + align <= TWO32 && IsAlign(align)
      modifies this`zones
      ensures addr == 0 ==> zones == old(zones) && !ZoneHasRoom(zones[zi], size, align)
      ensures addr != 0 ==> AllTile(zones, regions) && FirstFit(old(zones)[zi], k, addr, size, align) && k < |zones[zi]|
                            && zones[zi][k] == Info(addr, old(zones)[zi][k].end, size, kind, TEMP)
                            && zones == old(zones)[zi := Reserve(old(zones)[zi], k, addr, size, kind, TEMP)]
                            && KeysAll(zones) == AddKey(old(KeysAll(zones)), zi, Block(addr, size, kind, TEMP))
    {
      hide TilesFrom, Tiles, Keys;
      var z := zones[zi];
      for i := 0 to |z|
        invariant zones == old(zones)
        invariant forall j :: 0 <= j < i ==> !Room(z[j], size, align)
      {
        EntryBounds(zones, regions, zi, i);
        FitsIsRoom(z[i], size, align);
        if Fits(z[i], size, align) {
          addr := NewEnd(z[i], size, align);
          ReserveAll(zones, regions, zi, i, addr, size, kind);
          zones := zones[zi := Reserve(z, i, addr, size, kind, TEMP)];
          k := i;
          return;
        }
      }
      return 0, 0;
    }

    /** alloc_new_detail: finds a home for the record and moves it there from the stack. */
    method AllocNewDetail(zi: nat, start: nat, size: nat, ghost keys: seq<set<Block>>) returns (d: nat, ghost tz: nat)
      requires Pending(zones, regions, records, keys, zi, start, size)
      modifies this
      ensures d == 0 ==> zones == old(zones) && records == old(records) && regions == old(regions)
                         && RecordsFull(zones)
      ensures d != 0 ==> Valid() && HoldsDetails(tz) && d !in old(records) && !RecordsFull(old(zones))
                         && (tz == TMPLOW ==> !ZoneHasRoom(old(zones)[TMPHIGH], DETAIL_SIZE, MALLOC_MIN_ALIGN))
                         && records == old(records)[d := Record(zi, start, size, DEFAULT_HANDLE)]
                         && regions == RetargetRegionsAll(old(regions), d) && (0 < size ==> regions == old(regions))
                         && Blocks() == AddKey(AddKey(keys, zi, Block(start, size, Data, d)), tz, DetailBlock(d))
                         && Homed(old(zones), zones, d, tz)
    {
      hide TilesFrom, Tiles, Keys, Paired, RegionsApart;
      ghost var k;
      d, k := AllocNew(TMPHIGH, DETAIL_SIZE, MALLOC_MIN_ALIGN, Detail);
      tz := TMPHIGH;
      if d == 0 {
        d, k := AllocNew(TMPLOW, DETAIL_SIZE, MALLOC_MIN_ALIGN, Detail);
        tz := TMPLOW;
        if d == 0 {
          return;
        }
      }
      FreshDetail(zones, regions, records, keys, zi, start, size, tz, k);
      RetargetRegionsApart(old(zones), regions, records, keys, zi, start, size, d);
      MoveConsistent(zones, regions, records, keys, zi, start, size, tz, k);
      zones := RetargetAll(zones, d);
      records := records[d := Record(zi, start, size, DEFAULT_HANDLE)];
      regions := RetargetRegionsAll(regions, d);
    }

    /** alloc_find */
    method AllocFind(data: nat) returns (found: bool, zi: nat, i: nat)
      requires |zones| == 5
      ensures found ==> FirstAt(zones, zi, i, data)
      ensures !found ==> forall z, j :: 0 <= z < 5 && 0 <= j < |zones[z]| ==> zones[z][j].start != data
    {
      zi := 0;
      while zi < 5
        invariant zi <= 5
        invariant forall z, j :: 0 <= z < zi && 0 <= j < |zones[z]| ==> zones[z][j].start != data
      {
        i := 0;
        while i < |zones[zi]|
          invariant i <= |zones[zi]|
          invariant forall j :: 0 <= j < i ==> zones[zi][j].start != data
        {
          if zones[zi][i].start == data {
            return true, zi, i;
          }
          i := i + 1;
        }
        zi := zi + 1;
      }
      return false, 0, 0;
    }

    /** malloc_pfree: frees the block alloc_find meets first at `data`, and its record. */
    method Pfree(data: nat) returns (ret: int, ghost zi: nat, ghost b: Block, ghost tz: nat)
      requires Valid()
      modifies this`zones, this`records
      ensures Valid()
      ensures ret == 0 || ret == -1
      ensures ret == 0 <==> Freeable(old(zones), data)
      ensures ret == -1 ==> zones == old(zones) && records == old(records)
      ensures ret == 0 ==> zi < 5 && HoldsDetails(tz) && b in old(Blocks())[zi] && b.start == data && b.kind == Data && 0 < b.size
                           && records == old(records) - {b.rec}
                           && Blocks() == DropKey(DropKey(old(Blocks()), zi, b), tz, DetailBlock(b.rec))
    {
      hide TilesFrom, Tiles, Keys, Paired, RegionsApart, Release;
      zi, b, tz := 0, Block(0, 0, Data, 0), 0;
      var found, z, i := AllocFind(data);
      if !found {
        return -1, zi, b, tz;
      }
      var e := zones[z][i];
      StartsAtItself(zones, regions, records, z, i);
      if data == InfoAddr(e) || e.size == 0 {
        if Freeable(zones, data) {
          var z2: nat, i2: nat :| FirstAt(zones, z2, i2, data) && IsLive(zones[z2][i2]);
          FirstUnique(zones, data, z, i, z2, i2);
        }
        return -1, zi, b, tz;
      }
      RecordRemains(zones, regions, records, z, i);
      KeysOf(zones[z], e.Key());
      // In C the record is found through its address, and its node through the record.
      var before := zones;
      zones := zones[z := Release(zones[z], i)];
      var t: nat, j: nat :| t < 5 && HoldsDetails(t) && j < |zones[t]| && zones[t][j].Key() == DetailBlock(e.rec);
      FreeConsistent(before, regions, records, z, i, t, j);
      zones := zones[t := Release(zones[t], j)];
      records := records - {e.rec};
      return 0, z, e.Key(), t;
    }

    /** alloc_add: gives the zone the range [start, end), unless with it there is no room for
        its record. */
    method AddRegion(zi: nat, start: nat, end: nat) returns (d: nat, ghost j: nat, ghost tz: nat)
      requires Valid() && zi < 5 && CanAddRegion(regions, zi, start, end)
      modifies this
      ensures Valid()
      ensures d == 0 <==> RecordsFull(WithEntry(old(zones), zi, start, end))
      ensures d == 0 ==> zones == old(zones) && records == old(records) && regions == old(regions)
      ensures d != 0 ==> Homed(WithEntry(old(zones), zi, start, end), zones, d, tz)
      ensures d != 0 ==> j <= |old(regions)[zi]| && HoldsDetails(tz) && d !in old(records)
                         && regions == old(regions)[zi := Insert(old(regions)[zi], j, Region(start, end, d))]
                         && records == old(records)[d := Record(zi, start, 0, DEFAULT_HANDLE)]
                         && Blocks() == AddKey(AddKey(old(Blocks()), zi, Block(start, 0, Data, d)), tz, DetailBlock(d))
    {
      hide TilesFrom, Tiles, Keys, Paired, RegionsApart, Insert, CanAddRegion, Homed, RecordsFull;
      var z := zones[zi];
      var i := 0;
      while i < |z|
        invariant i <= |z| && forall k :: 0 <= k < i ==> z[k].start >= start
      {
        if z[i].start < start { break; }
        i := i + 1;
      }
      AddIndexIs(z, start, i);
      j := AddPending(zones, regions, records, zi, i, start, end);
      ghost var keys := Blocks();
      zones := zones[zi := Insert(z, i, Info(start, end, 0, Data, TEMP))];
      regions := regions[zi := Insert(regions[zi], j, Region(start, end, TEMP))];
      d, tz := AllocNewDetail(zi, start, 0, keys);
      if d == 0 {
        UnlinkInsert(z, i, Info(start, end, 0, Data, TEMP));
        zones := zones[zi := Unlink(zones[zi], i)];
        regions := old(regions);
        assert zones == old(zones);
      } else {
        RetargetAdded(old(zones), old(regions), old(records), zi, j, start, end, d);
      }
    }

    /** RomBase->range_start = s, where RomBase is the lowest entry of ZoneLow. */
    method MoveLowestLow(s: nat)
      requires Valid() && |regions[LOW]| == 1 && zones[LOW] != [] && s <= zones[LOW][|zones[LOW]| - 1].end
      requires RegionsApart(regions[LOW := [regions[LOW][0].(lo := s)]])
      modifies this
      ensures Valid() && regions == old(regions)[LOW := [old(regions)[LOW][0].(lo := s)]]
      ensures zones == old(zones)[LOW := MoveLowest(old(zones)[LOW], s)]
    {
      hide TilesFrom, Keys, RegionsApart, Paired;
      ghost var r := regions[LOW][0];
      assert regions[LOW] == [r];
      RegionBounds(regions, LOW, 0);
      OneRegion(zones[LOW], r, r.hi);
      MoveLowestTiles(zones[LOW], r, r.hi, s);
      MoveLowestKeys(zones[LOW], r, r.hi, s);
      KeysUpdate(zones, LOW, MoveLowest(zones[LOW], s));
      var rec := zones[LOW][|zones[LOW]| - 1].rec;
      RegionHasKey(zones[LOW], regions[LOW], r.hi, 0);
      MovePaired(Blocks(), records, LOW, Block(r.lo, 0, Data, rec), s);
      zones := zones[LOW := MoveLowest(zones[LOW], s)];
      records := records[rec := records[rec].(start := s)];
      regions := regions[LOW := [r.(lo := s)]];
    }

    /** malloc_getspace: the largest free space in a zone, less what a record would take where
        the zone also holds records. */
    method GetSpace(zi: nat) returns (space: nat)
      requires Valid() && zi < 5
      ensures IsSpace(zones[zi], zi, space)
    {
      hide TilesFrom, Tiles, Keys, RegionsApart, Paired;
      var max: nat := 0;
      for i := 0 to |zones[zi]|
        invariant IsLargestSpace(zones[zi][..i], max)
      {
        EntryBounds(zones, regions, zi, i);
        var e := zones[zi][i];
        assert zones[zi][..i+1] == zones[zi][..i] + [e];
        if e.end - e.start - e.size > max {
          max := e.end - e.start - e.size;
        }
      }
      assert zones[zi][..|zones[zi]|] == zones[zi];
      if !HoldsDetails(zi) {
        return max;
      }
      var reserve := AlignUp(DETAIL_SIZE, MALLOC_MIN_ALIGN);
      assert reserve == 48;
      space := if max <= reserve then 0 else max - reserve;
    }

    /** malloc_sethandle: a no-op unless `data` could be freed. */
    method SetHandle(data: nat, handle: nat) returns (ghost rec: nat)
      requires Valid()
      modifies this`records
      ensures Valid()
      ensures !Freeable(zones, data) ==> records == old(records)
      ensures Freeable(zones, data) ==> rec in old(records) && records == old(records)[rec := old(records)[rec].(handle := handle)]
                                        && old(records)[rec].start == data && 0 < old(records)[rec].size
    {
      hide TilesFrom, Tiles, Keys, RegionsApart, Paired;
      rec := TEMP;
      var found, z, i := AllocFind(data);
      if found {
        var e := zones[z][i];
        StartsAtItself(zones, regions, records, z, i);
        ghost var tz, j := RecordEntry(zones, regions, records, z, i);
        if data != InfoAddr(e) && e.size != 0 {
          assert Freeable(zones, data);
          rec := e.rec;
          HandlePaired(Blocks(), records, e.rec, handle);
          records := records[e.rec := records[e.rec].(handle := handle)];
        } else if Freeable(zones, data) {
          ghost var z2: nat, i2: nat :| FirstAt(zones, z2, i2, data) && IsLive(zones[z2][i2]);
          FirstUnique(zones, data, z, i, z2, i2);
        }
      }
    }

    /** malloc_findhandle: the start of a block whose record carries the handle. */
    method FindHandle(handle: nat) returns (data: nat, ghost rec: nat)
      requires Valid()
      ensures data == 0 <==> forall r :: r in records ==> records[r].handle != handle
      ensures data != 0 ==> rec in records && records[rec].handle == handle && records[rec].start == data
    {
      hide TilesFrom, Tiles, Keys, RegionsApart, Paired;
      rec := TEMP;
      for z := 0 to 5
        invariant forall y, j :: 0 <= y < z && 0 <= j < |zones[y]| ==> !Carries(zones[y][j], records, handle)
      {
        for i := 0 to |zones[z]|
          invariant forall y, j :: 0 <= y < z && 0 <= j < |zones[y]| ==> !Carries(zones[y][j], records, handle)
          invariant forall j :: 0 <= j < i ==> !Carries(zones[z][j], records, handle)
        {
          var e := zones[z][i];
          StartsAtItself(zones, regions, records, z, i);
          ghost var tz, j := RecordEntry(zones, regions, records, z, i);
          if e.start == InfoAddr(e) && records[e.rec].handle == handle {
            tz, j := RecordStart(zones, regions, records, e.rec);
            return records[e.rec].start, e.rec;
          }
        }
      }
      data := 0;
      forall r | r in records ensures records[r].handle != handle {
        var tz, j := RecordStart(zones, regions, records, r);
        assert !Carries(zones[tz][j], records, handle);
      }
    }

    /** malloc_palloc: `data` bytes for the caller and a record for them, or no change. */
    method Palloc(zi: nat, size: nat, align: nat) returns (data: nat, ghost d: nat, ghost tz: nat)
      requires Valid() && zi < 5 && size + align <= TWO32 && IsAlign(align)
      modifies this
      ensures Valid() && regions == old(regions)
      ensures data == 0 ==> zones == old(zones) && records == old(records)
      ensures data == 0 <==> Refuses(old(zones), zi, size, align)
      ensures data != 0 ==> exists k: nat :: FirstFit(old(zones)[zi], k, data, size, align)
                                             && Homed(old(zones)[zi := Reserve(old(zones)[zi], k, data, size, Data, TEMP)], zones, d, tz)
      ensures data != 0 ==> data % align == 0 && 0 < size && HoldsDetails(tz) && d !in old(records)
                            && records == old(records)[d := Record(zi, data, size, DEFAULT_HANDLE)]
                            && Blocks() == AddKey(AddKey(old(Blocks()), zi, Block(data, size, Data, d)), tz, DetailBlock(d))
    {
      hide TilesFrom, Tiles, Keys, Paired, RegionsApart, Reserve, Release;
      d, tz := 0, 0;
      if size == 0 {
        return 0, 0, 0;
      }
      ghost var k;
      data, k := AllocNew(zi, size, align, Data);
      if data == 0 {
        return;
      }
      assert ZoneHasRoom(old(zones)[zi], size, align);
      ghost var placed := zones;
      forall k': nat, a': nat | FirstFit(old(zones)[zi], k', a', size, align)
        ensures placed == old(zones)[zi := Reserve(old(zones)[zi], k', a', size, Data, TEMP)]
      {
        FirstFitUnique(old(zones)[zi], size, align, k, data, k', a');
      }
      var detail;
      detail, tz := AllocNewDetail(zi, data, size, old(Blocks()));
      d := detail;
      if detail == 0 {
        ReleaseReserve(old(zones)[zi], k, data, size, Data, TEMP);
        var i: nat :| i < |zones[zi]| && zones[zi][i].rec == TEMP;
        OnlyStackEntry(zones, old(zones), records, zi, k, i, data, size);
        zones := zones[zi := Release(zones[zi], i)];
        assert zones == old(zones);
        data := 0;
      }
    }
  }

  lemma {:induction false} UnlinkInsert(z: seq<Info>, i: nat, e: Info)
    requires i <= |z|
    ensures i < |Insert(z, i, e)| && Unlink(Insert(z, i, e), i) == z
  {}

  /** Blocks of up to `max` bytes find room somewhere, larger ones nowhere. */
  ghost predicate IsLargestSpace(z: seq<Info>, max: int) {
    && (forall k :: 0 <= k < |z| ==> z[k].end - z[k].start - z[k].size <= max)
    && (max == 0 || exists k :: 0 <= k < |z| && z[k].end - z[k].start - z[k].size == max)
  }

  /** Where a zone also holds records, one of them is accounted for. */
  ghost predicate IsSpace(z: seq<Info>, zi: nat, space: nat) {
    if HoldsDetails(zi) then exists max: nat :: IsLargestSpace(z, max) && space == if max <= 48 then 0 else max - 48
    else IsLargestSpace(z, space)
  }

  lemma {:induction false} LargestSpaceIsRoom(z: seq<Info>, max: nat, size: nat)
    requires IsLargestSpace(z, max) && 0 < size
    ensures ZoneHasRoom(z, size, 1) <==> size <= max
  {
    if size <= max {
      var k :| 0 <= k < |z| && z[k].end - z[k].start - z[k].size == max;
      assert (z[k].start + z[k].size) % 1 == 0;
      assert Room(z[k], size, 1);
    }
  }

  /** The 48 bytes that malloc_getspace keeps back are enough: with ranges that end at multiples
      of 16, any multiple of 16 up to the reported size can be had together with its record. */
  lemma {:induction false} SpaceServes(zones: seq<seq<Info>>, zi: nat, space: nat, size: nat, align: nat)
    requires |zones| == 5 && HoldsDetails(zi) && IsSpace(zones[zi], zi, space)
    requires forall k :: 0 <= k < |zones[zi]| ==> zones[zi][k].end % 16 == 0
    requires 0 < size <= space && size % 16 == 0 && (align == 1 || align == 16)
    ensures !Refuses(zones, zi, size, align)
  {
    hide Room, Reserve;
    var z := zones[zi];
    var max: nat :| IsLargestSpace(z, max) && space == max - 48;
    var m :| 0 <= m < |z| && z[m].end - z[m].start - z[m].size == max;
    EndRoom(z[m], size, align);
    forall k: nat, a: nat | FirstFit(z, k, a, size, align)
      ensures !RecordsFull(zones[zi := Reserve(z, k, a, size, Data, TEMP)])
    {
      EndMultiple(z[k], size, align);
      RecordBeside(z, m, k, a, size);
    }
  }

  lemma EndMultiple(e: Info, size: nat, align: nat)
    requires e.end % 16 == 0 && size % 16 == 0 && (align == 1 || align == 16)
    ensures (e.end - size) % align == 0
  {
    if align == 1 {
      DivMod(e.end - size, e.end - size, 1, 0);
    } else {
      DivMod(e.end - size, e.end / 16 - size / 16, 16, 0);
    }
  }

  lemma EndRoom(e: Info, size: nat, align: nat)
    requires e.end % 16 == 0 && size % 16 == 0 && (align == 1 || align == 16) && e.start + e.size + size <= e.end
    ensures Room(e, size, align)
  {
    var a: nat := e.end - size;
    EndMultiple(e, size, align);
    assert a % align == 0 && e.start + e.size <= a && a + size <= e.end;
  }

  /** With entry k shortened to `a` there is room for a record in entry m. */
  lemma RecordBeside(z: seq<Info>, m: nat, k: nat, a: nat, size: nat)
    requires m < |z| && k < |z| && z[m].end % 16 == 0 && z[m].end - z[m].start - z[m].size >= size + 48
    requires size % 16 == 0 && a == z[k].end - size
    ensures ZoneHasRoom(Reserve(z, k, a, size, Data, TEMP), DETAIL_SIZE, MALLOC_MIN_ALIGN)
  {
    var z' := Reserve(z, k, a, size, Data, TEMP);
    var at := if m < k then m else m + 1;
    var e := if m == k then z[m].(end := a) else z[m];
    assert z'[at] == e;
    var w: nat := e.end - 48;
    assert w % MALLOC_MIN_ALIGN == 0 && e.start + e.size <= w && w + DETAIL_SIZE <= e.end;
    assert Room(e, DETAIL_SIZE, MALLOC_MIN_ALIGN);
  }

  /** Otherwise they may not be: all that one range is said to have for a record of its own can
      be had if and only if a record fits into 48 bytes from where its free part begins. */
  lemma {:induction false} SpaceOfOne(zones: seq<seq<Info>>, zi: nat, e: Info, space: nat)
    requires |zones| == 5 && HoldsDetails(zi) && zones[zi] == [e] && IsSpace(zones[zi], zi, space) && 0 < space
    requires !ZoneHasRoom(zones[if zi == TMPLOW then TMPHIGH else TMPLOW], DETAIL_SIZE, MALLOC_MIN_ALIGN)
    ensures Refuses(zones, zi, space, 1) <==> 1 <= (e.start + e.size) % 16 <= 11
  {
    var free := e.start + e.size;
    var max: nat :| IsLargestSpace(zones[zi], max) && space == max - 48;
    assert max == e.end - free;
    var a: nat := free + 48;
    assert a % 1 == 0 && Room(e, space, 1);
    assert FirstFit(zones[zi], 0, a, space, 1);
    var z' := Reserve(zones[zi], 0, a, space, Data, TEMP);
    assert z' == [Info(a, e.end, space, Data, TEMP), e.(end := a)];
    RecordFitsFrom(free);
    assert !Room(z'[0], DETAIL_SIZE, MALLOC_MIN_ALIGN);
    assert Room(z'[1], DETAIL_SIZE, MALLOC_MIN_ALIGN) <==> !(1 <= free % 16 <= 11);
    forall k: nat, b: nat | FirstFit(zones[zi], k, b, space, 1) ensures k == 0 && b == a {
      FirstFitUnique(zones[zi], space, 1, 0, a, k, b);
    }
  }

  /** A record fits into the 48 bytes from `s` if and only if a multiple of 16 is among the first five. */
  lemma RecordFitsFrom(s: nat)
    ensures (exists a: nat :: a % 16 == 0 && s <= a && a + DETAIL_SIZE <= s + 48) <==> !(1 <= s % 16 <= 11)
  {
    var up := 16 * ((s + 15) / 16);
    assert up % 16 == 0 && s <= up < s + 16;
    assert up + DETAIL_SIZE <= s + 48 <==> !(1 <= s % 16 <= 11);
  }

  /** What is reported for the other zones can be had if and only if there is room for a record. */
  lemma {:induction false} SpaceElsewhere(zones: seq<seq<Info>>, zi: nat, space: nat, size: nat)
    requires |zones| == 5 && zi < 5 && !HoldsDetails(zi) && IsSpace(zones[zi], zi, space) && 0 < size <= space
    ensures Refuses(zones, zi, size, 1) <==> RecordsFull(zones)
  {
    LargestSpaceIsRoom(zones[zi], space, size);
    var k :| 0 <= k < |zones[zi]| && Room(zones[zi][k], size, 1);
    var first := FirstRoom(zones[zi], size, k);
    assert (zones[zi][first].end - size) % 1 == 0;
    assert FirstFit(zones[zi], first, zones[zi][first].end - size, size, 1);
  }

  lemma {:induction false} FirstRoom(z: seq<Info>, size: nat, k: nat) returns (first: nat)
    requires k < |z| && Room(z[k], size, 1)
    ensures first < |z| && Room(z[first], size, 1) && forall j :: 0 <= j < first ==> !Room(z[j], size, 1)
  {
    if j :| 0 <= j < k && Room(z[j], size, 1) { first := FirstRoom(z, size, j); } else { first := k; }
  }

  /** `e` is a record whose handle is `handle`. */
  predicate Carries(e: Info, records: map<nat, Record>, handle: nat) {
    e.kind == Detail && e.rec in records && records[e.rec].handle == handle
  }

  /** A record is an entry of some zone, and its block starts above 0. */
  lemma {:induction false} RecordStart(zones: seq<seq<Info>>, regions: seq<seq<Region>>, records: map<nat, Record>, rec: nat)
    returns (tz: nat, j: nat)
    requires Consistent(zones, regions, records) && rec in records
    ensures tz < 5 && j < |zones[tz]| && zones[tz][j].Key() == DetailBlock(rec)
    ensures 0 < records[rec].start
  {
    hide Keys, TilesFrom;
    assert PairedRecord(rec, KeysAll(zones), records);
    tz := if DetailBlock(rec) in KeysAll(zones)[TMPLOW] then TMPLOW else TMPHIGH;
    KeysOf(zones[tz], DetailBlock(rec));
    j :| 0 <= j < |zones[tz]| && zones[tz][j].Key() == DetailBlock(rec);
    var zi, b := records[rec].zone, DataBlock(rec, records[rec]);
    KeysOf(zones[zi], b);
    var m :| 0 <= m < |zones[zi]| && zones[zi][m].Key() == b;
    EntryBounds(zones, regions, zi, m);
  }

  lemma {:induction false} HandlePaired(keys: seq<set<Block>>, records: map<nat, Record>, rec: nat, handle: nat)
    requires Paired(keys, records) && rec in records
    ensures Paired(keys, records[rec := records[rec].(handle := handle)])
  {
    var records' := records[rec := records[rec].(handle := handle)];
    forall i, b | 0 <= i < 5 && b in keys[i] ensures PairedBlock(i, b, records') {
      assert PairedBlock(i, b, records);
    }
    forall r | r in records' ensures PairedRecord(r, keys, records') {
      assert PairedRecord(r, keys, records);
    }
  }

  lemma {:induction false} RegionBounds(regions: seq<seq<Region>>, i: nat, k: nat)
    requires RegionsApart(regions) && i < |regions| && k < |regions[i]|
    ensures 0 < regions[i][k].lo <= regions[i][k].hi < TWO32
  {}

  /** A block without a payload may change its start, if its record says so too. */
  lemma {:induction false} MovePaired(keys: seq<set<Block>>, records: map<nat, Record>, i: nat, b: Block, s: nat)
    requires Paired(keys, records) && i < 5 && b in keys[i] && b.kind == Data && b.size == 0
    ensures b.rec in records
    ensures Paired(keys[i := keys[i] - {b} + {b.(start := s)}], records[b.rec := records[b.rec].(start := s)])
  {
    assert PairedBlock(i, b, records);
    var keys' := keys[i := keys[i] - {b} + {b.(start := s)}];
    var records' := records[b.rec := records[b.rec].(start := s)];
    forall j, c | 0 <= j < 5 && c in keys'[j] ensures PairedBlock(j, c, records') {
      if c in keys[j] { assert PairedBlock(j, c, records); }
    }
    forall rec | rec in records' ensures PairedRecord(rec, keys', records') {
      assert PairedRecord(rec, keys, records);
    }
  }

  /** The entry of the stack record is the only one that belongs to it. */
  lemma {:induction false} OnlyStackEntry(zones: seq<seq<Info>>, zones0: seq<seq<Info>>, records: map<nat, Record>,
                                          zi: nat, k: nat, i: nat, data: nat, size: nat)
    requires |zones0| == 5 && Paired(KeysAll(zones0), records) && zi < 5 && k < |zones0[zi]|
    requires zones == zones0[zi := Reserve(zones0[zi], k, data, size, Data, TEMP)]
    requires i < |zones[zi]| && zones[zi][i].rec == TEMP
    ensures i == k
  {
    forall m | 0 <= m < |zones0[zi]| ensures zones0[zi][m].rec != TEMP {
      KeysOf(zones0[zi], zones0[zi][m].Key());
      assert zones0[zi][m].Key() in KeysAll(zones0)[zi];
      assert PairedBlock(zi, zones0[zi][m].Key(), records);
    }
    ReserveRecord(zones0[zi], k, data, size, Data, TEMP, i);
  }

  lemma {:induction false} ReserveRecord(z: seq<Info>, k: nat, addr: nat, size: nat, kind: Kind, rec: nat, i: nat)
    requires k < |z| && i <= |z|
    ensures Reserve(z, k, addr, size, kind, rec)[i].rec == if i == k then rec else z[if i < k then i else i - 1].rec
  {}

  // ---- What freeing amounts to ----

  predicate LiveEntry(zones: seq<seq<Info>>, zi: nat, i: nat, data: nat) {
    zi < |zones| && i < |zones[zi]| && zones[zi][i].start == data && IsLive(zones[zi][i])
  }

  /** An empty region sits at `data` in a zone that is searched before `zi`. */
  ghost predicate Shadowed(regions: seq<seq<Region>>, zi: nat, data: nat) {
    exists z, k :: 0 <= z < zi && z < |regions| && 0 <= k < |regions[z]| && regions[z][k].lo == data == regions[z][k].hi
  }

  /** A live block can be freed if and only if no empty region shadows it. */
  lemma {:induction false} FreeableExactly(zones: seq<seq<Info>>, regions: seq<seq<Region>>, data: nat)
    requires AllTile(zones, regions) && RegionsApart(regions)
    ensures Freeable(zones, data) <==> exists zi: nat, i: nat :: LiveEntry(zones, zi, i, data) && !Shadowed(regions, zi, data)
  {
    if zi: nat, i: nat :| FirstAt(zones, zi, i, data) && IsLive(zones[zi][i]) {
      forall z, k | 0 <= z < zi && z < |regions| && 0 <= k < |regions[z]|
        ensures !(regions[z][k].lo == data == regions[z][k].hi)
      {
        RegionHasKey(zones[z], regions[z], Top(regions[z]), k);
        KeysOf(zones[z], Block(regions[z][k].lo, 0, Data, regions[z][k].rec));
      }
      assert LiveEntry(zones, zi, i, data) && !Shadowed(regions, zi, data);
    }
    if zi: nat, i: nat :| LiveEntry(zones, zi, i, data) && !Shadowed(regions, zi, data) {
      forall z, j | 0 <= z <= zi && 0 <= j < |zones[z]| && (z < zi || j < i) ensures zones[z][j].start != data {
        NothingElseStartsThere(zones, regions, zi, i, z, j);
      }
      assert FirstAt(zones, zi, i, data);
    }
  }

  lemma {:induction false} NothingElseStartsThere(zones: seq<seq<Info>>, regions: seq<seq<Region>>, zi: nat, i: nat, z: nat, j: nat)
    requires AllTile(zones, regions) && RegionsApart(regions)
    requires zi < 5 && i < |zones[zi]| && 0 < zones[zi][i].size && z <= zi && j < |zones[z]| && (z < zi || j < i)
    requires !Shadowed(regions, zi, zones[zi][i].start)
    ensures zones[z][j].start != zones[zi][i].start
  {
    TilesSorted(zones[z], regions[z], Top(regions[z]));
    TilesSorted(zones[zi], regions[zi], Top(regions[zi]));
    if z < zi {
      PayloadsDisjoint(zones, regions, zi, i, z, j);
      if zones[z][j].size == 0 {
        var p := BaseOf(zones[z], regions[z], Top(regions[z]), j);
        var q := Inside(zones[zi], regions[zi], Top(regions[zi]), i);
        assert Apart(regions[z][p], regions[zi][q]);
      }
    }
  }
}
