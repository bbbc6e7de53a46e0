// Whole runs of malloc_palloc and malloc_pfree: a run that frees all it allocates, in whatever
// order, leaves every zone list as it was.

module Restore {
  import opened Arith
  import opened Zones
  import opened Allocator

  ghost predicate OldBlockKept(keys0: set<Block>, records0: map<nat, Record>, keys: set<Block>, b: Block) {
    b in keys0 <==> b in keys && b.rec in records0
  }

  ghost predicate OldRecordsKept(records0: map<nat, Record>, records: map<nat, Record>) {
    forall d :: d in records0 ==> d in records && records[d] == records0[d]
  }

  /** Of the blocks that are there, those with old records are the old blocks. */
  ghost predicate OldBlocksKept(keys0: seq<set<Block>>, records0: map<nat, Record>, keys: seq<set<Block>>, records: map<nat, Record>) {
    && |keys0| == |keys| == 5 && OldRecordsKept(records0, records)
    && forall z, b :: 0 <= z < 5 ==> OldBlockKept(keys0[z], records0, keys[z], b)
  }

  lemma KeptAtFirst(keys: seq<set<Block>>, records: map<nat, Record>)
    requires Paired(keys, records)
    ensures OldBlocksKept(keys, records, keys, records)
  {
    forall z, b | 0 <= z < 5 ensures OldBlockKept(keys[z], records, keys[z], b) {
      if b in keys[z] { assert PairedBlock(z, b, records); }
    }
  }

  lemma KeptAt(keys0: seq<set<Block>>, records0: map<nat, Record>, keys: seq<set<Block>>, records: map<nat, Record>, z: int, b: Block)
    requires OldBlocksKept(keys0, records0, keys, records) && 0 <= z < 5
    ensures b in keys0[z] ==> b in keys[z] && b.rec in records0
    ensures b in keys[z] && b.rec in records0 ==> b in keys0[z]
  {
    assert OldBlockKept(keys0[z], records0, keys[z], b);
  }

  lemma KeptWhenAdded(keys0: seq<set<Block>>, records0: map<nat, Record>, keys: seq<set<Block>>, records: map<nat, Record>,
                      zi: nat, tz: nat, d: nat, r: Record)
    requires OldBlocksKept(keys0, records0, keys, records) && zi < 5 && tz < 5 && d !in records
    ensures OldBlocksKept(keys0, records0, AddKey(AddKey(keys, zi, DataBlock(d, r)), tz, DetailBlock(d)), records[d := r])
  {
    var keys' := AddKey(AddKey(keys, zi, DataBlock(d, r)), tz, DetailBlock(d));
    forall z, b | 0 <= z < 5 ensures OldBlockKept(keys0[z], records0, keys'[z], b) {
      KeptAt(keys0, records0, keys, records, z, b);
      assert b in keys'[z] <==> b in keys[z] || (z == zi && b == DataBlock(d, r)) || (z == tz && b == DetailBlock(d));
    }
  }

  lemma KeptWhenDropped(keys0: seq<set<Block>>, records0: map<nat, Record>, keys: seq<set<Block>>, records: map<nat, Record>,
                        zi: nat, tz: nat, b: Block)
    requires OldBlocksKept(keys0, records0, keys, records) && zi < 5 && tz < 5 && b.rec !in records0
    ensures OldBlocksKept(keys0, records0, DropKey(DropKey(keys, zi, b), tz, DetailBlock(b.rec)), records - {b.rec})
  {
    var keys' := DropKey(DropKey(keys, zi, b), tz, DetailBlock(b.rec));
    forall z, c | 0 <= z < 5 ensures OldBlockKept(keys0[z], records0, keys'[z], c) {
      KeptAt(keys0, records0, keys, records, z, c);
      assert c in keys'[z] <==> c in keys[z] && !(z == zi && c == b) && !(z == tz && c == DetailBlock(b.rec));
    }
  }

  /** With no new record left all blocks are the old ones. */
  lemma {:induction false} AllOld(keys0: seq<set<Block>>, records0: map<nat, Record>, keys: seq<set<Block>>, records: map<nat, Record>)
    requires OldBlocksKept(keys0, records0, keys, records) && Paired(keys, records) && records.Keys <= records0.Keys
    ensures keys == keys0 && records == records0
  {
    forall z | 0 <= z < 5 ensures keys[z] == keys0[z] {
      forall b ensures b in keys[z] <==> b in keys0[z] {
        KeptAt(keys0, records0, keys, records, z, b);
        if b in keys[z] { assert PairedBlock(z, b, records); }
      }
    }
  }

  // ---- Runs ----

  /** Release(k) frees what the k-th Allocate got. */
  datatype Command = Allocate(zone: nat, size: nat, align: nat) | Release(k: nat)

  predicate Sound(c: Command) { c.Allocate? ==> c.zone < 5 && c.size + c.align <= TWO32 && IsAlign(c.align) }

  /** What one Allocate got: `data` is 0 when it failed or is freed again; its record is `rec`. */
  datatype Grant = Grant(zone: nat, data: nat, rec: nat)

  /** The heap and the grants at one point of a run. */
  datatype Point = Point(zones: seq<seq<Info>>, records: map<nat, Record>, got: seq<Grant>)

  ghost predicate Allocates(p: Point, zone: nat, size: nat, align: nat, q: Point) {
    && |p.zones| == 5 && zone < 5 && 0 < align && |q.got| == |p.got| + 1 && q.got[..|p.got|] == p.got
    && var g := q.got[|p.got|];
       && g.zone == zone && (g.data == 0 <==> Refuses(p.zones, zone, size, align))
       && if g.data == 0 then q.zones == p.zones && q.records == p.records
          else 0 < size && exists tz :: Took(p.zones, p.records, q.zones, q.records, zone, g.data, size, align, g.rec, tz, DEFAULT_HANDLE)
  }

  /** Freeing nothing, and what malloc_pfree refuses, changes nothing. */
  ghost predicate Releases(p: Point, k: nat, q: Point) {
    if k < |p.got| && p.got[k].data != 0 && Freeable(p.zones, p.got[k].data) then
      && q.got == p.got[k := p.got[k].(data := 0)]
      && exists zi, b, tz :: Freed(p.zones, p.records, q.zones, q.records, p.got[k].data, zi, b, tz)
    else q == p
  }

  ghost predicate Step(p: Point, c: Command, q: Point) {
    match c
    case Allocate(zone, size, align) => Allocates(p, zone, size, align, q)
    case Release(k) => Releases(p, k, q)
  }

  /** run[n] is the state before the n-th command. */
  ghost predicate IsRun(regions: seq<seq<Region>>, run: seq<Point>, commands: seq<Command>) {
    && |run| == |commands| + 1 && run[0].got == []
    && (forall n :: 0 <= n < |run| ==> Consistent(run[n].zones, regions, run[n].records))
    && (forall n :: 0 <= n < |commands| ==> Step(run[n], commands[n], run[n+1]))
  }

  /** Carries out the commands.  A run that releases what it allocates, in whatever order, leaves
      the heap as it was, unless an empty region shadows one of its blocks. */
  method Session(heap: Heap, commands: seq<Command>) returns (got: seq<nat>, ghost run: seq<Point>)
    requires heap.Valid() && forall c :: c in commands ==> Sound(c)
    modifies heap
    ensures heap.Valid() && heap.regions == old(heap.regions) && IsRun(heap.regions, run, commands)
    ensures run[0].zones == old(heap.zones) && run[0].records == old(heap.records)
    ensures run[|commands|].zones == heap.zones && run[|commands|].records == heap.records
    ensures |got| == |run[|commands|].got| && forall k :: 0 <= k < |got| ==> got[k] == run[|commands|].got[k].data
    ensures ReleasesAll(run, commands) ==>
              (heap.zones == old(heap.zones) && heap.records == old(heap.records)
               <==> forall i :: 0 <= i < |commands| && commands[i].Allocate? ==> !Lost(heap.regions, run, commands, i))
  {
    hide Consistent, IsAlign, Step, ReleasesAll, Lost;
    got := [];
    run := [Point(heap.zones, heap.records, [])];
    for n := 0 to |commands|
      invariant heap.Valid() && heap.regions == old(heap.regions) && IsRun(heap.regions, run, commands[..n])
      invariant run[0] == Point(old(heap.zones), old(heap.records), [])
      invariant run[n].zones == heap.zones && run[n].records == heap.records
      invariant |got| == |run[n].got| && forall k :: 0 <= k < |got| ==> got[k] == run[n].got[k].data
    {
      assert commands[n] in commands;
      ghost var q;
      match commands[n] {
        case Allocate(zone, size, align) =>
          got, q := AllocateOne(heap, zone, size, align, got, run[n]);
        case Release(k) =>
          got, q := ReleaseOne(heap, k, got, run[n]);
      }
      Extend(heap.regions, run, commands, n, q);
      run := run + [q];
    }
    assert commands[..|commands|] == commands;
    if ReleasesAll(run, commands) { RunRestores(heap.regions, run, commands); }
  }

  lemma Extend(regions: seq<seq<Region>>, run: seq<Point>, commands: seq<Command>, n: nat, q: Point)
    requires n < |commands| && IsRun(regions, run, commands[..n])
    requires Step(run[n], commands[n], q) && Consistent(q.zones, regions, q.records)
    ensures IsRun(regions, run + [q], commands[..n+1])
  {
    hide Step, Consistent;
    var run', cs := run + [q], commands[..n+1];
    forall m | 0 <= m < |cs| ensures Step(run'[m], cs[m], run'[m+1]) {
      if m < n { assert Step(run[m], commands[..n][m], run[m+1]); }
    }
  }

  method AllocateOne(heap: Heap, zone: nat, size: nat, align: nat, got0: seq<nat>, ghost p: Point) returns (got: seq<nat>, ghost q: Point)
    requires heap.Valid() && zone < 5 && size + align <= TWO32 && IsAlign(align)
    requires p.zones == heap.zones && p.records == heap.records
    requires |got0| == |p.got| && forall k :: 0 <= k < |got0| ==> got0[k] == p.got[k].data
    modifies heap
    ensures heap.Valid() && heap.regions == old(heap.regions) && Step(p, Allocate(zone, size, align), q)
    ensures q.zones == heap.zones && q.records == heap.records
    ensures |got| == |q.got| && forall k :: 0 <= k < |got| ==> got[k] == q.got[k].data
  {
    hide Tiles, RegionsApart, Paired, Refuses, FirstFit, AddKey, Keys;
    var data, d, tz := heap.Palloc(zone, size, align);
    got := got0 + [data];
    q := Point(heap.zones, heap.records, p.got + [Grant(zone, data, d)]);
    if data != 0 {
      assert Took(p.zones, p.records, q.zones, q.records, zone, data, size, align, d, tz, DEFAULT_HANDLE);
    }
  }

  /** free(), which takes no notice of a null pointer */
  method ReleaseOne(heap: Heap, k: nat, got0: seq<nat>, ghost p: Point) returns (got: seq<nat>, ghost q: Point)
    requires heap.Valid() && p.zones == heap.zones && p.records == heap.records
    requires |got0| == |p.got| && forall k :: 0 <= k < |got0| ==> got0[k] == p.got[k].data
    modifies heap
    ensures heap.Valid() && heap.regions == old(heap.regions) && Step(p, Release(k), q)
    ensures q.zones == heap.zones && q.records == heap.records
    ensures |got| == |q.got| && forall k :: 0 <= k < |got| ==> got[k] == q.got[k].data
  {
    hide Tiles, RegionsApart, Paired, Freeable, DropKey, Keys;
    got, q := got0, p;
    if k < |got0| && got0[k] != 0 {
      var ret, zi, b, tz := heap.Pfree(got0[k]);
      if ret == 0 {
        got := got0[k := 0];
        q := Point(heap.zones, heap.records, p.got[k := p.got[k].(data := 0)]);
        assert Freed(p.zones, p.records, q.zones, q.records, got0[k], zi, b, tz);
      }
    }
  }

  // ---- Who owns what ----

  /** The live grants have new records, each its own, and all new records are theirs. */
  ghost predicate Owned(got: seq<Grant>, records0: map<nat, Record>, records: map<nat, Record>) {
    && (forall k :: 0 <= k < |got| && got[k].data != 0 ==> OwnRecord(got[k], records0, records))
    && (forall j, k :: 0 <= j < k < |got| && got[j].data != 0 && got[k].data != 0 ==> got[j].rec != got[k].rec)
    && (forall d :: d in records && d !in records0 ==> exists k :: 0 <= k < |got| && got[k].data != 0 && got[k].rec == d)
  }

  predicate OwnRecord(g: Grant, records0: map<nat, Record>, records: map<nat, Record>) {
    && g.rec in records && g.rec !in records0
    && records[g.rec].zone == g.zone && records[g.rec].start == g.data && 0 < records[g.rec].size
  }

  lemma OwnedMore(got: seq<Grant>, records0: map<nat, Record>, records: map<nat, Record>, g: Grant, r: Record)
    requires Owned(got, records0, records) && g.rec !in records && OldRecordsKept(records0, records)
    requires r.zone == g.zone && r.start == g.data && 0 < r.size && g.data != 0
    ensures Owned(got + [g], records0, records[g.rec := r])
  {
    var got', records' := got + [g], records[g.rec := r];
    forall k | 0 <= k < |got'| && got'[k].data != 0 ensures OwnRecord(got'[k], records0, records') {
      if k < |got| { assert OwnRecord(got[k], records0, records); }
    }
    forall j, k | 0 <= j < k < |got'| && got'[j].data != 0 && got'[k].data != 0 ensures got'[j].rec != got'[k].rec {
      assert OwnRecord(got[j], records0, records);
    }
    forall d | d in records' && d !in records0 ensures exists k :: 0 <= k < |got'| && got'[k].data != 0 && got'[k].rec == d {
      if d == g.rec {
        assert got'[|got|].rec == d;
      } else {
        var k :| 0 <= k < |got| && got[k].data != 0 && got[k].rec == d;
        assert got'[k].rec == d;
      }
    }
  }

  lemma OwnedSame(got: seq<Grant>, records0: map<nat, Record>, records: map<nat, Record>, g: Grant)
    requires Owned(got, records0, records) && g.data == 0
    ensures Owned(got + [g], records0, records)
  {
    forall d | d in records && d !in records0 ensures exists k :: 0 <= k < |got + [g]| && (got + [g])[k].data != 0 && (got + [g])[k].rec == d {
      var k :| 0 <= k < |got| && got[k].data != 0 && got[k].rec == d;
      assert (got + [g])[k] == got[k];
    }
  }

  lemma OwnedLess(got: seq<Grant>, records0: map<nat, Record>, records: map<nat, Record>, n: nat)
    requires Owned(got, records0, records) && n < |got| && got[n].data != 0
    ensures Owned(got[n := got[n].(data := 0)], records0, records - {got[n].rec})
  {
    var got', records' := got[n := got[n].(data := 0)], records - {got[n].rec};
    forall k | 0 <= k < |got'| && got'[k].data != 0 ensures OwnRecord(got'[k], records0, records') {
      assert OwnRecord(got[k], records0, records);
      assert k < n ==> got[k].rec != got[n].rec;
      assert n < k ==> got[n].rec != got[k].rec;
    }
    forall d | d in records' && d !in records0 ensures exists k :: 0 <= k < |got'| && got'[k].data != 0 && got'[k].rec == d {
      var k :| 0 <= k < |got| && got[k].data != 0 && got[k].rec == d;
      assert got'[k].data != 0;
    }
  }

  lemma OwnedAt(got: seq<Grant>, records0: map<nat, Record>, records: map<nat, Record>, n: nat)
    requires Owned(got, records0, records) && n < |got| && got[n].data != 0
    ensures OwnRecord(got[n], records0, records)
  {}

  /** The block that malloc_pfree frees for an address of one's own is one's own. */
  lemma {:induction false} OwnBlock(zones: seq<seq<Info>>, regions: seq<seq<Region>>, records: map<nat, Record>, records0: map<nat, Record>,
                                    g: Grant, zi: nat, b: Block)
    requires Consistent(zones, regions, records) && OwnRecord(g, records0, records)
    requires zi < 5 && b in KeysAll(zones)[zi] && b.start == g.data && 0 < b.size
    ensures b.rec == g.rec
  {
    assert PairedRecord(g.rec, KeysAll(zones), records);
    SameStartSameBlock(zones, regions, g.zone, DataBlock(g.rec, records[g.rec]), zi, b);
  }

  lemma {:induction false} OwnIsLive(zones: seq<seq<Info>>, regions: seq<seq<Region>>, records: map<nat, Record>,
                                     records0: map<nat, Record>, g: Grant) returns (i: nat)
    requires Consistent(zones, regions, records) && OwnRecord(g, records0, records)
    ensures LiveEntry(zones, g.zone, i, g.data)
  {
    hide TilesFrom, Tiles, RegionsApart;
    assert PairedRecord(g.rec, KeysAll(zones), records);
    KeysOf(zones[g.zone], DataBlock(g.rec, records[g.rec]));
    i :| 0 <= i < |zones[g.zone]| && zones[g.zone][i].Key() == DataBlock(g.rec, records[g.rec]);
  }

  /** It can be freed if and only if no empty region shadows it. */
  lemma {:induction false} OwnFreeable(zones: seq<seq<Info>>, regions: seq<seq<Region>>, records: map<nat, Record>,
                                       records0: map<nat, Record>, g: Grant)
    requires Consistent(zones, regions, records) && OwnRecord(g, records0, records)
    ensures Freeable(zones, g.data) <==> !Shadowed(regions, g.zone, g.data)
  {
    hide TilesFrom, Tiles, RegionsApart, Freeable, Shadowed;
    FreeableExactly(zones, regions, g.data);
    var i := OwnIsLive(zones, regions, records, records0, g);
    forall zj: nat, j: nat | LiveEntry(zones, zj, j, g.data) ensures zj == g.zone {
      if zj != g.zone { PayloadsDisjoint(zones, regions, g.zone, i, zj, j); }
    }
  }

  /** What holds between the first and any later point of a run. */
  ghost predicate Kept(p0: Point, p: Point) {
    OldBlocksKept(KeysAll(p0.zones), p0.records, KeysAll(p.zones), p.records) && Owned(p.got, p0.records, p.records)
  }

  lemma {:induction false} AllocatesKeeps(p0: Point, p: Point, zone: nat, size: nat, align: nat, q: Point)
    requires Kept(p0, p) && Allocates(p, zone, size, align, q)
    ensures Kept(p0, q)
  {
    hide Refuses, FirstFit, OldBlocksKept, Owned, KeysAll, AddKey;
    var g := q.got[|p.got|];
    assert q.got == p.got + [g];
    KeptKeys(KeysAll(p0.zones), p0.records, KeysAll(p.zones), p.records);
    if g.data == 0 {
      OwnedSame(p.got, p0.records, p.records, g);
    } else {
      var tz :| Took(p.zones, p.records, q.zones, q.records, zone, g.data, size, align, g.rec, tz, DEFAULT_HANDLE);
      var r := Record(zone, g.data, size, DEFAULT_HANDLE);
      KeptWhenAdded(KeysAll(p0.zones), p0.records, KeysAll(p.zones), p.records, zone, tz, g.rec, r);
      OwnedMore(p.got, p0.records, p.records, g, r);
    }
  }

  lemma KeptKeys(keys0: seq<set<Block>>, records0: map<nat, Record>, keys: seq<set<Block>>, records: map<nat, Record>)
    requires OldBlocksKept(keys0, records0, keys, records)
    ensures OldRecordsKept(records0, records) && |keys0| == |keys| == 5
  {}

  lemma {:induction false} ReleasesKeeps(regions: seq<seq<Region>>, p0: Point, p: Point, k: nat, q: Point)
    requires Kept(p0, p) && Releases(p, k, q) && Consistent(p.zones, regions, p.records)
    ensures Kept(p0, q)
  {
    hide Consistent, Freeable, OldBlocksKept, Owned, KeysAll, DropKey, OwnRecord;
    if k < |p.got| && p.got[k].data != 0 && Freeable(p.zones, p.got[k].data) {
      var g := p.got[k];
      var zi, b, tz :| Freed(p.zones, p.records, q.zones, q.records, g.data, zi, b, tz);
      OwnedAt(p.got, p0.records, p.records, k);
      OwnBlock(p.zones, regions, p.records, p0.records, g, zi, b);
      OwnIsNew(g, p0.records, p.records);
      KeptWhenDropped(KeysAll(p0.zones), p0.records, KeysAll(p.zones), p.records, zi, tz, b);
      OwnedLess(p.got, p0.records, p.records, k);
    }
  }

  lemma OwnIsNew(g: Grant, records0: map<nat, Record>, records: map<nat, Record>)
    requires OwnRecord(g, records0, records)
    ensures g.rec !in records0
  {}

  lemma {:induction false} RunKeeps(regions: seq<seq<Region>>, run: seq<Point>, commands: seq<Command>, n: nat)
    requires IsRun(regions, run, commands) && n <= |commands|
    ensures Kept(run[0], run[n])
  {
    hide Consistent, Allocates, Releases, Kept;
    if n == 0 {
      KeptFirst(regions, run[0]);
    } else {
      RunKeeps(regions, run, commands, n - 1);
      assert Step(run[n-1], commands[n-1], run[n-1+1]);
      match commands[n-1]
      case Allocate(zone, size, align) => AllocatesKeeps(run[0], run[n-1], zone, size, align, run[n]);
      case Release(k) => ReleasesKeeps(regions, run[0], run[n-1], k, run[n]);
    }
  }

  lemma KeptFirst(regions: seq<seq<Region>>, p: Point)
    requires Consistent(p.zones, regions, p.records) && p.got == []
    ensures Kept(p, p)
  {
    hide Paired, OldBlocksKept;
    KeptAtFirst(KeysAll(p.zones), p.records);
  }

  /** The heap is what it was if and only if no grant is left. */
  lemma {:induction false} NothingLeft(regions: seq<seq<Region>>, p0: Point, p: Point)
    requires Kept(p0, p) && Consistent(p0.zones, regions, p0.records) && Consistent(p.zones, regions, p.records)
    ensures p.zones == p0.zones && p.records == p0.records <==> forall k :: 0 <= k < |p.got| ==> p.got[k].data == 0
  {
    hide AllTile, RegionsApart, Paired, OldBlocksKept, KeysAll;
    if forall k :: 0 <= k < |p.got| ==> p.got[k].data == 0 {
      assert p.records.Keys <= p0.records.Keys;
      AllOld(KeysAll(p0.zones), p0.records, KeysAll(p.zones), p.records);
      BlocksDetermineZones(p.zones, p0.zones, regions);
    }
    if k :| 0 <= k < |p.got| && p.got[k].data != 0 {
      assert OwnRecord(p.got[k], p0.records, p.records);
    }
  }

  // ---- What becomes of one grant ----

  /** How many allocations there are: the next one gets this number. */
  function Slots(commands: seq<Command>): nat {
    if commands == [] then 0
    else Slots(commands[..|commands|-1]) + if commands[|commands|-1].Allocate? then 1 else 0
  }

  /** Every allocation that succeeds is followed by its release. */
  ghost predicate ReleasesAll(run: seq<Point>, commands: seq<Command>)
    requires |run| == |commands| + 1
  {
    forall i :: 0 <= i < |commands| && commands[i].Allocate? ==> FailsOrReleased(run, commands, i, Slots(commands[..i]))
  }

  ghost predicate FailsOrReleased(run: seq<Point>, commands: seq<Command>, i: int, k: nat)
    requires |run| == |commands| + 1 && 0 <= i < |commands|
  {
    (k < |run[i+1].got| && run[i+1].got[k].data == 0) || ReleasedAfter(commands, i, k, |commands|)
  }

  predicate ReleasedAfter(commands: seq<Command>, i: int, k: nat, n: int)
    requires n <= |commands|
  {
    exists j :: 0 <= i < j < n && commands[j] == Release(k)
  }

  /** The i-th command allocated a block at the address of an empty region of a zone that
      alloc_find searches before the block's own. */
  ghost predicate Lost(regions: seq<seq<Region>>, run: seq<Point>, commands: seq<Command>, i: int)
    requires 0 <= i < |commands| && |run| == |commands| + 1
  {
    var k := Slots(commands[..i]);
    k < |run[i+1].got| && Stuck(regions, run[i+1].got[k])
  }

  ghost predicate Stuck(regions: seq<seq<Region>>, g: Grant) { g.data != 0 && Shadowed(regions, g.zone, g.data) }

  lemma {:induction false} SlotCount(regions: seq<seq<Region>>, run: seq<Point>, commands: seq<Command>, n: nat)
    requires IsRun(regions, run, commands) && n <= |commands|
    ensures |run[n].got| == Slots(commands[..n])
  {
    hide Consistent, Refuses, Freeable, Freed, Took;
    if n > 0 {
      SlotCount(regions, run, commands, n - 1);
      assert Step(run[n-1], commands[n-1], run[n-1+1]);
      assert commands[..n][..n-1] == commands[..n-1];
    }
  }

  /** One command: only its release ends a grant, and only if it is not stuck. */
  lemma {:induction false} GrantStep(regions: seq<seq<Region>>, p0: Point, p: Point, c: Command, q: Point, k: nat)
    requires Kept(p0, p) && Step(p, c, q) && Consistent(p.zones, regions, p.records) && k < |p.got|
    ensures k < |q.got|
    ensures q.got[k] == if c == Release(k) && !Stuck(regions, p.got[k]) then p.got[k].(data := 0) else p.got[k]
  {
    hide Consistent, Refuses, Took, Freed, Shadowed, Freeable;
    match c
    case Allocate(_, _, _) => assert q.got[..|p.got|][k] == p.got[k];
    case Release(j) =>
      if j == k && p.got[k].data != 0 {
        OwnedAt(p.got, p0.records, p.records, k);
        OwnFreeable(p.zones, regions, p.records, p0.records, p.got[k]);
      }
  }

  lemma {:induction false} GrantAfter(regions: seq<seq<Region>>, run: seq<Point>, commands: seq<Command>, i: nat, k: nat, n: nat)
    requires IsRun(regions, run, commands) && i < n <= |commands| && k < |run[i+1].got|
    ensures k < |run[n].got|
    ensures var g := run[i+1].got[k];
            run[n].got[k] == if ReleasedAfter(commands, i, k, n) && !Stuck(regions, g) then g.(data := 0) else g
  {
    hide Consistent, Step, Kept, Shadowed;
    if n > i + 1 {
      var g := run[i+1].got[k];
      GrantAfter(regions, run, commands, i, k, n - 1);
      RunKeeps(regions, run, commands, n - 1);
      GrantStep(regions, run[0], run[n-1], commands[n-1], run[n-1+1], k);
      if ReleasedAfter(commands, i, k, n) {
        var j :| i < j < n && commands[j] == Release(k);
        assert j < n - 1 ==> ReleasedAfter(commands, i, k, n - 1);
      }
      if ReleasedAfter(commands, i, k, n - 1) {
        var j :| i < j < n - 1 && commands[j] == Release(k);
        assert ReleasedAfter(commands, i, k, n);
      }
    }
  }

  /** The command that asked for the k-th grant. */
  lemma {:induction false} AskedBy(commands: seq<Command>, n: nat, k: nat) returns (i: nat)
    requires n <= |commands| && k < Slots(commands[..n])
    ensures i < n && commands[i].Allocate? && Slots(commands[..i]) == k
  {
    assert commands[..n][..n-1] == commands[..n-1];
    if k < Slots(commands[..n-1]) { i := AskedBy(commands, n - 1, k); } else { i := n - 1; }
  }

  /** A run that releases all it allocates, in whatever order, restores the whole heap: it does
      so unless an empty region shadows one of its blocks. */
  lemma {:induction false} RunRestores(regions: seq<seq<Region>>, run: seq<Point>, commands: seq<Command>)
    requires IsRun(regions, run, commands) && ReleasesAll(run, commands)
    ensures run[|commands|].zones == run[0].zones && run[|commands|].records == run[0].records
            <==> forall i :: 0 <= i < |commands| && commands[i].Allocate? ==> !Lost(regions, run, commands, i)
  {
    hide Consistent, Step, Kept, Stuck, Slots;
    var n := |commands|;
    assert commands[..n] == commands;
    RunKeeps(regions, run, commands, n);
    NothingLeft(regions, run[0], run[n]);
    SlotCount(regions, run, commands, n);
    forall k | 0 <= k < |run[n].got| && run[n].got[k].data != 0
      ensures exists i :: 0 <= i < n && commands[i].Allocate? && Lost(regions, run, commands, i)
    {
      var i := AskedBy(commands, n, k);
      GrantEnds(regions, run, commands, i);
      assert Lost(regions, run, commands, i);
    }
    forall i | 0 <= i < n && commands[i].Allocate? && Lost(regions, run, commands, i)
      ensures exists k :: 0 <= k < |run[n].got| && run[n].got[k].data != 0
    {
      GrantEnds(regions, run, commands, i);
      assert run[n].got[Slots(commands[..i])].data != 0;
    }
  }

  /** What an allocation got is gone in the end unless it is lost. */
  lemma {:induction false} GrantEnds(regions: seq<seq<Region>>, run: seq<Point>, commands: seq<Command>, i: nat)
    requires IsRun(regions, run, commands) && i < |commands| && commands[i].Allocate?
    requires FailsOrReleased(run, commands, i, Slots(commands[..i]))
    ensures var k := Slots(commands[..i]);
            k < |run[|commands|].got| && (run[|commands|].got[k].data != 0 <==> Lost(regions, run, commands, i))
  {
    hide Consistent, Step, Shadowed;
    var k := Slots(commands[..i]);
    SlotCount(regions, run, commands, i + 1);
    assert commands[..i+1][..i] == commands[..i];
    GrantAfter(regions, run, commands, i, k, |commands|);
  }

  // ---- A block that cannot be freed ----

  /** The regions that malloc_preinit makes when the RAM of the first 4 GiB above 1 MiB is
      [0x200000, 0x240000), just enough for ZoneHigh, and [0x300000, 0x310000).  The nothing
      below ZoneHigh is an empty region of ZoneTmpHigh, where alloc_find looks first. */
  method SmallMachine() returns (heap: Heap, ghost d: nat, ghost e: nat)
    ensures fresh(heap) && heap.Valid()
    ensures Region(0x20_0000, 0x20_0000, d) in heap.regions[TMPHIGH]
    ensures heap.zones[HIGH] == [Info(0x20_0000, 0x24_0000, 0, Data, e)] && Spare(heap.zones[TMPLOW], 1999)
  {
    hide Tiles, RegionsApart, Paired, Homed, RecordsFull, Spare, WithEntry;
    heap := new Heap();
    ghost var j, tz;
    d := TwoStretches(heap);
    ghost var a: nat, k: nat :| k <= 1 && heap.regions[TMPHIGH] == Insert([Region(0x30_0000, 0x31_0000, a)], k, Region(0x20_0000, 0x20_0000, d));
    assert heap.regions[TMPHIGH][k] == Region(0x20_0000, 0x20_0000, d);
    assert forall i :: 0 <= i < 3 ==> heap.regions[i] == heap.regions[..TMPHIGH][i];
    ghost var z2 := heap.zones;
    AddedHasHome(z2, TMPLOW, 0x7000, 0x9_0000, 1);
    e, j, tz := heap.AddRegion(TMPLOW, 0x7000, 0x9_0000);
    ghost var z3 := heap.zones;
    AddedSpare(z2, TMPLOW, 0x7000, 0x9_0000, z3, e, tz, TMPLOW, 2000);
    AddedNone(z2, TMPLOW, 0x7000, 0x9_0000, z3, e, tz, HIGH);
    AddedHasHome(z3, HIGH, 0x20_0000, 0x24_0000, 2000);
    e, j, tz := heap.AddRegion(HIGH, 0x20_0000, 0x24_0000);
    AddedSpare(z3, HIGH, 0x20_0000, 0x24_0000, heap.zones, e, tz, TMPLOW, 1999);
    AddedAlone(z3, HIGH, 0x20_0000, 0x24_0000, heap.zones, e, tz);
  }

  method TwoStretches(heap: Heap) returns (ghost d: nat)
    requires heap.Valid() && heap.zones == [[], [], [], [], []] && heap.regions == [[], [], [], [], []]
    modifies heap
    ensures heap.Valid() && heap.zones[HIGH] == []
    ensures heap.regions[..TMPHIGH] == [[], [], []] && heap.regions[HIGH] == []
    ensures exists a: nat, j: nat :: j <= 1 && heap.regions[TMPHIGH] == Insert([Region(0x30_0000, 0x31_0000, a)], j, Region(0x20_0000, 0x20_0000, d))
  {
    hide Tiles, RegionsApart, Paired, Homed, RecordsFull, Spare, WithEntry;
    ghost var z0 := heap.zones;
    AddedHasHome(z0, TMPHIGH, 0x30_0000, 0x31_0000, 1);
    ghost var a, j, tz := heap.AddRegion(TMPHIGH, 0x30_0000, 0x31_0000);
    ghost var z1 := heap.zones;
    AddedSpare(z0, TMPHIGH, 0x30_0000, 0x31_0000, z1, a, tz, TMPHIGH, 1000);
    AddedNone(z0, TMPHIGH, 0x30_0000, 0x31_0000, z1, a, tz, HIGH);
    assert heap.regions[TMPHIGH] == [Region(0x30_0000, 0x31_0000, a)];
    AddedHasHome(z1, TMPHIGH, 0x20_0000, 0x20_0000, 1000);
    d, j, tz := heap.AddRegion(TMPHIGH, 0x20_0000, 0x20_0000);
    AddedNone(z1, TMPHIGH, 0x20_0000, 0x20_0000, heap.zones, d, tz, HIGH);
  }

  lemma {:induction false} WholeZone(zones: seq<seq<Info>>, e: nat, n: nat)
    requires |zones| == 5 && zones[HIGH] == [Info(0x20_0000, 0x24_0000, 0, Data, e)] && Spare(zones[TMPLOW], n) && 0 < n
    ensures !Refuses(zones, HIGH, 0x4_0000, MALLOC_MIN_ALIGN)
    ensures forall k: nat, a: nat :: FirstFit(zones[HIGH], k, a, 0x4_0000, MALLOC_MIN_ALIGN) ==> a == 0x20_0000
  {
    SpareIsRoom(zones[TMPLOW], n);
    assert 0x20_0000 % MALLOC_MIN_ALIGN == 0;
    assert Room(zones[HIGH][0], 0x4_0000, MALLOC_MIN_ALIGN);
  }

  /** The block takes all of ZoneHigh and starts where the empty region sits: it is live, but
      malloc_pfree refuses it. */
  method CannotBeFreed() returns (heap: Heap, data: nat, ret: int)
    ensures heap.Valid() && data == 0x20_0000 && ret == -1
    ensures exists i: nat :: LiveEntry(heap.zones, HIGH, i, data)
    ensures Shadowed(heap.regions, HIGH, data) && !Freeable(heap.zones, data)
  {
    hide Tiles, RegionsApart, Paired, Homed, Refuses, FirstFit, RecordsFull, Spare, Freeable, Shadowed;
    ghost var e, zi, b, d, tz;
    heap, d, e := SmallMachine();
    WholeZone(heap.zones, e, 1999);
    EmptyShadows(heap.regions, d);
    data, d, tz := heap.Palloc(HIGH, 0x4_0000, MALLOC_MIN_ALIGN);
    OwnFreeable(heap.zones, heap.regions, heap.records, map[], Grant(HIGH, data, d));
    ghost var i := OwnIsLive(heap.zones, heap.regions, heap.records, map[], Grant(HIGH, data, d));
    ret, zi, b, tz := heap.Pfree(data);
  }

  lemma EmptyShadows(regions: seq<seq<Region>>, d: nat)
    requires |regions| == 5 && Region(0x20_0000, 0x20_0000, d) in regions[TMPHIGH]
    ensures Shadowed(regions, HIGH, 0x20_0000)
  {
    var k :| 0 <= k < |regions[TMPHIGH]| && regions[TMPHIGH][k] == Region(0x20_0000, 0x20_0000, d);
    assert regions[TMPHIGH][k].lo == regions[TMPHIGH][k].hi;
  }
}
