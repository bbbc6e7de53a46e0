// malloc_palloc and malloc_pfree of src/malloc.c on the five zone lists in one memory: the nodes
// follow the sequences of Allocator.

module HeapLists {
  import opened Arith
  import opened Zones
  import opened Allocator
  import opened HList
  import opened ZoneLists

  // ---- In a consistent heap no two entries overlap ----

  /** Keys tell the entries of a list apart, also those of its regions. */
  lemma {:induction false} KeysDistinct(z: seq<Info>, rs: seq<Region>, top: nat, k: nat, m: nat)
    requires TilesFrom(z, rs, top) && Descending(rs) && (rs == [] || top <= rs[0].hi) && k < m < |z|
    ensures z[k].Key() != z[m].Key()
    decreases k
  {
    if k == 0 {
      HeadIsUnique(z, rs, top);
    } else if z[0].size == 0 {
      DescendingTail(rs);
      KeysDistinct(z[1..], rs[1..], Top(rs[1..]), k - 1, m - 1);
    } else {
      KeysDistinct(z[1..], rs, z[0].start, k - 1, m - 1);
    }
  }

  predicate OffRange(a: int, n: int, lo: int, hi: int) { a + n <= lo || hi <= a }

  /** Two records lie apart. */
  lemma {:induction false} RecordsApart(zones: seq<seq<Info>>, regions: seq<seq<Region>>, records: map<nat, Record>, r: nat, s: nat)
    requires Consistent(zones, regions, records) && r in records && s in records && r != s
    ensures r + DETAIL_SIZE <= s || s + DETAIL_SIZE <= r
  {
    hide Tiles, RegionsApart, Paired;
    var i, k := RecordStart(zones, regions, records, r);
    var j, m := RecordStart(zones, regions, records, s);
    PayloadsDisjoint(zones, regions, i, k, j, m);
  }

  /** An entry belongs to a known record; one record has one entry of each kind. */
  lemma {:induction false} OneEntryEach(zones: seq<seq<Info>>, regions: seq<seq<Region>>, records: map<nat, Record>,
                                        i: nat, k: nat, j: nat, m: nat)
    requires Consistent(zones, regions, records) && i < 5 && k < |zones[i]| && j < 5 && m < |zones[j]|
    requires zones[i][k].rec == zones[j][m].rec && zones[i][k].kind == zones[j][m].kind
    ensures i == j && k == m
  {
    hide Keys;
    var e, f := zones[i][k], zones[j][m];
    KeysOf(zones[i], e.Key());
    KeysOf(zones[j], f.Key());
    assert PairedBlock(i, e.Key(), records) && PairedBlock(j, f.Key(), records);
    assert e.Key() == f.Key();
    if i != j || k != m {
      PayloadsDisjoint(zones, regions, i, k, j, m);
      if i == j && k < m { KeysDistinct(zones[i], regions[i], Top(regions[i]), k, m); }
      if i == j && m < k { KeysDistinct(zones[i], regions[i], Top(regions[i]), m, k); }
    }
  }

  lemma {:induction false} EntryRecord(zones: seq<seq<Info>>, regions: seq<seq<Region>>, records: map<nat, Record>, i: nat, k: nat)
    requires Consistent(zones, regions, records) && i < 5 && k < |zones[i]|
    ensures zones[i][k].rec in records && zones[i][k].rec != TEMP
  {
    hide Keys;
    KeysOf(zones[i], zones[i][k].Key());
    assert PairedBlock(i, zones[i][k].Key(), records);
  }

  lemma {:induction false} NodesApart(zones: seq<seq<Info>>, regions: seq<seq<Region>>, records: map<nat, Record>, t: int,
                                      i: nat, k: nat, j: nat, m: nat)
    requires Consistent(zones, regions, records) && i < 5 && k < |zones[i]| && j < 5 && m < |zones[j]| && (i != j || k != m)
    ensures Apart20(NodeOf(zones[i][k], t), NodeOf(zones[j][m], t))
  {
    hide Tiles, RegionsApart, Paired;
    EntryRecord(zones, regions, records, i, k);
    EntryRecord(zones, regions, records, j, m);
    var r, s := zones[i][k].rec, zones[j][m].rec;
    if r != s {
      RecordsApart(zones, regions, records, r, s);
    } else if zones[i][k].kind == zones[j][m].kind {
      OneEntryEach(zones, regions, records, i, k, j, m);
    }
  }

  /** [a, a + n) meets no record. */
  ghost predicate OffRecords(a: int, n: int, records: map<nat, Record>) {
    forall r :: r in records ==> OffRange(a, n, r, r + DETAIL_SIZE)
  }

  /** The list heads lie apart from each other and from all records. */
  ghost predicate HeadsApart(heads: seq<int>, records: map<nat, Record>) {
    && |heads| == 5 && (forall i :: 0 <= i < 5 ==> OffRecords(heads[i], 4, records))
    && (forall i, j :: 0 <= i < 5 && 0 <= j < 5 && i != j ==> OffRange(heads[i], 4, heads[j], heads[j] + 4))
  }

  /** In a consistent heap the five lists are laid out in memory without overlap, within each list
      and between them. */
  lemma {:induction false} ListsApart(zones: seq<seq<Info>>, regions: seq<seq<Region>>, records: map<nat, Record>, heads: seq<int>, t: int)
    requires Consistent(zones, regions, records) && HeadsApart(heads, records)
    ensures forall i :: 0 <= i < 5 ==> Spread(heads[i], Nodes(zones[i], t))
    ensures forall i, j :: 0 <= i < 5 && 0 <= j < 5 && i != j ==> CellsApart(heads[i], Nodes(zones[i], t), heads[j], Nodes(zones[j], t))
  {
    hide Tiles, RegionsApart, Paired;
    forall i | 0 <= i < 5 ensures Spread(heads[i], Nodes(zones[i], t)) { ListSpread(zones, regions, records, heads, t, i); }
    forall i, j | 0 <= i < 5 && 0 <= j < 5 && i != j
      ensures CellsApart(heads[i], Nodes(zones[i], t), heads[j], Nodes(zones[j], t))
    {
      TwoListsApart(zones, regions, records, heads, t, i, j);
    }
  }

  lemma {:induction false} NodeOffHead(zones: seq<seq<Info>>, regions: seq<seq<Region>>, records: map<nat, Record>, heads: seq<int>, t: int,
                                       i: nat, j: nat, k: nat)
    requires Consistent(zones, regions, records) && HeadsApart(heads, records) && i < 5 && j < 5 && k < |zones[j]|
    ensures 0 < NodeOf(zones[j][k], t) && OffHead(heads[i], NodeOf(zones[j][k], t))
  {
    hide Tiles, RegionsApart, Paired;
    EntryRecord(zones, regions, records, j, k);
    assert OffRange(heads[i], 4, zones[j][k].rec, zones[j][k].rec + DETAIL_SIZE);
  }

  lemma {:induction false} ListSpread(zones: seq<seq<Info>>, regions: seq<seq<Region>>, records: map<nat, Record>, heads: seq<int>, t: int, i: nat)
    requires Consistent(zones, regions, records) && HeadsApart(heads, records) && i < 5
    ensures Spread(heads[i], Nodes(zones[i], t))
  {
    hide Tiles, RegionsApart, Paired, OffRecords, OffHead, Apart20, NodeOf;
    var ns := Nodes(zones[i], t);
    forall k | 0 <= k < |ns| ensures 0 < ns[k] && OffHead(heads[i], ns[k]) { NodeOffHead(zones, regions, records, heads, t, i, i, k); }
    forall k, m | 0 <= k < |ns| && 0 <= m < |ns| && k != m ensures Apart20(ns[k], ns[m]) {
      NodesApart(zones, regions, records, t, i, k, i, m);
    }
  }

  lemma {:induction false} TwoListsApart(zones: seq<seq<Info>>, regions: seq<seq<Region>>, records: map<nat, Record>, heads: seq<int>, t: int,
                                         i: nat, j: nat)
    requires Consistent(zones, regions, records) && HeadsApart(heads, records) && i < 5 && j < 5 && i != j
    ensures CellsApart(heads[i], Nodes(zones[i], t), heads[j], Nodes(zones[j], t))
  {
    hide Tiles, RegionsApart, Paired, NodeOf;
    var ns, ms := Nodes(zones[i], t), Nodes(zones[j], t);
    forall a | CellOf(heads[i], ns, a) ensures !CellOf(heads[j], ms, a) {
      if CellOf(heads[j], ms, a) {
        if a == heads[i] {
          assert OffRange(heads[i], 4, heads[j], heads[j] + 4);
          if m :| 0 <= m < |ms| && InInfo(ms[m], a) { NodeOffHead(zones, regions, records, heads, t, i, j, m); }
        } else {
          var k :| 0 <= k < |ns| && InInfo(ns[k], a);
          NodeOffHead(zones, regions, records, heads, t, j, i, k);
          if m :| 0 <= m < |ms| && InInfo(ms[m], a) { NodesApart(zones, regions, records, t, i, k, j, m); }
        }
      }
    }
  }

  // ---- All zones in one memory ----

  /** The memory holds the five zone lists, without common cells. */
  ghost predicate MemoryHolds(m: Memory, heads: seq<int>, zones: seq<seq<Info>>, t: int) {
    && |heads| == |zones| == 5
    && (forall i :: 0 <= i < 5 ==> Holds(m, heads[i], zones[i], t))
    && (forall i, j :: 0 <= i < 5 && 0 <= j < 5 && i != j ==> CellsApart(heads[i], Nodes(zones[i], t), heads[j], Nodes(zones[j], t)))
  }

  /** What one zone list's operation does to all of them. */
  lemma {:induction false} OneZoneChanges(m: Memory, m': Memory, heads: seq<int>, zones: seq<seq<Info>>, t: int, i: nat, z: seq<Info>, n: int)
    requires MemoryHolds(m, heads, zones, t) && i < 5 && Holds(m', heads[i], z, t)
    requires Elsewhere(m, m', heads[i], Nodes(zones[i], t), n)
    requires forall a :: CellOf(heads[i], Nodes(z, t), a) ==> CellOf(heads[i], Nodes(zones[i], t), a) || InInfo(n, a)
    requires forall j :: 0 <= j < 5 && j != i ==> OffNode(heads[j], Nodes(zones[j], t), n)
    ensures MemoryHolds(m', heads, zones[i := z], t)
  {
    hide Holds, Read, Nodes, CellOf, InInfo;
    var zones' := zones[i := z];
    forall j | 0 <= j < 5 ensures Holds(m', heads[j], zones'[j], t) {
      if j != i {
        assert CellsApart(heads[j], Nodes(zones[j], t), heads[i], Nodes(zones[i], t));
        assert OffNode(heads[j], Nodes(zones[j], t), n);
        forall a | CellOf(heads[j], Nodes(zones[j], t), a) ensures Read(m', a) == Read(m, a) {}
        HoldsFrame(m, m', heads[j], zones[j], t);
      }
    }
    forall j, k | 0 <= j < 5 && 0 <= k < 5 && j != k
      ensures CellsApart(heads[j], Nodes(zones'[j], t), heads[k], Nodes(zones'[k], t))
    {
      assert CellsApart(heads[j], Nodes(zones[j], t), heads[k], Nodes(zones[k], t));
      if k == i { assert OffNode(heads[j], Nodes(zones[j], t), n); }
      if j == i { assert OffNode(heads[k], Nodes(zones[k], t), n); }
    }
  }

  /** The entry at `n` has no cell of the list. */
  ghost predicate OffNode(head: int, ns: seq<int>, n: int) { forall a :: CellOf(head, ns, a) ==> !InInfo(n, a) }

  // ---- malloc_pfree ----

  lemma {:induction false} ReleaseCells(z: seq<Info>, t: int, i: nat, head: int)
    requires i < |z|
    ensures forall a :: CellOf(head, Nodes(Release(z, i), t), a) ==> CellOf(head, Nodes(z, t), a)
  {
    var r := Release(z, i);
    var ns, ms := Nodes(r, t), Nodes(z, t);
    forall a | CellOf(head, ns, a) ensures CellOf(head, ms, a) {
      if a != head {
        var k :| 0 <= k < |ns| && InInfo(ns[k], a);
        var o := if k < i then k else k + 1;
        assert ns[k] == ms[o];
      }
    }
  }

  lemma {:induction false} OwnNode(m: Memory, heads: seq<int>, zones: seq<seq<Info>>, t: int, i: nat, k: nat)
    requires MemoryHolds(m, heads, zones, t) && i < 5 && k < |zones[i]|
    ensures forall j :: 0 <= j < 5 && j != i ==> OffNode(heads[j], Nodes(zones[j], t), NodeOf(zones[i][k], t))
  {
    hide Holds, NodeOf;
    forall j | 0 <= j < 5 && j != i ensures OffNode(heads[j], Nodes(zones[j], t), NodeOf(zones[i][k], t)) {
      assert CellsApart(heads[j], Nodes(zones[j], t), heads[i], Nodes(zones[i], t));
      forall a | InInfo(NodeOf(zones[i][k], t), a) ensures CellOf(heads[i], Nodes(zones[i], t), a) {
        assert Nodes(zones[i], t)[k] == NodeOf(zones[i][k], t);
      }
    }
  }

  /** alloc_free of entry `k` of zone `i` */
  method FreeIn(h: Machine, n: int, ghost heads: seq<int>, ghost zones: seq<seq<Info>>, ghost t: int, ghost i: nat, ghost k: nat)
    requires MemoryHolds(h.mem, heads, zones, t) && i < 5 && k < |zones[i]| && n == NodeOf(zones[i][k], t)
    modifies h
    ensures MemoryHolds(h.mem, heads, zones[i := Release(zones[i], k)], t)
  {
    hide Holds, CellsApart, OffNode, Release, Elsewhere, CellOf;
    ghost var m := h.mem;
    OwnNode(m, heads, zones, t, i, k);
    ReleaseCells(zones[i], t, k, heads[i]);
    Free(h, heads[i], n, zones[i], t, k);
    OneZoneChanges(m, h.mem, heads, zones, t, i, Release(zones[i], k), n);
  }

  /** alloc_find on the nodes; 0 when there is none. */
  method FindNode(h: Machine, heads: seq<int>, data: nat, ghost zones: seq<seq<Info>>, ghost t: int)
    returns (p: int, ghost zi: nat, ghost i: nat)
    requires MemoryHolds(h.mem, heads, zones, t)
    ensures p != 0 ==> FirstAt(zones, zi, i, data) && p == NodeOf(zones[zi][i], t)
    ensures p == 0 ==> forall z, j :: 0 <= z < 5 && 0 <= j < |zones[z]| ==> zones[z][j].start != data
  {
    hide Holds, CellsApart, Read, NodeOf, Nodes;
    zi, i := 0, 0;
    for z := 0 to 5
      invariant forall y, j :: 0 <= y < z && 0 <= j < |zones[y]| ==> zones[y][j].start != data
    {
      i := 0;
      ListHead(h.mem, heads[z], zones[z], t);
      p := Read(h.mem, heads[z]);
      while p != 0
        invariant 0 <= i <= |zones[z]| && p == Target(Nodes(zones[z], t), i)
        invariant forall j :: 0 <= j < i ==> zones[z][j].start != data
        decreases |zones[z]| - i
      {
        EntryAt(h.mem, heads[z], zones[z], t, i);
        if Read(h.mem, p + RANGE_START) == data {
          zi := z;
          return;
        }
        p := Read(h.mem, p);
        i := i + 1;
      }
      NoMore(zones[z], t, i, heads[z], h.mem);
    }
    p := 0;
  }

  /** malloc_pfree on the nodes: it succeeds exactly when Heap.Pfree does, and the lists in memory are
      then those without the block and its record. */
  method Pfree(h: Machine, heads: seq<int>, data: nat, ghost zones: seq<seq<Info>>, ghost regions: seq<seq<Region>>,
               ghost records: map<nat, Record>, ghost t: int)
    returns (ret: int, ghost zones': seq<seq<Info>>, ghost zi: nat, ghost b: Block, ghost tz: nat)
    requires Consistent(zones, regions, records) && MemoryHolds(h.mem, heads, zones, t)
    modifies h
    ensures ret == 0 || ret == -1
    ensures ret == 0 <==> Freeable(zones, data)
    ensures ret == -1 ==> h.mem == old(h.mem)
    ensures ret == 0 ==> MemoryHolds(h.mem, heads, zones', t) && Freed(zones, records, zones', records - {b.rec}, data, zi, b, tz)
                         && Consistent(zones', regions, records - {b.rec})
  {
    hide Tiles, RegionsApart, Paired, Keys, MemoryHolds, Release, FirstAt, Read;
    zones', b, tz := zones, Block(0, 0, Data, 0), 0;
    ghost var i;
    var p;
    p, zi, i := FindNode(h, heads, data, zones, t);
    if p == 0 {
      NotThere(zones, data);
      return -1, zones', zi, b, tz;
    }
    FoundAt(zones, zi, i, data);
    NodeFields(h.mem, heads, zones, t, zi, i);
    EntryRecord(zones, regions, records, zi, i);
    StartsAtItself(zones, regions, records, zi, i);
    if data == p || Read(h.mem, p + ALLOC_SIZE) == 0 {
      return -1, zones', zi, b, tz;
    }
    ghost var e: Info := zones[zi][i];
    RecordRemains(zones, regions, records, zi, i);
    KeysOf(zones[zi], e.Key());
    b := e.Key();
    FreeIn(h, p, heads, zones, t, zi, i);
    ghost var z1: seq<seq<Info>> := zones[zi := Release(zones[zi], i)];
    ghost var y: nat, j: nat :| y < 5 && HoldsDetails(y) && j < |z1[y]| && z1[y][j].Key() == DetailBlock(e.rec);
    tz := y;
    FreeConsistent(zones, regions, records, zi, i, tz, j);
    FreeIn(h, p - DATA_NODE, heads, z1, t, tz, j);
    zones' := z1[tz := Release(z1[tz], j)];
    ret := 0;
  }

  lemma NotThere(zones: seq<seq<Info>>, data: nat)
    requires |zones| == 5 && forall z, j :: 0 <= z < 5 && 0 <= j < |zones[z]| ==> zones[z][j].start != data
    ensures !Freeable(zones, data)
  {}

  /** What alloc_find found decides whether the block can be freed. */
  lemma FoundAt(zones: seq<seq<Info>>, zi: nat, i: nat, data: nat)
    requires FirstAt(zones, zi, i, data)
    ensures zi < |zones| && i < |zones[zi]| && zones[zi][i].start == data
    ensures Freeable(zones, data) <==> IsLive(zones[zi][i])
  {
    if z2: nat, i2: nat :| FirstAt(zones, z2, i2, data) && IsLive(zones[z2][i2]) { FirstUnique(zones, data, zi, i, z2, i2); }
  }

  lemma NodeFields(m: Memory, heads: seq<int>, zones: seq<seq<Info>>, t: int, i: nat, k: nat)
    requires MemoryHolds(m, heads, zones, t) && i < 5 && k < |zones[i]|
    ensures Read(m, NodeOf(zones[i][k], t) + ALLOC_SIZE) == zones[i][k].size
  {
    EntryAt(m, heads[i], zones[i], t, k);
  }

  // ---- malloc_palloc ----

  /** [a, a + n) meets neither the free part of the entry nor, if it is a record, its payload. */
  predicate SafeFrom(a: int, n: int, e: Info) {
    && (e.start + e.size < e.end ==> OffRange(a, n, e.start + e.size, e.end))
    && (e.kind == Detail ==> OffRange(a, n, e.start, e.start + e.size))
  }

  ghost predicate Safe(a: int, n: int, zones: seq<seq<Info>>) {
    forall i, k :: 0 <= i < |zones| && 0 <= k < |zones[i]| ==> SafeFrom(a, n, zones[i][k])
  }

  /** The list heads and the stack record at `t` lie apart, and outside all records and all memory
      that the allocator could still give away. */
  ghost predicate StackFree(heads: seq<int>, zones: seq<seq<Info>>, t: int) {
    && |heads| == 5 && 0 < t && Safe(t, DETAIL_SIZE, zones)
    && (forall i :: 0 <= i < 5 ==> Safe(heads[i], 4, zones) && OffRange(heads[i], 4, t, t + DETAIL_SIZE))
    && (forall i, j :: 0 <= i < 5 && 0 <= j < 5 && i != j ==> OffRange(heads[i], 4, heads[j], heads[j] + 4))
  }

  lemma {:induction false} SafeRecords(zones: seq<seq<Info>>, regions: seq<seq<Region>>, records: map<nat, Record>, a: int, n: int)
    requires Consistent(zones, regions, records) && Safe(a, n, zones)
    ensures OffRecords(a, n, records)
  {
    hide Tiles, RegionsApart, Paired;
    forall r | r in records ensures OffRange(a, n, r, r + DETAIL_SIZE) {
      var tz, j := RecordStart(zones, regions, records, r);
      assert SafeFrom(a, n, zones[tz][j]);
    }
  }

  /** What is reserved was free before. */
  lemma {:induction false} SafeReserve(a: int, n: int, zones: seq<seq<Info>>, i: nat, k: nat, addr: nat, size: nat, kind: Kind)
    requires Safe(a, n, zones) && i < |zones| && k < |zones[i]| && 0 < size
    requires zones[i][k].start + zones[i][k].size <= addr && addr + size <= zones[i][k].end
    ensures Safe(a, n, zones[i := Reserve(zones[i], k, addr, size, kind, TEMP)]) && OffRange(a, n, addr, addr + size)
  {
    var r := Reserve(zones[i], k, addr, size, kind, TEMP);
    var zones' := zones[i := r];
    assert SafeFrom(a, n, zones[i][k]);
    forall j, m | 0 <= j < |zones'| && 0 <= m < |zones'[j]| ensures SafeFrom(a, n, zones'[j][m]) {
      if j == i {
        var o := if m <= k then m else m - 1;
        assert SafeFrom(a, n, zones[i][o]);
      } else {
        assert SafeFrom(a, n, zones[j][m]);
      }
    }
  }

  /** The entries belong to known records, but for those of the stack record of some kinds. */
  predicate RecsIn(z: seq<Info>, records: map<nat, Record>, temps: set<Kind>) {
    forall k :: 0 <= k < |z| ==> z[k].rec in records || (z[k].rec == TEMP && z[k].kind in temps)
  }

  lemma {:induction false} KnownRecs(zones: seq<seq<Info>>, regions: seq<seq<Region>>, records: map<nat, Record>)
    requires Consistent(zones, regions, records)
    ensures TEMP !in records && forall i :: 0 <= i < 5 ==> RecsIn(zones[i], records, {})
  {
    hide Tiles, RegionsApart;
    forall i, k | 0 <= i < 5 && 0 <= k < |zones[i]| ensures zones[i][k].rec in records { EntryRecord(zones, regions, records, i, k); }
  }

  lemma ReserveRecs(z: seq<Info>, records: map<nat, Record>, temps: set<Kind>, k: nat, addr: nat, size: nat, kind: Kind)
    requires RecsIn(z, records, temps) && k < |z|
    ensures RecsIn(Reserve(z, k, addr, size, kind, TEMP), records, temps + {kind})
  {}

  /** The node of the stack record of one kind is no entry yet. */
  lemma {:induction false} NodeIsSpare(head: int, z: seq<Info>, t: int, records: map<nat, Record>, temps: set<Kind>, kind: Kind)
    requires RecsIn(z, records, temps) && kind !in temps && TEMP !in records && 0 < t
    requires OffRecords(t, DETAIL_SIZE, records) && OffRange(head, 4, t, t + DETAIL_SIZE)
    ensures var n := NodeOf(Info(0, 0, 0, kind, TEMP), t);
            Spare20(head, Nodes(z, t), n) && OffNode(head, Nodes(z, t), n)
  {
    var n, ns := NodeOf(Info(0, 0, 0, kind, TEMP), t), Nodes(z, t);
    forall k | 0 <= k < |ns| ensures Apart20(ns[k], n) {
      if z[k].rec in records { assert OffRange(t, DETAIL_SIZE, z[k].rec, z[k].rec + DETAIL_SIZE); }
    }
    forall a | CellOf(head, ns, a) ensures !InInfo(n, a) {
      if k :| 0 <= k < |ns| && InInfo(ns[k], a) { assert Apart20(ns[k], n); }
    }
  }

  lemma {:induction false} ReserveCells(z: seq<Info>, t: int, k: nat, addr: nat, size: nat, kind: Kind, head: int)
    requires k < |z|
    ensures var n := NodeOf(Info(0, 0, 0, kind, TEMP), t);
            forall a :: CellOf(head, Nodes(Reserve(z, k, addr, size, kind, TEMP), t), a) ==> CellOf(head, Nodes(z, t), a) || InInfo(n, a)
  {
    var r := Reserve(z, k, addr, size, kind, TEMP);
    var n, ns, ms := NodeOf(Info(0, 0, 0, kind, TEMP), t), Nodes(r, t), Nodes(z, t);
    forall a | CellOf(head, ns, a) ensures CellOf(head, ms, a) || InInfo(n, a) {
      if a != head {
        var j :| 0 <= j < |ns| && InInfo(ns[j], a);
        if j == k {
          assert ns[j] == n;
        } else {
          var o := if j < k then j else j - 1;
          assert ns[j] == ms[o];
        }
      }
    }
  }

  lemma {:induction false} SaneZone(zones: seq<seq<Info>>, regions: seq<seq<Region>>, i: nat)
    requires AllTile(zones, regions) && RegionsApart(regions) && i < 5
    ensures Sane(zones[i]) && forall e :: e in zones[i] ==> 0 < e.start
  {
    hide Tiles, RegionsApart;
    forall k | 0 <= k < |zones[i]| ensures 0 < zones[i][k].start && zones[i][k].start + zones[i][k].size <= zones[i][k].end < TWO32 {
      EntryBounds(zones, regions, i, k);
    }
  }

  /** alloc_new in zone `i`, for the stack record's entry of one kind */
  method AllocIn(h: Machine, heads: seq<int>, i: nat, size: nat, align: nat, t: int, kind: Kind,
                 ghost zones: seq<seq<Info>>, ghost regions: seq<seq<Region>>, ghost records: map<nat, Record>, ghost temps: set<Kind>)
    returns (addr: nat, ghost k: nat)
    requires MemoryHolds(h.mem, heads, zones, t) && AllTile(zones, regions) && RegionsApart(regions) && i < 5
    requires 0 < size && size + align <= TWO32 && IsAlign(align)
    requires StackFree(heads, zones, t) && OffRecords(t, DETAIL_SIZE, records) && TEMP !in records && kind !in temps
    requires forall j :: 0 <= j < 5 ==> RecsIn(zones[j], records, temps)
    modifies h
    ensures addr == 0 ==> h.mem == old(h.mem) && !ZoneHasRoom(zones[i], size, align)
    ensures addr != 0 ==> FirstFit(zones[i], k, addr, size, align)
                          && MemoryHolds(h.mem, heads, zones[i := Reserve(zones[i], k, addr, size, kind, TEMP)], t)
  {
    hide Holds, CellsApart, OffNode, Elsewhere, Tiles, RegionsApart, CellOf, Spare20, OffRecords, Safe, Reserve, RecsIn, Sane, IsAlign;
    ghost var m, n := h.mem, NodeOf(Info(0, 0, 0, kind, TEMP), t);
    SaneZone(zones, regions, i);
    forall j | 0 <= j < 5
      ensures Spare20(heads[j], Nodes(zones[j], t), n) && OffNode(heads[j], Nodes(zones[j], t), n)
    {
      NodeIsSpare(heads[j], zones[j], t, records, temps, kind);
    }
    addr, k := AllocNew(h, heads[i], size, align, NodeOf(Info(0, 0, 0, kind, TEMP), t), zones[i], t, kind);
    if addr != 0 {
      ReserveCells(zones[i], t, k, addr, size, kind, heads[i]);
      OneZoneChanges(m, h.mem, heads, zones, t, i, Reserve(zones[i], k, addr, size, kind, TEMP), n);
    }
  }

  /** Where the entries of the stack record are. */
  ghost predicate TempsAt(zones: seq<seq<Info>>, zi: nat, j: nat, tz: nat, k: nat) {
    && |zones| == 5 && zi < 5 && tz < 5 && OnlyTemp(zones[zi], j, Data) && OnlyTemp(zones[tz], k, Detail)
    && (forall i :: 0 <= i < 5 && i != zi ==> NoTemp(zones[i], Data)) && (forall i :: 0 <= i < 5 && i != tz ==> NoTemp(zones[i], Detail))
  }

  /** The record's new home meets no cell of a list. */
  lemma {:induction false} HomeIsOff(head: int, z: seq<Info>, t: int, d: nat, records: map<nat, Record>)
    requires RecsIn(z, records, {Data, Detail}) && OffRange(head, 4, d, d + DETAIL_SIZE) && OffRange(t, DETAIL_SIZE, d, d + DETAIL_SIZE)
    requires forall r :: r in records ==> OffRange(r, DETAIL_SIZE, d, d + DETAIL_SIZE)
    ensures OffRecord(head, Nodes(z, t), d)
  {
    var ns := Nodes(z, t);
    forall a | CellOf(head, ns, a) ensures a < d || d + 4 * RECORD_WORDS <= a {
      if a != head {
        var k :| 0 <= k < |ns| && InInfo(ns[k], a);
        if z[k].rec in records { assert OffRange(z[k].rec, DETAIL_SIZE, d, d + DETAIL_SIZE); }
      }
    }
  }

  /** A list without entries of the stack record stays as it is. */
  lemma {:induction false} RetargetNone(z: seq<Info>, d: nat)
    requires NoTemp(z, Data) && NoTemp(z, Detail)
    ensures Retarget(z, d) == z
  {
    forall k | 0 <= k < |z| ensures Retarget(z, d)[k] == z[k] {}
  }

  lemma {:induction false} OtherListStays(m: Memory, m': Memory, head: int, z: seq<Info>, t: int, d: nat,
                                          h1: int, ns1: seq<int>, h2: int, ns2: seq<int>)
    requires Holds(m, head, z, t) && OffRecord(head, Nodes(z, t), d)
    requires CellsApart(head, Nodes(z, t), h1, ns1) && CellsApart(head, Nodes(z, t), h2, ns2)
    requires forall a :: NoNode(h1, ns1, h2, ns2, d, a) ==> Read(m', a) == Read(m, a)
    ensures Holds(m', head, z, t)
  {
    hide Holds, Read, CellOf;
    forall a | CellOf(head, Nodes(z, t), a) ensures Read(m', a) == Read(m, a) {
      LinksAreCells(h1, ns1, a);
      LinksAreCells(h2, ns2, a);
      assert NoNode(h1, ns1, h2, ns2, d, a);
    }
    HoldsFrame(m, m', head, z, t);
  }

  /** The new record and the heads. */
  lemma {:induction false} HeadsStayApart(heads: seq<int>, records: map<nat, Record>, d: nat, r: Record)
    requires HeadsApart(heads, records) && forall i :: 0 <= i < 5 ==> OffRange(heads[i], 4, d, d + DETAIL_SIZE)
    ensures HeadsApart(heads, records[d := r])
  {}

  /** The record moves from the stack to `d`: all lists follow. */
  method MoveAll(h: Machine, t: int, d: nat, ghost heads: seq<int>, ghost zones: seq<seq<Info>>, ghost final: seq<seq<Info>>,
                 ghost regions: seq<seq<Region>>, ghost records: map<nat, Record>, ghost r: Record,
                 ghost zi: nat, ghost j: nat, ghost tz: nat, ghost k: nat)
    requires MemoryHolds(h.mem, heads, zones, t) && TempsAt(zones, zi, j, tz, k) && 0 < d && d !in records
    requires final == RetargetAll(zones, d) && Consistent(final, regions, records[d := r]) && HeadsApart(heads, records)
    requires forall i :: 0 <= i < 5 ==> RecsIn(zones[i], records, {Data, Detail}) && OffRange(heads[i], 4, d, d + DETAIL_SIZE)
    requires OffRange(t, DETAIL_SIZE, d, d + DETAIL_SIZE)
    modifies h
    ensures MemoryHolds(h.mem, heads, final, t)
  {
    hide Holds, Tiles, RegionsApart, Paired, Keys, RecsIn, OnlyTemp, NoTemp, CellsApart, HeadsApart, OffRecord, NoNode, Read, Retarget, Spread;
    ghost var m := h.mem;
    HeadsStayApart(heads, records, d, r);
    ListsApart(final, regions, records[d := r], heads, t);
    forall q | q in records ensures OffRange(q, DETAIL_SIZE, d, d + DETAIL_SIZE) {
      RecordsApart(final, regions, records[d := r], q, d);
    }
    forall i | 0 <= i < 5 ensures OffRecord(heads[i], Nodes(zones[i], t), d) {
      HomeIsOff(heads[i], zones[i], t, d, records);
    }
    MoveHome(h, t, d, zi == tz, heads[tz], zones[tz], k, heads[zi], zones[zi], j);
    forall i | 0 <= i < 5 ensures Holds(h.mem, heads[i], final[i], t) {
      if i != zi && i != tz {
        OtherListStays(m, h.mem, heads[i], zones[i], t, d, heads[tz], Nodes(zones[tz], t), heads[zi], Nodes(zones[zi], t));
        RetargetNone(zones[i], d);
      }
    }
  }

  lemma {:induction false} TempsBoth(zones: seq<seq<Info>>, records: map<nat, Record>, zi: nat, k: nat, data: nat, size: nat,
                                     tz: nat, k2: nat, d: nat) returns (j: nat)
    requires |zones| == 5 && zi < 5 && k < |zones[zi]| && tz < 5
    requires TEMP !in records && forall i :: 0 <= i < 5 ==> RecsIn(zones[i], records, {})
    requires var placed := zones[zi := Reserve(zones[zi], k, data, size, Data, TEMP)]; k2 < |placed[tz]|
    ensures var placed := zones[zi := Reserve(zones[zi], k, data, size, Data, TEMP)];
            TempsAt(placed[tz := Reserve(placed[tz], k2, d, DETAIL_SIZE, Detail, TEMP)], zi, j, tz, k2)
  {
    var placed := zones[zi := Reserve(zones[zi], k, data, size, Data, TEMP)];
    var z2 := placed[tz := Reserve(placed[tz], k2, d, DETAIL_SIZE, Detail, TEMP)];
    j := if tz == zi && k2 <= k then k + 1 else k;
    OneTemp(zones[zi], records, k, data, size, Data);
    if tz == zi {
      TwoTemps(placed[zi], k, k2, d);
    } else {
      OneTemp(zones[tz], records, k2, d, DETAIL_SIZE, Detail);
    }
    forall i | 0 <= i < 5 && i != zi && i != tz ensures NoTemp(z2[i], Data) && NoTemp(z2[i], Detail) {}
  }

  lemma {:induction false} OneTemp(z: seq<Info>, records: map<nat, Record>, k: nat, addr: nat, size: nat, kind: Kind)
    requires RecsIn(z, records, {}) && TEMP !in records && k < |z|
    ensures var r := Reserve(z, k, addr, size, kind, TEMP);
            OnlyTemp(r, k, kind) && forall other :: other != kind ==> NoTemp(r, other)
  {
    var r := Reserve(z, k, addr, size, kind, TEMP);
    forall m | 0 <= m < |r| && m != k ensures r[m].rec != TEMP {
      assert z[if m < k then m else m - 1].rec in records;
    }
  }

  lemma {:induction false} TwoTemps(z: seq<Info>, k: nat, k2: nat, d: nat)
    requires OnlyTemp(z, k, Data) && NoTemp(z, Detail) && k2 < |z|
    ensures var r := Reserve(z, k2, d, DETAIL_SIZE, Detail, TEMP);
            OnlyTemp(r, k2, Detail) && OnlyTemp(r, if k2 <= k then k + 1 else k, Data)
  {
    var r := Reserve(z, k2, d, DETAIL_SIZE, Detail, TEMP);
    forall m | 0 <= m < |r| && m != k2 ensures r[m].rec == z[if m < k2 then m else m - 1].rec && r[m].kind == z[if m < k2 then m else m - 1].kind {}
  }

  /** alloc_new_detail on the nodes, for a block just placed: it finds a home for the record as
      Heap.AllocNewDetail does. */
  method NewDetail(h: Machine, heads: seq<int>, t: int, ghost zones: seq<seq<Info>>, ghost regions: seq<seq<Region>>,
                   ghost records: map<nat, Record>, ghost zi: nat, ghost k: nat, ghost data: nat, ghost size: nat)
    returns (d: nat, ghost final: seq<seq<Info>>, ghost tz: nat)
    requires Consistent(zones, regions, records) && zi < 5 && k < |zones[zi]| && 0 < size
    requires zones[zi][k].start + zones[zi][k].size <= data && data + size <= zones[zi][k].end
    requires StackFree(heads, zones, t)
    requires MemoryHolds(h.mem, heads, zones[zi := Reserve(zones[zi], k, data, size, Data, TEMP)], t)
    modifies h
    ensures var placed := zones[zi := Reserve(zones[zi], k, data, size, Data, TEMP)];
            && (d == 0 <==> RecordsFull(placed)) && (d == 0 ==> h.mem == old(h.mem))
            && (d != 0 ==>
                  var r := Record(zi, data, size, DEFAULT_HANDLE);
                  && Homed(placed, final, d, tz) && d !in records && tz < 5 && MemoryHolds(h.mem, heads, final, t)
                  && Consistent(final, regions, records[d := r])
                  && KeysAll(final) == AddKey(AddKey(KeysAll(zones), zi, DataBlock(d, r)), tz, DetailBlock(d)))
  {
    hide Tiles, RegionsApart, Paired, Keys, MemoryHolds, StackFree, Safe, OffRecords, RecsIn, Reserve, HeadsApart, TempsAt, Moved, Retarget;
    ghost var placed := zones[zi := Reserve(zones[zi], k, data, size, Data, TEMP)];
    KnownRecs(zones, regions, records);
    PlacedState(heads, zones, regions, records, t, zi, k, data, size);
    final, tz := placed, TMPHIGH;
    ghost var k2;
    d, k2 := AllocIn(h, heads, TMPHIGH, DETAIL_SIZE, MALLOC_MIN_ALIGN, t, Detail, placed, regions, records, {Data});
    if d == 0 {
      d, k2 := AllocIn(h, heads, TMPLOW, DETAIL_SIZE, MALLOC_MIN_ALIGN, t, Detail, placed, regions, records, {Data});
      tz := TMPLOW;
      if d == 0 {
        return;
      }
    }
    ghost var z2 := placed[tz := Reserve(placed[tz], k2, d, DETAIL_SIZE, Detail, TEMP)];
    final := RetargetAll(z2, d);
    HomeState(heads, zones, regions, records, t, zi, k, data, size, tz, k2, d);
    ghost var j := TempsBoth(zones, records, zi, k, data, size, tz, k2, d);
    MoveAll(h, t, d, heads, z2, final, regions, records, Record(zi, data, size, DEFAULT_HANDLE), zi, j, tz, k2);
  }

  /** The state once the block is placed. */
  lemma {:induction false} PlacedState(heads: seq<int>, zones: seq<seq<Info>>, regions: seq<seq<Region>>, records: map<nat, Record>, t: int,
                                       zi: nat, k: nat, data: nat, size: nat)
    requires Consistent(zones, regions, records) && zi < 5 && k < |zones[zi]| && 0 < size
    requires zones[zi][k].start + zones[zi][k].size <= data && data + size <= zones[zi][k].end
    requires StackFree(heads, zones, t)
    ensures var placed := zones[zi := Reserve(zones[zi], k, data, size, Data, TEMP)];
            && AllTile(placed, regions) && RegionsApart(regions) && StackFree(heads, placed, t) && OffRecords(t, DETAIL_SIZE, records)
            && Pending(placed, regions, records, KeysAll(zones), zi, data, size) && HeadsApart(heads, records)
            && forall i :: 0 <= i < 5 ==> RecsIn(placed[i], records, {Data})
  {
    hide Tiles, RegionsApart, Paired, Keys, Safe, OffRecords, RecsIn, Reserve;
    var placed := zones[zi := Reserve(zones[zi], k, data, size, Data, TEMP)];
    KnownRecs(zones, regions, records);
    ReserveAll(zones, regions, zi, k, data, size, Data);
    SafeReserve(t, DETAIL_SIZE, zones, zi, k, data, size, Data);
    SafeRecords(zones, regions, records, t, DETAIL_SIZE);
    forall i | 0 <= i < 5
      ensures Safe(heads[i], 4, placed) && OffRecords(heads[i], 4, records)
    {
      SafeReserve(heads[i], 4, zones, zi, k, data, size, Data);
      SafeRecords(zones, regions, records, heads[i], 4);
    }
    forall i | 0 <= i < 5 ensures RecsIn(placed[i], records, {Data}) {
      if i == zi { ReserveRecs(zones[zi], records, {}, k, data, size, Data); }
      MoreRecs(zones[i], records, {}, {Data});
      assert {} + {Data} == {Data};
    }
  }

  lemma MoreRecs(z: seq<Info>, records: map<nat, Record>, a: set<Kind>, b: set<Kind>)
    requires RecsIn(z, records, a) && a <= b
    ensures RecsIn(z, records, b)
  {}

  /** The state once the record has a home too. */
  lemma {:induction false} HomeState(heads: seq<int>, zones: seq<seq<Info>>, regions: seq<seq<Region>>, records: map<nat, Record>, t: int,
                                     zi: nat, k: nat, data: nat, size: nat, tz: nat, k2: nat, d: nat)
    requires Consistent(zones, regions, records) && zi < 5 && k < |zones[zi]| && 0 < size
    requires zones[zi][k].start + zones[zi][k].size <= data && data + size <= zones[zi][k].end
    requires StackFree(heads, zones, t) && HoldsDetails(tz)
    requires var placed := zones[zi := Reserve(zones[zi], k, data, size, Data, TEMP)];
             && k2 < |placed[tz]| && placed[tz][k2].start + placed[tz][k2].size <= d && d + DETAIL_SIZE <= placed[tz][k2].end
    ensures var placed := zones[zi := Reserve(zones[zi], k, data, size, Data, TEMP)];
            var z2 := placed[tz := Reserve(placed[tz], k2, d, DETAIL_SIZE, Detail, TEMP)];
            var final, r := RetargetAll(z2, d), Record(zi, data, size, DEFAULT_HANDLE);
            && d !in records && 0 < d && Consistent(final, regions, records[d := r])
            && KeysAll(final) == AddKey(AddKey(KeysAll(zones), zi, DataBlock(d, r)), tz, DetailBlock(d))
            && OffRange(t, DETAIL_SIZE, d, d + DETAIL_SIZE)
            && forall i :: 0 <= i < 5 ==> RecsIn(z2[i], records, {Data, Detail}) && OffRange(heads[i], 4, d, d + DETAIL_SIZE)
  {
    hide Tiles, RegionsApart, Paired, Keys, Safe, OffRecords, RecsIn, KeysAll, HeadsApart, Moved, Retarget;
    var placed := zones[zi := Reserve(zones[zi], k, data, size, Data, TEMP)];
    var z2 := placed[tz := Reserve(placed[tz], k2, d, DETAIL_SIZE, Detail, TEMP)];
    PlacedState(heads, zones, regions, records, t, zi, k, data, size);
    ReserveAll(placed, regions, tz, k2, d, DETAIL_SIZE, Detail);
    assert z2[tz][k2] == Info(d, placed[tz][k2].end, DETAIL_SIZE, Detail, TEMP);
    FreshDetail(z2, regions, records, KeysAll(zones), zi, data, size, tz, k2);
    RetargetRegionsApart(placed, regions, records, KeysAll(zones), zi, data, size, d);
    MoveConsistent(z2, regions, records, KeysAll(zones), zi, data, size, tz, k2);
    SafeReserve(t, DETAIL_SIZE, placed, tz, k2, d, DETAIL_SIZE, Detail);
    forall i | 0 <= i < 5 ensures RecsIn(z2[i], records, {Data, Detail}) && OffRange(heads[i], 4, d, d + DETAIL_SIZE) {
      SafeReserve(heads[i], 4, placed, tz, k2, d, DETAIL_SIZE, Detail);
      if i == tz { ReserveRecs(placed[tz], records, {Data}, k2, d, DETAIL_SIZE, Detail); }
      MoreRecs(placed[i], records, {Data}, {Data, Detail});
      assert {Data} + {Detail} == {Data, Detail};
    }
  }

  /** malloc_palloc on the nodes: it fails exactly when Heap.Palloc does, and then the lists in
      memory are what they were; otherwise they are those with the block and its record. */
  method Palloc(h: Machine, heads: seq<int>, zi: nat, size: nat, align: nat, t: int,
                ghost zones: seq<seq<Info>>, ghost regions: seq<seq<Region>>, ghost records: map<nat, Record>)
    returns (data: nat, ghost final: seq<seq<Info>>, ghost d: nat, ghost tz: nat)
    requires Consistent(zones, regions, records) && MemoryHolds(h.mem, heads, zones, t) && StackFree(heads, zones, t)
    requires zi < 5 && size + align <= TWO32 && IsAlign(align)
    modifies h
    ensures data == 0 <==> Refuses(zones, zi, size, align)
    ensures data == 0 ==> MemoryHolds(h.mem, heads, zones, t)
    ensures data != 0 ==> MemoryHolds(h.mem, heads, final, t)
                          && Took(zones, records, final, records[d := Record(zi, data, size, DEFAULT_HANDLE)], zi, data, size, align, d, tz, DEFAULT_HANDLE)
                          && Consistent(final, regions, records[d := Record(zi, data, size, DEFAULT_HANDLE)])
  {
    hide Tiles, RegionsApart, Paired, Keys, MemoryHolds, StackFree, OffRecords, RecsIn, Reserve, Homed, RecordsFull, Room, HeadsApart, Pending;
    final, d, tz := zones, 0, 0;
    if size == 0 {
      return 0, final, d, tz;
    }
    KnownRecs(zones, regions, records);
    StackOffRecords(zones, regions, records, heads, t);
    ghost var k;
    data, k := AllocIn(h, heads, zi, size, align, t, Data, zones, regions, records, {});
    if data == 0 {
      return;
    }
    assert ZoneHasRoom(zones[zi], size, align);
    forall k': nat, a': nat | FirstFit(zones[zi], k', a', size, align) ensures k' == k && a' == data {
      FirstFitUnique(zones[zi], size, align, k, data, k', a');
    }
    ghost var placed := zones[zi := Reserve(zones[zi], k, data, size, Data, TEMP)];
    var detail;
    detail, final, tz := NewDetail(h, heads, t, zones, regions, records, zi, k, data, size);
    d := detail;
    if detail == 0 {
      PlacedEntry(zones[zi], k, data, size, t);
      FreeIn(h, NodeOf(Info(0, 0, 0, Data, TEMP), t), heads, placed, t, zi, k);
      ReleaseReserve(zones[zi], k, data, size, Data, TEMP);
      assert placed[zi := zones[zi]] == zones;
      data := 0;
    }
  }

  lemma StackOffRecords(zones: seq<seq<Info>>, regions: seq<seq<Region>>, records: map<nat, Record>, heads: seq<int>, t: int)
    requires Consistent(zones, regions, records) && StackFree(heads, zones, t)
    ensures OffRecords(t, DETAIL_SIZE, records)
  {
    SafeRecords(zones, regions, records, t, DETAIL_SIZE);
  }

  lemma PlacedEntry(z: seq<Info>, k: nat, data: nat, size: nat, t: int)
    requires k < |z|
    ensures k < |Reserve(z, k, data, size, Data, TEMP)|
    ensures NodeOf(Reserve(z, k, data, size, Data, TEMP)[k], t) == NodeOf(Info(0, 0, 0, Data, TEMP), t)
  {}
}
