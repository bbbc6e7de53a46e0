// The zone lists of src/malloc.c: each zone is a list of entries in descending order of
// address; the free space of an entry is what its range has beyond its payload.

module Zones {

  /** Which half of a struct allocdetail_s an allocinfo_s is. */
  datatype Kind = Data | Detail

  /** An entry with a payload of `size` bytes at `start`; `rec` is the address of the
      allocdetail_s that holds the entry.  The lowest entry of a region has no payload. */
  datatype Info = Info(start: nat, end: nat, size: nat, kind: Kind, rec: nat) {
    function Key(): Block { Block(start, size, kind, rec) }
  }

  /** An entry without its upper bound. */
  datatype Block = Block(start: nat, size: nat, kind: Kind, rec: nat)

  /** A range handed to alloc_add, and the record of its lowest entry. */
  datatype Region = Region(lo: nat, hi: nat, rec: nat)

  // ---- Lists that tile their regions ----

  ghost predicate TilesFrom(z: seq<Info>, rs: seq<Region>, top: nat) {
    if rs == [] then z == []
    else
      && z != [] && z[0].end == top && z[0].start + z[0].size <= top
      && if z[0].size == 0 then
           z[0].start == rs[0].lo && z[0].rec == rs[0].rec && z[0].kind == Data && TilesFrom(z[1..], rs[1..], Top(rs[1..]))
         else
           rs[0].lo <= z[0].start && TilesFrom(z[1..], rs, z[0].start)
  }

  function Top(rs: seq<Region>): nat { if rs == [] then 0 else rs[0].hi }

  /** Region after region, each covered exactly by entries whose payloads fit, the lowest of
      which is empty. */
  ghost predicate Tiles(z: seq<Info>, rs: seq<Region>) { TilesFrom(z, rs, Top(rs)) }

  ghost predicate Descending(rs: seq<Region>) {
    && (forall i :: 0 <= i < |rs| ==> rs[i].lo <= rs[i].hi)
    && (forall i, j :: 0 <= i < j < |rs| ==> rs[j].hi <= rs[i].lo && rs[i].rec != rs[j].rec)
  }

  lemma {:induction false} DescendingTail(rs: seq<Region>)
    requires Descending(rs) && rs != []
    ensures Descending(rs[1..]) && (|rs| > 1 ==> rs[1].hi <= rs[0].lo)
  {
    assert forall j :: 0 <= j < |rs[1..]| ==> rs[1..][j] == rs[j+1];
  }

  ghost predicate Sorted(z: seq<Info>) {
    && (forall i :: 0 <= i < |z| ==> z[i].start + z[i].size <= z[i].end)
    && (forall i, j :: 0 <= i < j < |z| ==> z[j].end <= z[i].start)
  }

  /** Entries come in strictly falling, disjoint ranges below `top`. */
  lemma {:induction false} TilesSorted(z: seq<Info>, rs: seq<Region>, top: nat)
    requires TilesFrom(z, rs, top) && Descending(rs) && (rs == [] || top <= rs[0].hi)
    ensures Sorted(z) && forall i :: 0 <= i < |z| ==> z[i].end <= top
    decreases |z|
  {
    if rs != [] {
      if z[0].size == 0 {
        DescendingTail(rs);
        TilesSorted(z[1..], rs[1..], Top(rs[1..]));
      } else {
        TilesSorted(z[1..], rs, z[0].start);
      }
      forall i, j | 0 <= i < j < |z| ensures z[j].end <= z[i].start {
        assert z[j] == z[1..][j-1];
        if i > 0 { assert z[i] == z[1..][i-1]; }
      }
    }
  }

  // ---- Taking, giving back and adding space ----

  /** alloc_new on entry `i`: the payload goes to `addr`, everything above it belongs to the
      new entry, the rest stays with the old one. */
  function Reserve(z: seq<Info>, i: nat, addr: nat, size: nat, kind: Kind, rec: nat): seq<Info>
    requires i < |z|
  {
    z[..i] + [Info(addr, z[i].end, size, kind, rec)] + [z[i].(end := addr)] + z[i+1..]
  }

  /** hlist_del */
  function Unlink(z: seq<Info>, i: nat): seq<Info>
    requires i < |z|
  {
    z[..i] + z[i+1..]
  }

  /** alloc_free on entry `i`: its range goes to the next lower entry when that one touches it. */
  function Release(z: seq<Info>, i: nat): seq<Info>
    requires i < |z|
  {
    Unlink(if i + 1 < |z| && z[i+1].end == z[i].start then z[i+1 := z[i+1].(end := z[i].end)] else z, i)
  }

  lemma {:induction false} ReserveTiles(z: seq<Info>, rs: seq<Region>, top: nat, i: nat, addr: nat, size: nat, kind: Kind, rec: nat)
    requires TilesFrom(z, rs, top) && i < |z| && 0 < size
    requires z[i].start + z[i].size <= addr && addr + size <= z[i].end
    requires Descending(rs) && (rs == [] || top <= rs[0].hi)
    ensures TilesFrom(Reserve(z, i, addr, size, kind, rec), rs, top)
    decreases i
  {
    var t := Reserve(z, i, addr, size, kind, rec);
    if i == 0 {
      assert t[1..] == [z[0].(end := addr)] + z[1..];
      assert t[1..][1..] == z[1..];
    } else {
      assert t[0] == z[0] && t[1..] == Reserve(z[1..], i - 1, addr, size, kind, rec);
      var rs' := if z[0].size == 0 then rs[1..] else rs;
      DescendingTail(rs);
      ReserveTiles(z[1..], rs', if z[0].size == 0 then Top(rs[1..]) else z[0].start, i - 1, addr, size, kind, rec);
    }
  }

  /** An entry with a payload always touches the next one, so freeing it loses no space. */
  lemma {:induction false} ReleaseTiles(z: seq<Info>, rs: seq<Region>, top: nat, i: nat)
    requires TilesFrom(z, rs, top) && i < |z| && 0 < z[i].size
    ensures i + 1 < |z| && z[i+1].end == z[i].start
    ensures TilesFrom(Release(z, i), rs, top)
    decreases i
  {
    var t := Release(z, i);
    if i == 0 {
      assert t[1..] == z[2..] == z[1..][1..];
    } else {
      ReleaseTiles(z[1..], if z[0].size == 0 then rs[1..] else rs,
                   if z[0].size == 0 then Top(rs[1..]) else z[0].start, i - 1);
      assert t[0] == z[0] && t[1..] == Release(z[1..], i - 1);
    }
  }

  /** Freeing what was just taken gives back the very same list. */
  lemma {:induction false} ReleaseReserve(z: seq<Info>, i: nat, addr: nat, size: nat, kind: Kind, rec: nat)
    requires i < |z|
    ensures Release(Reserve(z, i, addr, size, kind, rec), i) == z
  {}

  // ---- A list is determined by its regions and its blocks ----

  ghost function Keys(z: seq<Info>): set<Block> { set e | e in z :: e.Key() }

  lemma {:induction false} KeysOf(z: seq<Info>, b: Block)
    ensures b in Keys(z) <==> exists i :: 0 <= i < |z| && z[i].Key() == b
  {
    if b in Keys(z) { var e :| e in z && e.Key() == b; }
    if exists i :: 0 <= i < |z| && z[i].Key() == b {
      var i :| 0 <= i < |z| && z[i].Key() == b;
      assert z[i] in z;
    }
  }

  lemma {:induction false} KeysConcat(p: seq<Info>, q: seq<Info>)
    ensures Keys(p + q) == Keys(p) + Keys(q)
  {
    forall b: Block ensures b in Keys(p + q) <==> b in Keys(p) + Keys(q) {
      if b in Keys(p) { var e :| e in p && e.Key() == b; assert e in p + q; }
      if b in Keys(q) { var e :| e in q && e.Key() == b; assert e in p + q; }
    }
  }

  lemma {:induction false} KeysOne(e: Info)
    ensures Keys([e]) == {e.Key()}
  {
    assert [e][0] == e;
  }

  lemma {:induction false} ReserveKeys(z: seq<Info>, i: nat, addr: nat, size: nat, kind: Kind, rec: nat)
    requires i < |z|
    ensures Keys(Reserve(z, i, addr, size, kind, rec)) == Keys(z) + {Block(addr, size, kind, rec)}
  {
    hide Keys;
    var a, b := Info(addr, z[i].end, size, kind, rec), z[i].(end := addr);
    KeysConcat(z[..i] + [a] + [b], z[i+1..]);
    KeysConcat(z[..i] + [a], [b]);
    KeysConcat(z[..i], [a]);
    KeysOne(a);
    KeysOne(b);
    KeysOne(z[i]);
    assert z == z[..i] + [z[i]] + z[i+1..];
    KeysConcat(z[..i] + [z[i]], z[i+1..]);
    KeysConcat(z[..i], [z[i]]);
  }

  lemma {:induction false} UnlinkKeys(z: seq<Info>, i: nat)
    requires i < |z|
    ensures Keys(z) == Keys(Unlink(z, i)) + {z[i].Key()}
    ensures (forall j :: 0 <= j < |z| && j != i ==> z[j].Key() != z[i].Key()) ==> Keys(Unlink(z, i)) == Keys(z) - {z[i].Key()}
  {
    hide Keys;
    var t := Unlink(z, i);
    assert z == z[..i] + ([z[i]] + z[i+1..]);
    KeysConcat(z[..i], [z[i]] + z[i+1..]);
    KeysConcat([z[i]], z[i+1..]);
    KeysConcat(z[..i], z[i+1..]);
    KeysOne(z[i]);
    KeysOf(t, z[i].Key());
    assert forall j :: 0 <= j < |t| ==> t[j] == if j < i then z[j] else z[j+1];
  }

  lemma {:induction false} SameKeyKeys(z: seq<Info>, i: nat, e: Info)
    requires i < |z| && e.Key() == z[i].Key()
    ensures Keys(z[i := e]) == Keys(z)
  {
    UnlinkKeys(z, i);
    UnlinkKeys(z[i := e], i);
    assert Unlink(z[i := e], i) == Unlink(z, i);
  }

  lemma {:induction false} ReleaseKeys(z: seq<Info>, i: nat)
    requires i < |z| && 0 < z[i].size && Sorted(z)
    ensures Keys(Release(z, i)) == Keys(z) - {z[i].Key()}
  {
    var z' := if i + 1 < |z| && z[i+1].end == z[i].start then z[i+1 := z[i+1].(end := z[i].end)] else z;
    if z' != z { SameKeyKeys(z, i + 1, z[i+1].(end := z[i].end)); }
    forall j | 0 <= j < |z'| && j != i ensures z'[j].Key() != z'[i].Key() {
      assert z'[j].Key() == z[j].Key();
    }
    UnlinkKeys(z', i);
  }

  lemma {:induction false} TailKeys(z: seq<Info>)
    requires z != [] && Sorted(z) && (0 < z[0].size || forall k :: 0 < k < |z| ==> z[k].Key() != z[0].Key())
    ensures Keys(z[1..]) == Keys(z) - {z[0].Key()}
  {
    assert z == [z[0]] + z[1..];
    KeysConcat([z[0]], z[1..]);
    KeysOne(z[0]);
    forall j | 0 <= j < |z[1..]| ensures z[1..][j].Key() != z[0].Key() {
      assert z[1..][j] == z[j+1];
    }
    KeysOf(z[1..], z[0].Key());
  }

  /** Entries without a payload are the lowest ones of the regions. */
  lemma {:induction false} BaseOf(z: seq<Info>, rs: seq<Region>, top: nat, i: nat) returns (j: nat)
    requires TilesFrom(z, rs, top) && i < |z| && z[i].size == 0
    ensures j < |rs| && z[i].rec == rs[j].rec && z[i].start == rs[j].lo && z[i].kind == Data
    ensures i > 0 && z[0].size == 0 ==> j > 0
    decreases i
  {
    if i == 0 {
      j := 0;
    } else if z[0].size == 0 {
      j := BaseOf(z[1..], rs[1..], Top(rs[1..]), i - 1);
      j := j + 1;
    } else {
      j := BaseOf(z[1..], rs, z[0].start, i - 1);
    }
  }

  lemma {:induction false} HeadIsUnique(z: seq<Info>, rs: seq<Region>, top: nat)
    requires TilesFrom(z, rs, top) && Descending(rs) && (rs == [] || top <= rs[0].hi) && z != []
    ensures forall k :: 0 < k < |z| ==> z[k].Key() != z[0].Key()
  {
    TilesSorted(z, rs, top);
    forall k | 0 < k < |z| ensures z[k].Key() != z[0].Key() {
      if z[k].size == 0 && z[0].size == 0 { var j := BaseOf(z, rs, top, k); }
    }
  }

  /** The highest entry is determined by the blocks. */
  lemma {:induction false} HeadDetermined(z: seq<Info>, t: seq<Info>, rs: seq<Region>, top: nat)
    requires TilesFrom(z, rs, top) && TilesFrom(t, rs, top) && Descending(rs) && rs != [] && top <= rs[0].hi
    requires Keys(z) == Keys(t)
    ensures z[0] == t[0]
  {
    TilesSorted(z, rs, top);
    TilesSorted(t, rs, top);
    KeysOf(z, z[0].Key());
    KeysOf(t, z[0].Key());
    KeysOf(t, t[0].Key());
    KeysOf(z, t[0].Key());
    var j :| 0 <= j < |t| && t[j].Key() == z[0].Key();
    var k :| 0 <= k < |z| && z[k].Key() == t[0].Key();
  }

  /** Two lists that tile the same regions with the same blocks are the same list. */
  lemma {:induction false} TilesUnique(z: seq<Info>, t: seq<Info>, rs: seq<Region>, top: nat)
    requires TilesFrom(z, rs, top) && TilesFrom(t, rs, top) && Descending(rs) && (rs == [] || top <= rs[0].hi)
    requires Keys(z) == Keys(t)
    ensures z == t
    decreases |z|
  {
    if rs != [] {
      TilesSorted(z, rs, top);
      TilesSorted(t, rs, top);
      HeadDetermined(z, t, rs, top);
      HeadIsUnique(z, rs, top);
      HeadIsUnique(t, rs, top);
      TailKeys(z);
      TailKeys(t);
      DescendingTail(rs);
      if z[0].size == 0 {
        TilesUnique(z[1..], t[1..], rs[1..], Top(rs[1..]));
      } else {
        TilesUnique(z[1..], t[1..], rs, z[0].start);
      }
      assert z == [z[0]] + z[1..] && t == [t[0]] + t[1..];
    }
  }

  // ---- Where blocks lie ----

  /** Every entry with a payload lies inside one of the regions. */
  lemma {:induction false} Inside(z: seq<Info>, rs: seq<Region>, top: nat, i: nat) returns (j: nat)
    requires TilesFrom(z, rs, top) && Descending(rs) && (rs == [] || top <= rs[0].hi) && i < |z|
    ensures j < |rs| && rs[j].lo <= z[i].start && z[i].end <= rs[j].hi
    decreases i
  {
    if i == 0 {
      j := 0;
    } else if z[0].size == 0 {
      DescendingTail(rs);
      j := Inside(z[1..], rs[1..], Top(rs[1..]), i - 1);
      j := j + 1;
    } else {
      j := Inside(z[1..], rs, z[0].start, i - 1);
    }
  }

  // ---- alloc_add ----

  predicate Apart(a: Region, b: Region) { a.hi <= b.lo || b.hi <= a.lo }

  /** Whether [lo, hi) can join the regions: it meets none of them, and no empty region sits
      at its start. */
  predicate CanAdd(rs: seq<Region>, r: Region) {
    r.lo <= r.hi && forall j :: 0 <= j < |rs| ==> Apart(rs[j], r) && (rs[j].lo == rs[j].hi ==> rs[j].lo != r.lo) && rs[j].rec != r.rec
  }

  function Insert<T>(s: seq<T>, i: nat, x: T): seq<T>
    requires i <= |s|
  {
    s[..i] + [x] + s[i..]
  }

  /** The position alloc_add looks for: before the first entry that starts below `start`. */
  predicate AddPosition(z: seq<Info>, i: nat, start: nat) {
    i <= |z| && (forall k :: 0 <= k < i ==> z[k].start >= start) && (i < |z| ==> z[i].start < start)
  }

  /** The regions before `j` lie above `r`, the others below. */
  predicate Splits(rs: seq<Region>, j: nat, r: Region) {
    j <= |rs| && (forall k :: 0 <= k < j ==> r.hi <= rs[k].lo) && (forall k :: j <= k < |rs| ==> rs[k].hi <= r.lo)
  }

  /** Linking an empty entry for [r.lo, r.hi) in there adds one region.  `mid` says that the
      list starts in the middle of its first region, as it does in the induction. */
  lemma {:induction false} AddTiles(z: seq<Info>, rs: seq<Region>, top: nat, mid: bool, i: nat, r: Region) returns (j: nat)
    requires TilesFrom(z, rs, top) && Descending(rs) && CanAdd(rs, r) && AddPosition(z, i, r.lo)
    requires if mid then rs != [] && rs[0].lo <= top < rs[0].hi && r.lo <= top else top == Top(rs)
    ensures j <= |rs| && Splits(rs, j, r) && (mid ==> j > 0)
    ensures TilesFrom(Insert(z, i, Info(r.lo, r.hi, 0, Data, r.rec)), Insert(rs, j, r), if j == 0 then r.hi else top)
    decreases |z|
  {
    hide TilesFrom, Splits, Insert;
    var e := Info(r.lo, r.hi, 0, Data, r.rec);
    Uncons(z, rs, top);
    if i == 0 {
      j := 0;
      assert rs != [] ==> Apart(rs[0], r);
      assert !mid;
      SplitsAtZero(rs, r);
      InsertHead(z, e);
      InsertHead(rs, r);
      ConsBase(e, z, rs, r);
    } else {
      InsertTail(z, i, e);
      assert Apart(rs[0], r);
      if z[0].size == 0 {
        DescendingTail(rs);
        assert forall k :: 0 <= k < |rs[1..]| ==> rs[1..][k] == rs[k+1];
        j := AddTiles(z[1..], rs[1..], Top(rs[1..]), false, i - 1, r);
        SplitsCons(rs, j, r);
        InsertTail(rs, j + 1, r);
        TopInsert(rs[1..], j, r);
        ConsBase(z[0], Insert(z[1..], i - 1, e), Insert(rs[1..], j, r), rs[0]);
        j := j + 1;
      } else {
        j := AddTiles(z[1..], rs, z[0].start, true, i - 1, r);
        InsertTail(rs, j, r);
        ConsBlock(z[0], Insert(z[1..], i - 1, e), Insert(rs, j, r));
      }
    }
  }

  lemma {:induction false} InsertHead<T>(s: seq<T>, x: T)
    ensures Insert(s, 0, x) == [x] + s
  {}

  lemma {:induction false} InsertTail<T>(s: seq<T>, i: nat, x: T)
    requires 0 < i <= |s|
    ensures Insert(s, i, x) == [s[0]] + Insert(s[1..], i - 1, x)
  {}

  lemma {:induction false} TopInsert(rs: seq<Region>, j: nat, r: Region)
    requires j <= |rs|
    ensures Top(Insert(rs, j, r)) == if j == 0 then r.hi else Top(rs)
  {}

  lemma {:induction false} SplitsAtZero(rs: seq<Region>, r: Region)
    requires Descending(rs) && r.lo <= r.hi && (rs != [] ==> Apart(rs[0], r) && rs[0].lo < r.lo)
    ensures Splits(rs, 0, r)
  {}

  lemma {:induction false} SplitsCons(rs: seq<Region>, j: nat, r: Region)
    requires rs != [] && r.hi <= rs[0].lo && Splits(rs[1..], j, r)
    ensures Splits(rs, j + 1, r)
  {
    assert forall k :: 0 <= k < |rs[1..]| ==> rs[1..][k] == rs[k+1];
  }

  lemma {:induction false} Uncons(z: seq<Info>, rs: seq<Region>, top: nat)
    requires TilesFrom(z, rs, top)
    ensures rs == [] <==> z == []
    ensures z != [] ==> z[0].end == top && z[0].start + z[0].size <= top && rs[0].lo <= z[0].start
    ensures z != [] && z[0].size == 0 ==>
              z[0].start == rs[0].lo && z[0].rec == rs[0].rec && z[0].kind == Data && TilesFrom(z[1..], rs[1..], Top(rs[1..]))
    ensures z != [] && z[0].size != 0 ==> TilesFrom(z[1..], rs, z[0].start)
  {}

  lemma {:induction false} ConsBase(e: Info, z: seq<Info>, rs: seq<Region>, r: Region)
    requires e.start == r.lo <= e.end && e.size == 0 && e.kind == Data && e.rec == r.rec
    requires TilesFrom(z, rs, Top(rs))
    ensures TilesFrom([e] + z, [r] + rs, e.end)
  {
    assert ([e] + z)[1..] == z && ([r] + rs)[1..] == rs;
  }

  lemma {:induction false} ConsBlock(e: Info, z: seq<Info>, rs: seq<Region>)
    requires rs != [] && 0 < e.size && rs[0].lo <= e.start && e.start + e.size <= e.end
    requires TilesFrom(z, rs, e.start)
    ensures TilesFrom([e] + z, rs, e.end)
  {
    assert ([e] + z)[1..] == z;
  }

  lemma {:induction false} InsertDescending(rs: seq<Region>, j: nat, r: Region)
    requires Descending(rs) && CanAdd(rs, r) && Splits(rs, j, r)
    ensures Descending(Insert(rs, j, r))
  {
    var t := Insert(rs, j, r);
    assert forall k :: 0 <= k < |t| ==> t[k] == if k < j then rs[k] else if k == j then r else rs[k-1];
  }

  lemma {:induction false} InsertKeys(z: seq<Info>, i: nat, e: Info)
    requires i <= |z|
    ensures Keys(Insert(z, i, e)) == Keys(z) + {e.Key()}
  {
    UnlinkKeys(Insert(z, i, e), i);
    assert Unlink(Insert(z, i, e), i) == z;
  }

  // ---- Moving the lower end of a region ----

  /** The lowest entry of a zone with one region, which alloc_find_lowest finds, moves its start. */
  function MoveLowest(z: seq<Info>, s: nat): seq<Info>
    requires z != []
  {
    z[|z| - 1 := z[|z| - 1].(start := s)]
  }

  lemma {:induction false} OneRegion(z: seq<Info>, r: Region, top: nat)
    requires TilesFrom(z, [r], top) && r.lo <= r.hi && top <= r.hi
    ensures z != [] && z[|z| - 1].size == 0 && z[|z| - 1].start == r.lo && z[|z| - 1].rec == r.rec && z[|z| - 1].kind == Data
    ensures forall k :: 0 <= k < |z| - 1 ==> 0 < z[k].size && r.lo <= z[|z| - 1].end <= z[k].start
    decreases |z|
  {
    assert Descending([r]);
    TilesSorted(z, [r], top);
    assert [r][1..] == [];
    if z[0].size != 0 {
      OneRegion(z[1..], r, z[0].start);
      assert forall k :: 0 < k < |z| ==> z[k] == z[1..][k-1];
    }
  }

  lemma {:induction false} MoveLowestTiles(z: seq<Info>, r: Region, top: nat, s: nat)
    requires TilesFrom(z, [r], top) && r.lo <= r.hi && top <= r.hi
    requires z != [] && s <= z[|z| - 1].end
    ensures TilesFrom(MoveLowest(z, s), [r.(lo := s)], top)
    decreases |z|
  {
    OneRegion(z, r, top);
    assert [r][1..] == [] && [r.(lo := s)][1..] == [];
    if z[0].size != 0 {
      MoveLowestTiles(z[1..], r, z[0].start, s);
      assert MoveLowest(z, s)[1..] == MoveLowest(z[1..], s);
    }
  }

  lemma {:induction false} MoveLowestKeys(z: seq<Info>, r: Region, top: nat, s: nat)
    requires TilesFrom(z, [r], top) && r.lo <= r.hi && top <= r.hi && z != []
    ensures Keys(MoveLowest(z, s)) == Keys(z) - {Block(r.lo, 0, Data, r.rec)} + {Block(s, 0, Data, r.rec)}
  {
    OneRegion(z, r, top);
    var n := |z| - 1;
    var t := MoveLowest(z, s);
    UnlinkKeys(z, n);
    UnlinkKeys(t, n);
    assert Unlink(z, n) == Unlink(t, n);
  }
}
