// Moving the init code: the relocation lists that scripts/layoutrom.py records and what
// updateRelocs and reloc_preinit of src/post.c do with them.

module Relocs {
  import opened Arith
  import opened Sequences
  import opened Wrappers

  newtype byte = x: int | 0 <= x < 256

  // ---- Words in memory ----

  predicate InMemory(m: seq<byte>, a: int) { 0 <= a && a + 4 <= |m| }

  function FromBytes(b0: byte, b1: byte, b2: byte, b3: byte): (v: int)
    ensures 0 <= v < TWO32
  {
    b0 as int + 0x100 * b1 as int + 0x1_0000 * b2 as int + 0x100_0000 * b3 as int
  }

  /** The little-endian 32-bit word at `a`. */
  function Word(m: seq<byte>, a: int): int
    requires InMemory(m, a)
  {
    FromBytes(m[a], m[a+1], m[a+2], m[a+3])
  }

  function PutWord(m: seq<byte>, a: int, v: int): (r: seq<byte>)
    requires InMemory(m, a) && 0 <= v < TWO32
    ensures |r| == |m|
    ensures forall b :: 0 <= b < |m| && !(a <= b < a + 4) ==> r[b] == m[b]
  {
    m[a := (v % 0x100) as byte][a + 1 := (v / 0x100 % 0x100) as byte]
     [a + 2 := (v / 0x1_0000 % 0x100) as byte][a + 3 := (v / 0x100_0000) as byte]
  }

  lemma Recombine(v: int)
    requires 0 <= v < TWO32
    ensures v % 0x100 + 0x100 * (v / 0x100 % 0x100) + 0x1_0000 * (v / 0x1_0000 % 0x100) + 0x100_0000 * (v / 0x100_0000) == v
  {}

  lemma WordPut(m: seq<byte>, a: int, v: int)
    requires InMemory(m, a) && 0 <= v < TWO32
    ensures Word(PutWord(m, a, v), a) == v
  {
    Recombine(v);
  }

  predicate WordsApart(a: int, b: int) { a + 4 <= b || b + 4 <= a }

  lemma WordKept(m: seq<byte>, a: int, v: int, b: int)
    requires InMemory(m, a) && InMemory(m, b) && 0 <= v < TWO32 && WordsApart(a, b)
    ensures Word(PutWord(m, a, v), b) == Word(m, b)
  {
    hide PutWord;
  }

  // ---- updateRelocs ----

  predicate AllIn(m: seq<byte>, base: int, t: seq<int>) {
    forall k :: 0 <= k < |t| ==> InMemory(m, base + t[k])
  }

  /** Words at these addresses do not overlap. */
  predicate Spread(t: seq<int>) {
    forall i, j :: 0 <= i < j < |t| ==> WordsApart(t[i], t[j])
  }

  /** The words at base + t[k] do not overlap the one at `a`. */
  predicate Misses(base: int, t: seq<int>, a: int) {
    forall k :: 0 <= k < |t| ==> WordsApart(base + t[k], a)
  }

  function Update(m: seq<byte>, base: int, t: seq<int>, delta: int): (r: seq<byte>)
    requires AllIn(m, base, t)
    ensures |r| == |m|
  {
    if t == [] then m
    else
      var p := Update(m, base, t[..|t|-1], delta);
      var a := base + t[|t|-1];
      PutWord(p, a, (Word(p, a) + delta) % TWO32)
  }

  lemma {:induction false} UpdateMisses(m: seq<byte>, base: int, t: seq<int>, delta: int, a: int)
    requires AllIn(m, base, t) && InMemory(m, a) && Misses(base, t, a)
    ensures Word(Update(m, base, t, delta), a) == Word(m, a)
  {
    if t != [] {
      hide PutWord, Word;
      UpdateMisses(m, base, t[..|t|-1], delta, a);
      var p := Update(m, base, t[..|t|-1], delta);
      WordKept(p, base + t[|t|-1], (Word(p, base + t[|t|-1]) + delta) % TWO32, a);
    }
  }

  lemma {:induction false} UpdateHits(m: seq<byte>, base: int, t: seq<int>, delta: int, k: nat)
    requires AllIn(m, base, t) && Spread(t) && k < |t|
    ensures Word(Update(m, base, t, delta), base + t[k]) == (Word(m, base + t[k]) + delta) % TWO32
  {
    hide PutWord, Word;
    var p := Update(m, base, t[..|t|-1], delta);
    var last := base + t[|t|-1];
    WordPut(p, last, (Word(p, last) + delta) % TWO32);
    if k < |t| - 1 {
      UpdateHits(m, base, t[..|t|-1], delta, k);
      WordKept(p, last, (Word(p, last) + delta) % TWO32, base + t[k]);
    } else {
      UpdateMisses(m, base, t[..|t|-1], delta, last);
    }
  }

  lemma {:induction false} UpdateOutside(m: seq<byte>, base: int, t: seq<int>, delta: int, b: int)
    requires AllIn(m, base, t) && 0 <= b < |m|
    requires forall k :: 0 <= k < |t| ==> !(base + t[k] <= b < base + t[k] + 4)
    ensures Update(m, base, t, delta)[b] == m[b]
  {
    if t != [] {
      hide PutWord;
      UpdateOutside(m, base, t[..|t|-1], delta, b);
      assert !(base + t[|t|-1] <= b < base + t[|t|-1] + 4);
    }
  }

  method UpdateRelocs(mem: array<byte>, dest: int, t: seq<int>, delta: int)
    requires AllIn(mem[..], dest, t)
    modifies mem
    ensures mem[..] == Update(old(mem[..]), dest, t, delta)
  {
    for n := 0 to |t|
      invariant AllIn(old(mem[..]), dest, t[..n])
      invariant mem[..] == Update(old(mem[..]), dest, t[..n], delta)
    {
      ghost var before := mem[..];
      var a := dest + t[n];
      assert InMemory(before, a);
      var v := (Word(mem[..], a) + delta) % TWO32;
      mem[a] := (v % 0x100) as byte;
      mem[a+1] := (v / 0x100 % 0x100) as byte;
      mem[a+2] := (v / 0x1_0000 % 0x100) as byte;
      mem[a+3] := (v / 0x100_0000) as byte;
      assert mem[..] == PutWord(before, a, v);
      assert t[..n+1][..n] == t[..n];
    }
    assert t[..|t|] == t;
  }

  // ---- The relocation lists of layoutrom.py ----

  datatype RelocType = Abs32 | Pc32

  /** A 32-bit reference to `addend` bytes past the start of a section, or to the constant
      `addend` when its symbol is in no section. */
  datatype Reloc = Reloc(offset: nat, rtype: RelocType, target: Option<nat>, addend: int)

  datatype Section = Section(finalloc: int, size: nat, init: bool, relocs: seq<Reloc>)

  datatype Filter = Any | Only(rtype: RelocType)

  function InitSections(ss: seq<Section>): set<nat> { set i: nat | i < |ss| && ss[i].init }

  function OtherSections(ss: seq<Section>): set<nat> { set i: nat | i < |ss| && !ss[i].init }

  predicate Selected(r: Reloc, to: set<nat>, f: Filter) {
    r.target.Some? && r.target.value in to && (f.Any? || r.rtype == f.rtype)
  }

  function SectionRelocs(s: Section, n: nat, to: set<nat>, f: Filter): seq<int>
    requires n <= |s.relocs|
  {
    if n == 0 then []
    else SectionRelocs(s, n - 1, to, f) + if Selected(s.relocs[n-1], to, f) then [s.finalloc + s.relocs[n-1].offset] else []
  }

  /** getRelocs over the first n sections */
  function GetRelocs(ss: seq<Section>, n: nat, from: set<nat>, to: set<nat>, f: Filter): seq<int>
    requires n <= |ss|
  {
    if n == 0 then []
    else GetRelocs(ss, n - 1, from, to, f) +
         if n - 1 in from then SectionRelocs(ss[n-1], |ss[n-1].relocs|, to, f) else []
  }

  function Offsets(l: seq<int>, base: int): seq<int> { seq(|l|, i requires 0 <= i < |l| => l[i] - base) }

  /** What strRelocs emits, in whatever order. */
  ghost predicate IsTable(t: seq<int>, l: seq<int>, base: int) { multiset(t) == multiset(Offsets(l, base)) }

  predicate IsRef(ss: seq<Section>, i: nat, k: nat) { i < |ss| && k < |ss[i].relocs| }

  /** The address the layout gives to a reference's field. */
  function At(ss: seq<Section>, i: nat, k: nat): int
    requires IsRef(ss, i, k)
  {
    ss[i].finalloc + ss[i].relocs[k].offset
  }

  predicate Beside(s: Section, t: Section) { s.finalloc + s.size <= t.finalloc || t.finalloc + t.size <= s.finalloc }

  /** Sections do not overlap, fields lie in their sections and do not overlap either. */
  ghost predicate WellLaid(ss: seq<Section>) {
    && (forall i, j :: 0 <= i < |ss| && 0 <= j < |ss| && i != j ==> Beside(ss[i], ss[j]))
    && (forall i: nat, k: nat :: IsRef(ss, i, k) ==> ss[i].relocs[k].offset + 4 <= ss[i].size)
    && (forall i: nat, k: nat, l: nat :: IsRef(ss, i, k) && IsRef(ss, i, l) && k != l ==> WordsApart(At(ss, i, k), At(ss, i, l)))
  }

  lemma FieldsApart(ss: seq<Section>, i: nat, k: nat, j: nat, l: nat)
    requires WellLaid(ss) && IsRef(ss, i, k) && IsRef(ss, j, l) && (i != j || k != l)
    ensures WordsApart(At(ss, i, k), At(ss, j, l))
  {
    if i != j { assert Beside(ss[i], ss[j]); }
  }

  lemma {:induction false} InSectionRelocs(ss: seq<Section>, i: nat, n: nat, to: set<nat>, f: Filter, p: int)
    requires i < |ss| && n <= |ss[i].relocs|
    ensures p in SectionRelocs(ss[i], n, to, f) <==>
            exists k: nat :: k < n && IsRef(ss, i, k) && Selected(ss[i].relocs[k], to, f) && At(ss, i, k) == p
  {
    if n > 0 {
      InSectionRelocs(ss, i, n - 1, to, f, p);
      assert IsRef(ss, i, n - 1);
    }
  }

  ghost predicate Recorded(ss: seq<Section>, n: nat, from: set<nat>, to: set<nat>, f: Filter, i: nat, k: nat) {
    IsRef(ss, i, k) && i < n && i in from && Selected(ss[i].relocs[k], to, f)
  }

  lemma {:induction false} InGetRelocs(ss: seq<Section>, n: nat, from: set<nat>, to: set<nat>, f: Filter, p: int)
    requires n <= |ss|
    ensures p in GetRelocs(ss, n, from, to, f) <==> exists i: nat, k: nat :: Recorded(ss, n, from, to, f, i, k) && At(ss, i, k) == p
  {
    if n > 0 {
      InGetRelocs(ss, n - 1, from, to, f, p);
      InSectionRelocs(ss, n - 1, |ss[n-1].relocs|, to, f, p);
      if p in GetRelocs(ss, n - 1, from, to, f) {
        var i: nat, k: nat :| Recorded(ss, n - 1, from, to, f, i, k) && At(ss, i, k) == p;
        assert Recorded(ss, n, from, to, f, i, k);
      } else if n - 1 in from && p in SectionRelocs(ss[n-1], |ss[n-1].relocs|, to, f) {
        var k: nat :| IsRef(ss, n - 1, k) && Selected(ss[n-1].relocs[k], to, f) && At(ss, n - 1, k) == p;
        assert Recorded(ss, n, from, to, f, n - 1, k);
      } else {
        forall i: nat, k: nat | Recorded(ss, n, from, to, f, i, k) ensures At(ss, i, k) != p {
          if i < n - 1 { assert Recorded(ss, n - 1, from, to, f, i, k); }
        }
      }
    }
  }

  lemma SpreadConcat(a: seq<int>, b: seq<int>)
    requires Spread(a) && Spread(b) && forall x, y :: x in a && y in b ==> WordsApart(x, y)
    ensures Spread(a + b)
  {}

  lemma {:induction false} SectionRelocsSpread(ss: seq<Section>, i: nat, n: nat, to: set<nat>, f: Filter)
    requires WellLaid(ss) && i < |ss| && n <= |ss[i].relocs|
    ensures Spread(SectionRelocs(ss[i], n, to, f))
  {
    if n > 0 {
      hide Spread;
      SectionRelocsSpread(ss, i, n - 1, to, f);
      assert IsRef(ss, i, n - 1);
      var a := SectionRelocs(ss[i], n - 1, to, f);
      var b := if Selected(ss[i].relocs[n-1], to, f) then [At(ss, i, n - 1)] else [];
      forall x, y | x in a && y in b ensures WordsApart(x, y) {
        InSectionRelocs(ss, i, n - 1, to, f, x);
      }
      assert Spread(b) by { ShortSpread(b); }
      SpreadConcat(a, b);
    }
  }

  lemma ShortSpread(b: seq<int>)
    requires |b| <= 1
    ensures Spread(b)
  {}

  lemma {:induction false} GetRelocsSpread(ss: seq<Section>, n: nat, from: set<nat>, to: set<nat>, f: Filter)
    requires WellLaid(ss) && n <= |ss|
    ensures Spread(GetRelocs(ss, n, from, to, f))
  {
    if n > 0 {
      hide Spread, WellLaid;
      GetRelocsSpread(ss, n - 1, from, to, f);
      var a := GetRelocs(ss, n - 1, from, to, f);
      var b := SectionRelocs(ss[n-1], |ss[n-1].relocs|, to, f);
      SectionRelocsSpread(ss, n - 1, |ss[n-1].relocs|, to, f);
      forall x, y | x in a && y in b ensures WordsApart(x, y) {
        InGetRelocs(ss, n - 1, from, to, f, x);
        InSectionRelocs(ss, n - 1, |ss[n-1].relocs|, to, f, y);
        var i: nat, k: nat :| Recorded(ss, n - 1, from, to, f, i, k) && At(ss, i, k) == x;
        var l: nat :| IsRef(ss, n - 1, l) && At(ss, n - 1, l) == y;
        FieldsApart(ss, i, k, n - 1, l);
      }
      SpreadConcat(a, b);
      assert a + [] == a;
    }
  }

  /** A table has the offsets of its list, each once. */
  lemma InTable(t: seq<int>, l: seq<int>, base: int, x: int)
    requires IsTable(t, l, base)
    ensures x in t <==> x + base in l
  {
    var o := Offsets(l, base);
    SameElements(t, o);
    if x in o { var i :| 0 <= i < |o| && o[i] == x; assert l[i] == x + base; }
    if x + base in l { var i :| 0 <= i < |l| && l[i] == x + base; assert o[i] == x; }
  }

  lemma {:induction false} TableSpread(t: seq<int>, l: seq<int>, base: int)
    requires IsTable(t, l, base) && Spread(l)
    ensures Spread(t)
  {
    var o := Offsets(l, base);
    assert NoRepeats(o) by {
      forall i, j | 0 <= i < j < |o| ensures o[i] != o[j] { assert WordsApart(l[i], l[j]); }
    }
    PermutationNoRepeats(o, t);
    hide IsTable, Offsets;
    forall i, j | 0 <= i < j < |t| ensures WordsApart(t[i], t[j]) {
      InTable(t, l, base, t[i]);
      InTable(t, l, base, t[j]);
      var a :| 0 <= a < |l| && l[a] == t[i] + base;
      var b :| 0 <= b < |l| && l[b] == t[j] + base;
      assert a < b ==> WordsApart(l[a], l[b]);
      assert b < a ==> WordsApart(l[b], l[a]);
    }
  }

  // ---- The move ----

  /** Where the linked init code and the recorded lists count from, and where the code goes. */
  datatype Move = Move(initStart: int, initEnd: int, flatStart: int, dest: int) {
    function Delta(): int { dest - initStart }
    function Size(): int { initEnd - initStart }
  }

  /** The init sections lie in a region of their own; its new home is memory that no section uses. */
  ghost predicate Placed(ss: seq<Section>, v: Move, len: nat) {
    && 0 <= v.initStart <= v.initEnd <= len <= TWO32 && 0 < v.dest && v.dest + v.Size() <= len
    && (v.initEnd <= v.dest || v.dest + v.Size() <= v.initStart)
    && (forall i :: 0 <= i < |ss| && ss[i].init ==> v.initStart <= ss[i].finalloc && ss[i].finalloc + ss[i].size <= v.initEnd)
    && (forall i :: 0 <= i < |ss| && !ss[i].init ==>
          0 <= ss[i].finalloc && ss[i].finalloc + ss[i].size <= len
          && (ss[i].finalloc + ss[i].size <= v.initStart || v.initEnd <= ss[i].finalloc)
          && (ss[i].finalloc + ss[i].size <= v.dest || v.dest + v.Size() <= ss[i].finalloc))
  }

  ghost predicate AbsTable(ss: seq<Section>, t: seq<int>, v: Move) {
    IsTable(t, GetRelocs(ss, |ss|, InitSections(ss), InitSections(ss), Only(Abs32)), v.initStart)
  }

  ghost predicate RelTable(ss: seq<Section>, t: seq<int>, v: Move) {
    IsTable(t, GetRelocs(ss, |ss|, InitSections(ss), OtherSections(ss), Only(Pc32)), v.initStart)
  }

  ghost predicate InitTable(ss: seq<Section>, t: seq<int>, v: Move) {
    IsTable(t, GetRelocs(ss, |ss|, OtherSections(ss), InitSections(ss), Any), v.flatStart)
  }

  /** Each table entry is the field of a recorded reference. */
  lemma {:induction false} EntryIsField(ss: seq<Section>, from: set<nat>, to: set<nat>, f: Filter, t: seq<int>, origin: int, k: nat)
    returns (i: nat, l: nat)
    requires IsTable(t, GetRelocs(ss, |ss|, from, to, f), origin) && k < |t|
    ensures Recorded(ss, |ss|, from, to, f, i, l) && At(ss, i, l) == t[k] + origin
  {
    InTable(t, GetRelocs(ss, |ss|, from, to, f), origin, t[k]);
    InGetRelocs(ss, |ss|, from, to, f, t[k] + origin);
    i, l :| Recorded(ss, |ss|, from, to, f, i, l) && At(ss, i, l) == t[k] + origin;
  }

  /** Updating by a table adds to the recorded fields and leaves the other ones alone. */
  lemma {:induction false} TableEffect(ss: seq<Section>, from: set<nat>, to: set<nat>, f: Filter, t: seq<int>, origin: int,
                                       m: seq<byte>, base: int, delta: int, i: nat, k: nat)
    requires WellLaid(ss) && IsTable(t, GetRelocs(ss, |ss|, from, to, f), origin) && AllIn(m, base, t) && IsRef(ss, i, k)
    requires InMemory(m, base + At(ss, i, k) - origin)
    ensures var a := base + At(ss, i, k) - origin;
            Word(Update(m, base, t, delta), a) ==
            if Recorded(ss, |ss|, from, to, f, i, k) then (Word(m, a) + delta) % TWO32 else Word(m, a)
  {
    hide WellLaid, IsTable, Update, Word, Recorded;
    var l := GetRelocs(ss, |ss|, from, to, f);
    var x := At(ss, i, k) - origin;
    if Recorded(ss, |ss|, from, to, f, i, k) {
      InGetRelocs(ss, |ss|, from, to, f, x + origin);
      InTable(t, l, origin, x);
      var n :| 0 <= n < |t| && t[n] == x;
      GetRelocsSpread(ss, |ss|, from, to, f);
      TableSpread(t, l, origin);
      UpdateHits(m, base, t, delta, n);
    } else {
      forall n | 0 <= n < |t| ensures WordsApart(base + t[n], base + x) {
        var j, h := EntryIsField(ss, from, to, f, t, origin, n);
        RecordedIsRef(ss, from, to, f, j, h);
        FieldsApart(ss, j, h, i, k);
      }
      UpdateMisses(m, base, t, delta, base + x);
    }
  }

  lemma RecordedIsRef(ss: seq<Section>, from: set<nat>, to: set<nat>, f: Filter, i: nat, k: nat)
    requires Recorded(ss, |ss|, from, to, f, i, k)
    ensures IsRef(ss, i, k) && i in from
  {}

  /** Where a section's bytes are after the move. */
  function Place(s: Section, delta: int): int { s.finalloc + if s.init then delta else 0 }

  lemma FieldPlaces(ss: seq<Section>, v: Move, len: nat, i: nat, k: nat)
    requires WellLaid(ss) && Placed(ss, v, len) && IsRef(ss, i, k)
    ensures 0 <= At(ss, i, k) && At(ss, i, k) + 4 <= len
    ensures ss[i].init ==> v.dest <= v.dest + At(ss, i, k) - v.initStart && v.dest + At(ss, i, k) - v.initStart + 4 <= v.dest + v.Size()
    ensures !ss[i].init ==> At(ss, i, k) + 4 <= v.dest || v.dest + v.Size() <= At(ss, i, k)
  {}

  lemma {:induction false} TablesIn(ss: seq<Section>, v: Move, m: seq<byte>, absT: seq<int>, relT: seq<int>, initT: seq<int>)
    requires WellLaid(ss) && Placed(ss, v, |m|) && AbsTable(ss, absT, v) && RelTable(ss, relT, v) && InitTable(ss, initT, v)
    ensures AllIn(m, v.dest, absT) && AllIn(m, v.dest, relT) && AllIn(m, v.flatStart, initT)
    ensures forall k :: 0 <= k < |absT| ==> v.dest <= v.dest + absT[k] <= v.dest + v.Size() - 4
    ensures forall k :: 0 <= k < |relT| ==> v.dest <= v.dest + relT[k] <= v.dest + v.Size() - 4
    ensures forall k :: 0 <= k < |initT| ==> v.flatStart + initT[k] + 4 <= v.dest || v.dest + v.Size() <= v.flatStart + initT[k]
  {
    hide WellLaid, Placed, IsTable;
    forall k | 0 <= k < |absT| ensures InMemory(m, v.dest + absT[k]) && v.dest <= v.dest + absT[k] <= v.dest + v.Size() - 4 {
      var i, l := EntryIsField(ss, InitSections(ss), InitSections(ss), Only(Abs32), absT, v.initStart, k);
      FieldPlaces(ss, v, |m|, i, l);
      PlacedBounds(ss, v, |m|);
    }
    forall k | 0 <= k < |relT| ensures InMemory(m, v.dest + relT[k]) && v.dest <= v.dest + relT[k] <= v.dest + v.Size() - 4 {
      var i, l := EntryIsField(ss, InitSections(ss), OtherSections(ss), Only(Pc32), relT, v.initStart, k);
      FieldPlaces(ss, v, |m|, i, l);
      PlacedBounds(ss, v, |m|);
    }
    forall k | 0 <= k < |initT|
      ensures InMemory(m, v.flatStart + initT[k])
      ensures v.flatStart + initT[k] + 4 <= v.dest || v.dest + v.Size() <= v.flatStart + initT[k]
    {
      var i, l := EntryIsField(ss, OtherSections(ss), InitSections(ss), Any, initT, v.flatStart, k);
      FieldPlaces(ss, v, |m|, i, l);
    }
  }

  lemma PlacedBounds(ss: seq<Section>, v: Move, len: nat)
    requires Placed(ss, v, len)
    ensures 0 < v.dest && v.dest + v.Size() <= len && 0 <= v.initStart <= v.initEnd <= len
    ensures v.initEnd <= v.dest || v.dest + v.Size() <= v.initStart
    ensures 0 < v.Size() ==> 0 < v.Delta() < TWO32 || 0 < 0 - v.Delta() < TWO32
  {}

  /** memcpy of the init code */
  function Copied(m: seq<byte>, v: Move): (r: seq<byte>)
    requires 0 <= v.initStart <= v.initEnd <= |m| && 0 <= v.dest && v.dest + v.Size() <= |m|
    ensures |r| == |m|
  {
    m[..v.dest] + m[v.initStart..v.initEnd] + m[v.dest + v.Size()..]
  }

  lemma WordCopied(m: seq<byte>, v: Move, a: int)
    requires 0 <= v.initStart <= v.initEnd <= |m| && 0 <= v.dest && v.dest + v.Size() <= |m|
    requires InMemory(m, a)
    ensures v.initStart <= a && a + 4 <= v.initEnd ==> Word(Copied(m, v), a + v.Delta()) == Word(m, a)
    ensures a + 4 <= v.dest || v.dest + v.Size() <= a ==> Word(Copied(m, v), a) == Word(m, a)
  {
    var m' := Copied(m, v);
    if v.initStart <= a && a + 4 <= v.initEnd {
      var b := a + v.Delta();
      assert m'[b] == m[a] && m'[b+1] == m[a+1] && m'[b+2] == m[a+2] && m'[b+3] == m[a+3];
    }
    if a + 4 <= v.dest || v.dest + v.Size() <= a {
      assert m'[a] == m[a] && m'[a+1] == m[a+1] && m'[a+2] == m[a+2] && m'[a+3] == m[a+3];
    }
  }

  /** What the linker stores in a field when the init sections are `delta` further on. */
  function Field(ss: seq<Section>, i: nat, k: nat, delta: int): int
    requires IsRef(ss, i, k)
  {
    var r := ss[i].relocs[k];
    var target := r.addend + if r.target.Some? && r.target.value < |ss| then Place(ss[r.target.value], delta) else 0;
    (if r.rtype.Abs32? then target else target - (Place(ss[i], delta) + r.offset)) % TWO32
  }

  /** The image is linked: each field holds what the linker computes for its place. */
  ghost predicate Linked(m: seq<byte>, ss: seq<Section>, delta: int) {
    forall i: nat, k: nat :: IsRef(ss, i, k) ==>
      InMemory(m, Place(ss[i], delta) + ss[i].relocs[k].offset)
      && Word(m, Place(ss[i], delta) + ss[i].relocs[k].offset) == Field(ss, i, k, delta)
  }

  /** The one kind of reference that no list covers although it must change: a pc-relative
      one from the init code to a symbol in no section. */
  predicate Forgotten(ss: seq<Section>, i: nat, k: nat)
    requires IsRef(ss, i, k)
  {
    var r := ss[i].relocs[k];
    ss[i].init && r.rtype.Pc32? && !(r.target.Some? && r.target.value < |ss|)
  }

  function Relocated(m: seq<byte>, v: Move, absT: seq<int>, relT: seq<int>, initT: seq<int>): (r: seq<byte>)
    requires 0 <= v.initStart <= v.initEnd <= |m| && 0 <= v.dest && v.dest + v.Size() <= |m|
    requires AllIn(m, v.dest, absT) && AllIn(m, v.dest, relT) && AllIn(m, v.flatStart, initT)
    ensures |r| == |m|
  {
    Update(Update(Update(Copied(m, v), v.dest, absT, v.Delta()), v.dest, relT, 0 - v.Delta()), v.flatStart, initT, v.Delta())
  }

  /** The tables for the init code miss every other field, and the third misses the moved code. */
  lemma {:induction false} TablesMiss(ss: seq<Section>, v: Move, m: seq<byte>, absT: seq<int>, relT: seq<int>, initT: seq<int>,
                                      i: nat, k: nat)
    requires WellLaid(ss) && Placed(ss, v, |m|) && AbsTable(ss, absT, v) && RelTable(ss, relT, v) && InitTable(ss, initT, v)
    requires IsRef(ss, i, k)
    ensures ss[i].init ==> Misses(v.flatStart, initT, v.dest + At(ss, i, k) - v.initStart)
    ensures !ss[i].init ==> Misses(v.dest, absT, At(ss, i, k)) && Misses(v.dest, relT, At(ss, i, k))
  {
    hide WellLaid, Placed, IsTable, AllIn;
    TablesIn(ss, v, m, absT, relT, initT);
    FieldPlaces(ss, v, |m|, i, k);
  }

  /** The bytes of a field where they are before and after the copy. */
  lemma FieldCopied(ss: seq<Section>, v: Move, m: seq<byte>, i: nat, k: nat)
    requires WellLaid(ss) && Placed(ss, v, |m|) && IsRef(ss, i, k)
    ensures InMemory(m, At(ss, i, k))
    ensures ss[i].init ==> InMemory(m, At(ss, i, k) + v.Delta())
                           && Word(Copied(m, v), At(ss, i, k) + v.Delta()) == Word(m, At(ss, i, k))
    ensures !ss[i].init ==> Word(Copied(m, v), At(ss, i, k)) == Word(m, At(ss, i, k))
  {
    hide Copied, Word, WellLaid;
    FieldPlaces(ss, v, |m|, i, k);
    WordCopied(m, v, At(ss, i, k));
    PlacedBounds(ss, v, |m|);
  }

  /** A field of the init code gets the updates of the first two tables only. */
  lemma {:induction false} InitField(ss: seq<Section>, v: Move, m: seq<byte>, absT: seq<int>, relT: seq<int>, initT: seq<int>,
                                     i: nat, k: nat)
    requires WellLaid(ss) && Placed(ss, v, |m|) && AbsTable(ss, absT, v) && RelTable(ss, relT, v) && InitTable(ss, initT, v)
    requires AllIn(m, v.dest, absT) && AllIn(m, v.dest, relT) && AllIn(m, v.flatStart, initT)
    requires IsRef(ss, i, k) && ss[i].init
    ensures InMemory(m, At(ss, i, k)) && InMemory(m, At(ss, i, k) + v.Delta())
    ensures var w1 := if Recorded(ss, |ss|, InitSections(ss), InitSections(ss), Only(Abs32), i, k)
                      then (Word(m, At(ss, i, k)) + v.Delta()) % TWO32 else Word(m, At(ss, i, k));
            Word(Relocated(m, v, absT, relT, initT), At(ss, i, k) + v.Delta()) ==
            if Recorded(ss, |ss|, InitSections(ss), OtherSections(ss), Only(Pc32), i, k) then (w1 - v.Delta()) % TWO32 else w1
  {
    hide WellLaid, Placed, IsTable, Recorded, Update, Copied, Word, Misses, AllIn, InMemory, At, IsRef;
    PlacedBounds(ss, v, |m|);
    FieldCopied(ss, v, m, i, k);
    TablesMiss(ss, v, m, absT, relT, initT, i, k);
    var m1 := Copied(m, v);
    SameSize(m, m1, v, absT, relT, initT);
    SameSize(m, Update(m1, v.dest, absT, v.Delta()), v, absT, relT, initT);
    var m3 := Update(Update(m1, v.dest, absT, v.Delta()), v.dest, relT, 0 - v.Delta());
    SameSize(m, m3, v, absT, relT, initT);
    assert v.dest + At(ss, i, k) - v.initStart == At(ss, i, k) + v.Delta();
    InitTables(ss, v, m1, absT, relT, i, k);
    UpdateMisses(m3, v.flatStart, initT, v.Delta(), At(ss, i, k) + v.Delta());
  }

  lemma SameSize(m: seq<byte>, m': seq<byte>, v: Move, absT: seq<int>, relT: seq<int>, initT: seq<int>)
    requires |m'| == |m| && AllIn(m, v.dest, absT) && AllIn(m, v.dest, relT) && AllIn(m, v.flatStart, initT)
    ensures AllIn(m', v.dest, absT) && AllIn(m', v.dest, relT) && AllIn(m', v.flatStart, initT)
    ensures forall a :: InMemory(m, a) ==> InMemory(m', a)
  {}

  lemma {:induction false} InitTables(ss: seq<Section>, v: Move, m: seq<byte>, absT: seq<int>, relT: seq<int>, i: nat, k: nat)
    requires WellLaid(ss) && AbsTable(ss, absT, v) && RelTable(ss, relT, v)
    requires AllIn(m, v.dest, absT) && AllIn(m, v.dest, relT)
    requires IsRef(ss, i, k) && InMemory(m, v.dest + At(ss, i, k) - v.initStart)
    ensures var a := v.dest + At(ss, i, k) - v.initStart;
            var w1 := if Recorded(ss, |ss|, InitSections(ss), InitSections(ss), Only(Abs32), i, k)
                      then (Word(m, a) + v.Delta()) % TWO32 else Word(m, a);
            Word(Update(Update(m, v.dest, absT, v.Delta()), v.dest, relT, 0 - v.Delta()), a) ==
            if Recorded(ss, |ss|, InitSections(ss), OtherSections(ss), Only(Pc32), i, k) then (w1 - v.Delta()) % TWO32 else w1
  {
    hide WellLaid, IsTable, Recorded, Update, Word, At;
    TableEffect(ss, InitSections(ss), InitSections(ss), Only(Abs32), absT, v.initStart, m, v.dest, v.Delta(), i, k);
    TableEffect(ss, InitSections(ss), OtherSections(ss), Only(Pc32), relT, v.initStart,
                Update(m, v.dest, absT, v.Delta()), v.dest, 0 - v.Delta(), i, k);
  }

  /** Any other field gets the updates of the third table only. */
  lemma {:induction false} OtherField(ss: seq<Section>, v: Move, m: seq<byte>, absT: seq<int>, relT: seq<int>, initT: seq<int>,
                                      i: nat, k: nat)
    requires WellLaid(ss) && Placed(ss, v, |m|) && AbsTable(ss, absT, v) && RelTable(ss, relT, v) && InitTable(ss, initT, v)
    requires AllIn(m, v.dest, absT) && AllIn(m, v.dest, relT) && AllIn(m, v.flatStart, initT)
    requires IsRef(ss, i, k) && !ss[i].init
    ensures InMemory(m, At(ss, i, k))
    ensures Word(Relocated(m, v, absT, relT, initT), At(ss, i, k)) ==
            if Recorded(ss, |ss|, OtherSections(ss), InitSections(ss), Any, i, k)
            then (Word(m, At(ss, i, k)) + v.Delta()) % TWO32 else Word(m, At(ss, i, k))
  {
    hide WellLaid, Placed, IsTable, Recorded, Update, Copied, Word, Misses, AllIn, InMemory, At, IsRef;
    PlacedBounds(ss, v, |m|);
    FieldCopied(ss, v, m, i, k);
    TablesMiss(ss, v, m, absT, relT, initT, i, k);
    var w := At(ss, i, k);
    var m1 := Copied(m, v);
    SameSize(m, m1, v, absT, relT, initT);
    var m2 := Update(m1, v.dest, absT, v.Delta());
    SameSize(m, m2, v, absT, relT, initT);
    var m3 := Update(m2, v.dest, relT, 0 - v.Delta());
    SameSize(m, m3, v, absT, relT, initT);
    assert v.flatStart + w - v.flatStart == w;
    UpdateMisses(m1, v.dest, absT, v.Delta(), w);
    UpdateMisses(m2, v.dest, relT, 0 - v.Delta(), w);
    TableEffect(ss, OtherSections(ss), InitSections(ss), Any, initT, v.flatStart, m3, v.flatStart, v.Delta(), i, k);
  }

  lemma ModAdd(x: int, d: int)
    ensures (x % TWO32 + d) % TWO32 == (x + d) % TWO32
  {}

  lemma ModShift(w: int, d: int)
    requires 0 <= w < TWO32
    ensures 0 < d < TWO32 || 0 < 0 - d < TWO32 ==> (w - d) % TWO32 != w
  {}

  predicate TargetsInit(ss: seq<Section>, i: nat, k: nat)
    requires IsRef(ss, i, k)
  {
    var r := ss[i].relocs[k];
    r.target.Some? && r.target.value < |ss| && ss[r.target.value].init
  }

  /** How a field's linked value changes when the init sections move. */
  lemma FieldMoves(ss: seq<Section>, i: nat, k: nat, delta: int)
    requires IsRef(ss, i, k)
    ensures 0 <= Field(ss, i, k, 0) < TWO32
    ensures var to := if TargetsInit(ss, i, k) then delta else 0;
            var from := if ss[i].init && ss[i].relocs[k].rtype.Pc32? then delta else 0;
            Field(ss, i, k, delta) == (Field(ss, i, k, 0) + to - from) % TWO32
  {
    var r := ss[i].relocs[k];
    var toInit := TargetsInit(ss, i, k);
    var target := r.addend + if r.target.Some? && r.target.value < |ss| then Place(ss[r.target.value], 0) else 0;
    var x := if r.rtype.Abs32? then target else target - (Place(ss[i], 0) + r.offset);
    ModAdd(x, (if toInit then delta else 0) - if ss[i].init && r.rtype.Pc32? then delta else 0);
  }

  /** Which list a reference is in. */
  lemma Lists(ss: seq<Section>, i: nat, k: nat)
    requires IsRef(ss, i, k)
    ensures Recorded(ss, |ss|, InitSections(ss), InitSections(ss), Only(Abs32), i, k) <==>
            ss[i].init && ss[i].relocs[k].rtype.Abs32? && TargetsInit(ss, i, k)
    ensures Recorded(ss, |ss|, InitSections(ss), OtherSections(ss), Only(Pc32), i, k) <==>
            ss[i].init && ss[i].relocs[k].rtype.Pc32? && !TargetsInit(ss, i, k) && !Forgotten(ss, i, k)
    ensures Recorded(ss, |ss|, OtherSections(ss), InitSections(ss), Any, i, k) <==> !ss[i].init && TargetsInit(ss, i, k)
    ensures Forgotten(ss, i, k) ==> !TargetsInit(ss, i, k)
  {}

  /** After the move a field holds what the linker would have stored for the new place,
      unless it is one of those that no list covers. */
  lemma {:induction false} FieldRelocated(ss: seq<Section>, v: Move, m: seq<byte>, absT: seq<int>, relT: seq<int>, initT: seq<int>,
                                          i: nat, k: nat)
    requires WellLaid(ss) && Placed(ss, v, |m|) && AbsTable(ss, absT, v) && RelTable(ss, relT, v) && InitTable(ss, initT, v)
    requires AllIn(m, v.dest, absT) && AllIn(m, v.dest, relT) && AllIn(m, v.flatStart, initT)
    requires Linked(m, ss, 0) && IsRef(ss, i, k)
    ensures var a := Place(ss[i], v.Delta()) + ss[i].relocs[k].offset;
            && InMemory(m, a)
            && (Word(Relocated(m, v, absT, relT, initT), a) == Field(ss, i, k, v.Delta()) <==> !Forgotten(ss, i, k))
  {
    hide WellLaid, Placed, AbsTable, RelTable, InitTable, AllIn, Recorded, Update, Copied, Field, TargetsInit, Word;
    FieldMoves(ss, i, k, v.Delta());
    Lists(ss, i, k);
    var w := Field(ss, i, k, 0);
    assert Word(m, At(ss, i, k)) == w;
    PlacedBounds(ss, v, |m|);
    if ss[i].init {
      InitField(ss, v, m, absT, relT, initT, i, k);
      FieldPlaces(ss, v, |m|, i, k);
      ModShift(w, v.Delta());
    } else {
      OtherField(ss, v, m, absT, relT, initT, i, k);
    }
  }

  /** The moved image is the image linked for the new place. */
  lemma {:induction false} RelocatedIsRelinked(ss: seq<Section>, v: Move, m: seq<byte>, absT: seq<int>, relT: seq<int>, initT: seq<int>)
    requires WellLaid(ss) && Placed(ss, v, |m|) && AbsTable(ss, absT, v) && RelTable(ss, relT, v) && InitTable(ss, initT, v)
    requires AllIn(m, v.dest, absT) && AllIn(m, v.dest, relT) && AllIn(m, v.flatStart, initT)
    requires Linked(m, ss, 0)
    ensures Linked(Relocated(m, v, absT, relT, initT), ss, v.Delta()) <==>
            forall i: nat, k: nat :: IsRef(ss, i, k) ==> !Forgotten(ss, i, k)
  {
    hide WellLaid, Placed, AbsTable, RelTable, InitTable, AllIn, Update, Copied, Field, Word, Forgotten;
    PlacedBounds(ss, v, |m|);
    var r := Relocated(m, v, absT, relT, initT);
    forall i: nat, k: nat | IsRef(ss, i, k)
      ensures InMemory(m, Place(ss[i], v.Delta()) + ss[i].relocs[k].offset)
      ensures Word(r, Place(ss[i], v.Delta()) + ss[i].relocs[k].offset) == Field(ss, i, k, v.Delta()) <==> !Forgotten(ss, i, k)
    {
      FieldRelocated(ss, v, m, absT, relT, initT, i, k);
    }
  }

  /** An init section at 16 with a pc-relative reference to address 0: moved to 32 without an
      entry in any list, it refers to address 16. */
  function LostSection(): Section { Section(16, 8, true, [Reloc(0, Pc32, None, 0)]) }

  function LostImage(): seq<byte> {
    seq(48, i requires 0 <= i < 48 => if i == 16 then 0xF0 else if 17 <= i < 20 then 0xFF else 0)
  }

  lemma {:induction false} LostReference()
    ensures var ss, v, m := [LostSection()], Move(16, 24, 0, 32), LostImage();
            && WellLaid(ss) && Placed(ss, v, |m|) && AbsTable(ss, [], v) && RelTable(ss, [], v) && InitTable(ss, [], v)
            && Linked(m, ss, 0) && IsRef(ss, 0, 0) && Forgotten(ss, 0, 0)
            && !Linked(Relocated(m, v, [], [], []), ss, v.Delta())
  {
    hide WellLaid, Placed, IsTable, GetRelocs, Linked, Relocated, LostImage;
    var ss, v, m := [LostSection()], Move(16, 24, 0, 32), LostImage();
    LostIsLaid();
    LostIsLinked();
    NoList(InitSections(ss), InitSections(ss), Only(Abs32), 16);
    NoList(InitSections(ss), OtherSections(ss), Only(Pc32), 16);
    NoList(OtherSections(ss), InitSections(ss), Any, 0);
    assert IsRef(ss, 0, 0);
    RelocatedIsRelinked(ss, v, m, [], [], []);
  }

  lemma NoList(from: set<nat>, to: set<nat>, f: Filter, base: int)
    ensures GetRelocs([LostSection()], 1, from, to, f) == [] && IsTable([], GetRelocs([LostSection()], 1, from, to, f), base)
  {
    var s := LostSection();
    assert SectionRelocs(s, 0, to, f) == [] && SectionRelocs(s, 1, to, f) == [];
    assert GetRelocs([s], 0, from, to, f) == [];
    assert Offsets([], base) == [];
  }

  lemma LostIsLaid()
    ensures WellLaid([LostSection()]) && Placed([LostSection()], Move(16, 24, 0, 32), 48) && |LostImage()| == 48
  {}

  lemma LostIsLinked()
    ensures Linked(LostImage(), [LostSection()], 0)
  {
    assert Word(LostImage(), 16) == 0xFFFF_FFF0;
  }

  /** Bytes of the init code that belong to no field move as they are. */
  lemma {:induction false} CodeMoves(ss: seq<Section>, v: Move, m: seq<byte>, absT: seq<int>, relT: seq<int>, initT: seq<int>, b: int)
    requires WellLaid(ss) && Placed(ss, v, |m|) && AbsTable(ss, absT, v) && RelTable(ss, relT, v) && InitTable(ss, initT, v)
    requires AllIn(m, v.dest, absT) && AllIn(m, v.dest, relT) && AllIn(m, v.flatStart, initT)
    requires v.initStart <= b < v.initEnd
    requires forall i: nat, k: nat :: IsRef(ss, i, k) && ss[i].init ==> !(At(ss, i, k) <= b < At(ss, i, k) + 4)
    ensures 0 <= b + v.Delta() < |m| && Relocated(m, v, absT, relT, initT)[b + v.Delta()] == m[b]
  {
    hide WellLaid, Placed, IsTable, Update;
    PlacedBounds(ss, v, |m|);
    TablesIn(ss, v, m, absT, relT, initT);
    var c := b + v.Delta();
    var m1 := Copied(m, v);
    var m2 := Update(m1, v.dest, absT, v.Delta());
    forall k | 0 <= k < |absT| ensures !(v.dest + absT[k] <= c < v.dest + absT[k] + 4) {
      var i, l := EntryIsField(ss, InitSections(ss), InitSections(ss), Only(Abs32), absT, v.initStart, k);
    }
    UpdateOutside(m1, v.dest, absT, v.Delta(), c);
    forall k | 0 <= k < |relT| ensures !(v.dest + relT[k] <= c < v.dest + relT[k] + 4) {
      var i, l := EntryIsField(ss, InitSections(ss), OtherSections(ss), Only(Pc32), relT, v.initStart, k);
    }
    UpdateOutside(m2, v.dest, relT, 0 - v.Delta(), c);
    UpdateOutside(Update(m2, v.dest, relT, 0 - v.Delta()), v.flatStart, initT, v.Delta(), c);
  }

  /** reloc_preinit, given the memory that memalign_tmp found: it returns where `f` is now. */
  method RelocPreinit(mem: array<byte>, v: Move, absT: seq<int>, relT: seq<int>, initT: seq<int>, f: int, ghost ss: seq<Section>)
    returns (func: int)
    requires WellLaid(ss) && Placed(ss, v, mem.Length) && Linked(mem[..], ss, 0)
    requires AbsTable(ss, absT, v) && RelTable(ss, relT, v) && InitTable(ss, initT, v)
    modifies mem
    ensures AllIn(old(mem[..]), v.dest, absT) && AllIn(old(mem[..]), v.dest, relT) && AllIn(old(mem[..]), v.flatStart, initT)
    ensures 0 <= v.initStart <= v.initEnd <= mem.Length && 0 <= v.dest && v.dest + v.Size() <= mem.Length
    ensures mem[..] == Relocated(old(mem[..]), v, absT, relT, initT)
    ensures Linked(mem[..], ss, v.Delta()) <==> forall i: nat, k: nat :: IsRef(ss, i, k) ==> !Forgotten(ss, i, k)
    ensures forall i :: 0 <= i < |ss| && ss[i].finalloc <= f < ss[i].finalloc + ss[i].size ==>
              f - ss[i].finalloc == func - Place(ss[i], v.Delta())
  {
    hide WellLaid, Linked, AbsTable, RelTable, InitTable, Update, Forgotten;
    ghost var m := mem[..];
    TablesIn(ss, v, m, absT, relT, initT);
    RelocatedIsRelinked(ss, v, m, absT, relT, initT);
    forall i | 0 <= i < v.Size() {
      mem[v.dest + i] := mem[v.initStart + i];
    }
    assert mem[..] == Copied(m, v);
    UpdateRelocs(mem, v.dest, absT, v.Delta());
    UpdateRelocs(mem, v.dest, relT, 0 - v.Delta());
    UpdateRelocs(mem, v.flatStart, initT, v.Delta());
    func := if v.initStart <= f < v.initEnd then f + v.Delta() else f;
  }
}
