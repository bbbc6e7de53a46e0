// Placing the sections of the ROM: alignpos, setSectionsStart, fitSections and doLayout of
// scripts/layoutrom.py.

module Layout {
  import opened Arith
  import opened Sequences
  import opened Wrappers

  const BUILD_BIOS_ADDR := 0xf0000
  const BUILD_BIOS_SIZE := 0x10000
  const BUILD_ROM_START := 0xc0000
  const BUILD_LOWRAM_END := 0xa0000
  const BUILD_MIN_BIOSTABLE := 2048

  datatype Category = Sec16 | Sec32Seg | TextFSeg | FSeg | Flat | Init | Low | Fixed

  /** The prefix of a section's name, as far as the layout looks at it. */
  datatype Prefix = Text | Rodata | Data | Bss | Other

  class Section {
    const name: string
    const size: nat
    const align: nat
    const category: Category
    const prefix: Prefix
    /** the address in the name of a .fixedaddr. section */
    const addr: nat
    var finalloc: Option<int>
    var finalsegloc: Option<int>

    constructor (name: string, size: nat, align: nat, category: Category, prefix: Prefix, addr: nat)
      ensures this.size == size && this.align == align && this.category == category && this.prefix == prefix
      ensures this.addr == addr && this.name == name && finalloc == None
    {
      this.name, this.size, this.align, this.category, this.prefix, this.addr := name, size, align, category, prefix, addr;
      finalloc, finalsegloc := None, None;
    }
  }

  predicate PowerAligned(ss: seq<Section>) { forall s :: s in ss ==> IsPow2(s.align) }

  // ---- setSectionsStart ----

  /** Where the n-th section begins and the first n end when they are packed from `base` up. */
  function Begin(ss: seq<Section>, base: int, n: nat): int
    requires n < |ss| && PowerAligned(ss)
    decreases n, 1
  {
    AlignUp(End(ss, base, n), ss[n].align)
  }

  function End(ss: seq<Section>, base: int, n: nat): int
    requires n <= |ss| && PowerAligned(ss)
    decreases n, 0
  {
    if n == 0 then base else Begin(ss, base, n - 1) + ss[n-1].size
  }

  /** The space the sections need from an aligned address up. */
  function Span(ss: seq<Section>): int
    requires PowerAligned(ss)
  {
    End(ss, 0, |ss|)
  }

  /** minalign of setSectionsStart in the end */
  function LargestAlign(ss: seq<Section>, least: nat): (m: nat)
    ensures least <= m
  {
    if ss == [] then least
    else
      var m := LargestAlign(ss[..|ss|-1], least);
      if m < ss[|ss|-1].align then ss[|ss|-1].align else m
  }

  /** Where setSectionsStart lets the sections start. */
  function StartOf(ss: seq<Section>, endaddr: int, least: nat): int
    requires PowerAligned(ss) && 0 < least
  {
    Truncated(endaddr - Span(ss), LargestAlign(ss, least)) * LargestAlign(ss, least)
  }

  /** When they end at or below `endaddr`: rounding towards zero is rounding up below zero. */
  predicate FitsBelow(ss: seq<Section>, endaddr: int, least: nat)
    requires PowerAligned(ss) && 0 < least
  {
    Span(ss) <= endaddr || (endaddr - Span(ss)) % LargestAlign(ss, least) == 0
  }

  /** The sections stand one behind the other from `start` on. */
  ghost predicate Packed(ss: seq<Section>, start: int)
    requires PowerAligned(ss)
    reads ss
  {
    forall j :: 0 <= j < |ss| ==> ss[j].finalloc == Some(Begin(ss, start, j))
  }

  lemma AlignUpIs(x: int, a: int)
    requires a > 0
    ensures AlignUp(x, a) % a == 0 && x <= AlignUp(x, a) < x + a
  {
    AlignDownIs(x + (a - 1), a);
  }

  lemma AlignUpShift(base: int, x: int, a: int)
    requires a > 0 && base % a == 0
    ensures AlignUp(base + x, a) == base + AlignUp(x, a)
  {
    var q, y := base / a, x + (a - 1);
    assert base == q * a && y == y / a * a + y % a;
    assert base + y == (q + y / a) * a + y % a;
    DivMod(base + y, q + y / a, a, y % a);
  }

  /** Packing from a common multiple of the alignments is packing from zero, shifted. */
  lemma {:induction false} EndShift(ss: seq<Section>, base: int, n: nat)
    requires n <= |ss| && PowerAligned(ss) && forall s :: s in ss ==> base % s.align == 0
    ensures End(ss, base, n) == base + End(ss, 0, n)
  {
    if n > 0 {
      EndShift(ss, base, n - 1);
      assert ss[n-1] in ss;
      AlignUpShift(base, End(ss, 0, n - 1), ss[n-1].align);
    }
  }

  /** Python's int(x / m) */
  function Truncated(x: int, m: int): int
    requires m > 0
  {
    if x >= 0 then x / m else 0 - (0 - x) / m
  }

  lemma TruncatedIs(x: int, m: int)
    requires m > 0
    ensures (Truncated(x, m) * m) % m == 0 && x - m < Truncated(x, m) * m < x + m
    ensures Truncated(x, m) * m <= x <==> x >= 0 || x % m == 0
    ensures x > 0 || Truncated(x, m) * m <= 0
  {
    DivMod(Truncated(x, m) * m, Truncated(x, m), m, 0);
    if x >= 0 {
      assert x == x / m * m + x % m;
    } else {
      var y := 0 - x;
      assert y == y / m * m + y % m;
      assert Truncated(x, m) * m == 0 - (y / m * m);
      if y % m == 0 {
        DivMod(x, 0 - y / m, m, 0);
      } else {
        DivMod(x, 0 - y / m - 1, m, m - y % m);
      }
      MulSign(y / m, m);
    }
  }

  ghost predicate InBand(ss: seq<Section>, lo: int, hi: int)
    reads ss
  {
    forall s :: s in ss ==> s.finalloc.Some? && lo <= s.finalloc.value && s.finalloc.value + s.size <= hi
  }

  /** In list order from low to high addresses, without overlap. */
  ghost predicate InOrder(ss: seq<Section>)
    reads ss
  {
    && (forall s :: s in ss ==> s.finalloc.Some?)
    && (forall i, j :: 0 <= i < j < |ss| ==> ss[i].finalloc.value + ss[i].size <= ss[j].finalloc.value)
  }

  ghost predicate Aligned(ss: seq<Section>)
    reads ss
  {
    forall s :: s in ss ==> s.finalloc.Some? && 0 < s.align && s.finalloc.value % s.align == 0
  }

  ghost predicate SegmentIs(ss: seq<Section>, segoffset: int)
    reads ss
  {
    forall s :: s in ss ==> SegmentAt(s, segoffset)
  }

  ghost predicate SegmentAt(s: Section, segoffset: int)
    reads s
  {
    s.finalloc.Some? && s.finalsegloc == Some(s.finalloc.value - segoffset)
  }

  method SetSectionsStart(ss: seq<Section>, endaddr: int, least: nat, segoffset: int) returns (startaddr: int, minalign: nat)
    requires NoRepeats(ss) && PowerAligned(ss) && IsPow2(least)
    modifies ss
    ensures IsPow2(minalign) && least <= minalign && forall s :: s in ss ==> s.align <= minalign
    ensures minalign == least || exists s :: s in ss && s.align == minalign
    ensures startaddr % minalign == 0
    ensures startaddr == StartOf(ss, endaddr, least) && minalign == LargestAlign(ss, least) && Packed(ss, startaddr)
    ensures InBand(ss, startaddr, startaddr + Span(ss)) && InOrder(ss) && Aligned(ss) && SegmentIs(ss, segoffset)
    ensures endaddr - minalign < startaddr + Span(ss) < endaddr + minalign
    ensures startaddr + Span(ss) <= endaddr <==> FitsBelow(ss, endaddr, least)
    ensures 0 < startaddr ==> Span(ss) <= endaddr && 0 < endaddr
  {
    hide PowerAligned, AlignUp, InBand, InOrder, Aligned, SegmentIs, Truncated, IsPow2, Packed, LargestAlign;
    var totspace;
    totspace, minalign := Measure(ss, least);
    startaddr := Truncated(endaddr - totspace, minalign) * minalign;
    TruncatedIs(endaddr - totspace, minalign);
    SpanIsNatural(ss, |ss|);
    StartAligned(ss, startaddr, minalign);
    Assign(ss, startaddr, segoffset);
    EndShift(ss, startaddr, |ss|);
  }

  /** The first loop of setSectionsStart. */
  method Measure(ss: seq<Section>, least: nat) returns (totspace: int, minalign: nat)
    requires PowerAligned(ss) && IsPow2(least)
    ensures totspace == Span(ss) && 0 < minalign == LargestAlign(ss, least)
    ensures IsPow2(minalign) && least <= minalign && forall s :: s in ss ==> s.align <= minalign
    ensures minalign == least || exists s :: s in ss && s.align == minalign
  {
    totspace, minalign := 0, least;
    for i := 0 to |ss|
      invariant IsPow2(minalign) && least <= minalign && forall j :: 0 <= j < i ==> ss[j].align <= minalign
      invariant minalign == least || exists s :: s in ss && s.align == minalign
      invariant totspace == End(ss, 0, i) && minalign == LargestAlign(ss[..i], least)
    {
      assert ss[..i+1][..i] == ss[..i];
      minalign := if minalign < ss[i].align then ss[i].align else minalign;
      totspace := AlignUp(totspace, ss[i].align) + ss[i].size;
    }
    assert ss[..|ss|] == ss;
  }

  lemma StartAligned(ss: seq<Section>, startaddr: int, minalign: nat)
    requires PowerAligned(ss) && IsPow2(minalign) && 0 < minalign && startaddr % minalign == 0
    requires forall s :: s in ss ==> s.align <= minalign
    ensures forall s :: s in ss ==> 0 < s.align && startaddr % s.align == 0
  {
    forall s | s in ss ensures startaddr % s.align == 0 {
      SmallerDivides(minalign, s.align);
      DividesThrough(startaddr, minalign, s.align);
    }
  }

  /** The second loop of setSectionsStart. */
  method Assign(ss: seq<Section>, startaddr: int, segoffset: int)
    requires NoRepeats(ss) && PowerAligned(ss)
    modifies ss
    ensures InBand(ss, startaddr, End(ss, startaddr, |ss|)) && InOrder(ss) && Aligned(ss) && SegmentIs(ss, segoffset)
    ensures Packed(ss, startaddr)
  {
    hide InBand, InOrder, Aligned, AlignUp, IsPow2, PowerAligned, SegmentIs, Begin, End;
    var curaddr := startaddr;
    EndEmpty(ss, startaddr);
    for i := 0 to |ss|
      invariant curaddr == End(ss, startaddr, i)
      invariant forall j :: 0 <= j < i ==> ss[j].finalloc == Some(Begin(ss, startaddr, j))
      invariant forall j :: 0 <= j < i ==> SegmentAt(ss[j], segoffset)
    {
      var s := ss[i];
      EndNext(ss, startaddr, i);
      curaddr := AlignUp(curaddr, s.align);
      s.finalloc := Some(curaddr);
      s.finalsegloc := Some(curaddr - segoffset);
      curaddr := curaddr + s.size;
    }
    PackedMeans(ss, startaddr);
    SegmentsAre(ss, segoffset);
  }

  lemma EndEmpty(ss: seq<Section>, base: int)
    requires PowerAligned(ss)
    ensures End(ss, base, 0) == base
  {}

  lemma EndNext(ss: seq<Section>, base: int, i: nat)
    requires PowerAligned(ss) && i < |ss|
    ensures 0 < ss[i].align && Begin(ss, base, i) == AlignUp(End(ss, base, i), ss[i].align)
    ensures End(ss, base, i + 1) == Begin(ss, base, i) + ss[i].size
  {}

  lemma SegmentsAre(ss: seq<Section>, segoffset: int)
    requires forall j :: 0 <= j < |ss| ==> SegmentAt(ss[j], segoffset)
    ensures SegmentIs(ss, segoffset)
  {}

  lemma {:induction false} SpanIsNatural(ss: seq<Section>, n: nat)
    requires PowerAligned(ss) && n <= |ss|
    ensures 0 <= End(ss, 0, n)
  {
    if n > 0 {
      SpanIsNatural(ss, n - 1);
      AlignUpIs(End(ss, 0, n - 1), ss[n-1].align);
    }
  }

  lemma {:induction false} EndGrows(ss: seq<Section>, base: int, i: nat, n: nat)
    requires PowerAligned(ss) && i <= n <= |ss|
    ensures End(ss, base, i) <= End(ss, base, n)
  {
    if i < n {
      EndGrows(ss, base, i, n - 1);
      AlignUpIs(End(ss, base, n - 1), ss[n-1].align);
    }
  }

  /** The place of one section among the packed ones. */
  lemma {:induction false} PackedAt(ss: seq<Section>, base: int, i: nat)
    requires PowerAligned(ss) && i < |ss|
    ensures 0 < ss[i].align && Begin(ss, base, i) % ss[i].align == 0
    ensures base <= Begin(ss, base, i) && Begin(ss, base, i) + ss[i].size <= End(ss, base, |ss|)
    ensures forall j :: i < j < |ss| ==> Begin(ss, base, i) + ss[i].size <= Begin(ss, base, j)
  {
    hide AlignUp;
    EndGrows(ss, base, 0, i);
    EndGrows(ss, base, i + 1, |ss|);
    AlignUpIs(End(ss, base, i), ss[i].align);
    forall j | i < j < |ss| ensures Begin(ss, base, i) + ss[i].size <= Begin(ss, base, j) {
      EndGrows(ss, base, i + 1, j);
      AlignUpIs(End(ss, base, j), ss[j].align);
    }
  }

  lemma {:induction false} PackedMeans(ss: seq<Section>, base: int)
    requires PowerAligned(ss) && Packed(ss, base)
    ensures InBand(ss, base, End(ss, base, |ss|)) && InOrder(ss) && Aligned(ss)
  {
    hide Begin, End, PowerAligned;
    forall i | 0 <= i < |ss|
      ensures 0 < ss[i].align && base <= ss[i].finalloc.value && ss[i].finalloc.value + ss[i].size <= End(ss, base, |ss|)
      ensures ss[i].finalloc.value % ss[i].align == 0
      ensures forall j :: i < j < |ss| ==> ss[i].finalloc.value + ss[i].size <= ss[j].finalloc.value
    {
      PackedAt(ss, base, i);
    }
  }

  // ---- fitSections ----

  function Inserted<T>(ys: seq<T>, p: nat, x: T): seq<T>
    requires p <= |ys|
  {
    ys[..p] + [x] + ys[p..]
  }

  lemma InsertedMeans<T>(xs: seq<T>, n: nat, ys: seq<T>, p: nat)
    requires n < |xs| && p <= |ys| && multiset(ys) == multiset(xs[..n])
    ensures multiset(Inserted(ys, p, xs[n])) == multiset(xs[..n+1])
  {
    assert ys == ys[..p] + ys[p..];
    assert xs[..n+1] == xs[..n] + [xs[n]];
  }

  predicate Ascending(ys: seq<(int, Section)>) { forall i, j :: 0 <= i < j < |ys| ==> ys[i].0 <= ys[j].0 }

  lemma InsertedAscending(ys: seq<(int, Section)>, p: nat, x: (int, Section))
    requires Ascending(ys) && p <= |ys| && (p == 0 || ys[p-1].0 <= x.0) && (p == |ys| || x.0 <= ys[p].0)
    ensures Ascending(Inserted(ys, p, x))
  {
    var r := Inserted(ys, p, x);
    assert forall i :: 0 <= i < |r| ==> r[i] == if i < p then ys[i] else if i == p then x else ys[i-1];
  }

  /** list.sort(key=operator.itemgetter(0)), which is stable */
  method SortPairs(xs: seq<(int, Section)>) returns (ys: seq<(int, Section)>)
    ensures multiset(ys) == multiset(xs) && Ascending(ys) && Stable(xs, |xs|, ys)
  {
    hide Inserted, Ascending, Stable;
    ys := [];
    assert Ascending(ys) && Stable(xs, 0, ys) by { AscendingEmpty(xs); }
    for n := 0 to |xs|
      invariant multiset(ys) == multiset(xs[..n]) && Ascending(ys) && Stable(xs, n, ys)
    {
      var p := |ys|;
      while p > 0 && xs[n].0 < ys[p-1].0
        invariant 0 <= p <= |ys| && (p == |ys| || xs[n].0 < ys[p].0)
      {
        p := p - 1;
      }
      InsertedMeans(xs, n, ys, p);
      InsertedAscending(ys, p, xs[n]);
      InsertedStable(xs, n, ys, p);
      ys := Inserted(ys, p, xs[n]);
    }
    assert xs[..|xs|] == xs;
  }

  lemma AscendingEmpty(xs: seq<(int, Section)>)
    ensures Ascending([]) && Stable(xs, 0, [])
  {}

  /** Pairs with one key are in the order of the first n pairs of `xs`. */
  ghost predicate Stable(xs: seq<(int, Section)>, n: nat, ys: seq<(int, Section)>)
    requires n <= |xs|
  {
    forall i, j :: 0 <= i < j < |ys| && ys[i].0 == ys[j].0 ==> InThatOrder(xs, n, ys[i], ys[j])
  }

  ghost predicate InThatOrder(xs: seq<(int, Section)>, n: nat, x: (int, Section), y: (int, Section))
    requires n <= |xs|
  {
    exists a, b :: 0 <= a < b < n && xs[a] == x && xs[b] == y
  }

  lemma {:induction false} InsertedStable(xs: seq<(int, Section)>, n: nat, ys: seq<(int, Section)>, p: nat)
    requires n < |xs| && p <= |ys| && multiset(ys) == multiset(xs[..n]) && Ascending(ys) && Stable(xs, n, ys)
    requires p == |ys| || xs[n].0 < ys[p].0
    ensures Stable(xs, n + 1, Inserted(ys, p, xs[n]))
  {
    var r := Inserted(ys, p, xs[n]);
    SameElements(ys, xs[..n]);
    forall i, j | 0 <= i < j < |r| && r[i].0 == r[j].0 ensures InThatOrder(xs, n + 1, r[i], r[j]) {
      if j == p {
        assert r[i] == ys[i] && ys[i] in ys && ys[i] in xs[..n];
        var a :| 0 <= a < n && xs[..n][a] == r[i];
        assert xs[a] == r[i] && xs[n] == r[j];
      } else if i != p {
        var k, l := if i < p then i else i - 1, if j < p then j else j - 1;
        assert r[i] == ys[k] && r[j] == ys[l] && InThatOrder(xs, n, ys[k], ys[l]);
      }
    }
  }

  predicate NameLe(a: string, b: string) {
    a == [] || (b != [] && (a[0] < b[0] || (a[0] == b[0] && NameLe(a[1..], b[1..]))))
  }

  /** The order of the tuples (size, align, name). */
  predicate Before(a: Section, b: Section) {
    a.size < b.size || (a.size == b.size && (a.align < b.align || (a.align == b.align && NameLe(a.name, b.name))))
  }

  predicate Growing(ss: seq<Section>) { forall i, j :: 0 <= i < j < |ss| ==> ss[i].size <= ss[j].size }

  lemma InsertedGrowing(ys: seq<Section>, p: nat, x: Section)
    requires Growing(ys) && p <= |ys| && (p == 0 || ys[p-1].size <= x.size) && (p == |ys| || x.size <= ys[p].size)
    ensures Growing(Inserted(ys, p, x))
  {
    var r := Inserted(ys, p, x);
    assert forall i :: 0 <= i < |r| ==> r[i] == if i < p then ys[i] else if i == p then x else ys[i-1];
  }

  method SortBySize(xs: seq<Section>) returns (ys: seq<Section>)
    ensures multiset(ys) == multiset(xs) && Growing(ys)
  {
    ys := [];
    for n := 0 to |xs|
      invariant multiset(ys) == multiset(xs[..n]) && Growing(ys)
    {
      var p := |ys|;
      while p > 0 && !Before(ys[p-1], xs[n])
        invariant 0 <= p <= |ys| && (p == |ys| || xs[n].size <= ys[p].size)
      {
        p := p - 1;
      }
      hide Inserted, Growing, Before;
      InsertedMeans(xs, n, ys, p);
      assert p == 0 || ys[p-1].size <= xs[n].size;
      InsertedGrowing(ys, p, xs[n]);
      ys := Inserted(ys, p, xs[n]);
    }
    assert xs[..|xs|] == xs;
  }

  /** Putting `s` behind `pos` would not cross `limit`. */
  predicate CanFit(s: Section, pos: int, limit: int) {
    0 < s.align && AlignUp(pos, s.align) + s.size <= limit
  }

  lemma CanFitMeans(s: Section, pos: int, limit: int)
    requires CanFit(s, pos, limit)
    ensures 0 < s.align && pos + s.size <= AlignUp(pos, s.align) + s.size <= limit
  {
    AlignUpIs(pos, s.align);
  }

  /** The largest section that fits: the search stops at the first that is too large, for
      nothing behind it can fit either. */
  method PickFit(can: seq<Section>, pos: int, limit: int) returns (fit: int)
    requires Growing(can) && PowerAligned(can)
    ensures -1 <= fit < |can|
    ensures 0 <= fit ==> CanFit(can[fit], pos, limit)
    ensures forall j :: fit < j < |can| ==> !CanFit(can[j], pos, limit)
  {
    hide AlignUp, IsPow2, PowerAligned, CanFit;
    fit := -1;
    for i := 0 to |can|
      invariant -1 <= fit < i
      invariant 0 <= fit ==> CanFit(can[fit], pos, limit)
      invariant forall j :: fit < j < i ==> !CanFit(can[j], pos, limit)
    {
      if pos + can[i].size > limit {
        forall j | i <= j < |can| ensures !CanFit(can[j], pos, limit) {
          if CanFit(can[j], pos, limit) { CanFitMeans(can[j], pos, limit); }
        }
        return;
      }
      if CanFit(can[i], pos, limit) {
        fit := i;
      }
    }
  }

  ghost predicate Inside(s: Section, lo: int, hi: int)
    reads s
  {
    SegmentAt(s, BUILD_BIOS_ADDR) && lo <= s.finalsegloc.value && s.finalsegloc.value + s.size <= hi
  }

  ghost predicate Apart(s: Section, t: Section)
    reads s, t
  {
    s.finalloc.Some? && t.finalloc.Some? ==>
      s.finalloc.value + s.size <= t.finalloc.value || t.finalloc.value + t.size <= s.finalloc.value
  }

  function Removed(ss: seq<Section>, k: nat): (r: seq<Section>)
    requires k < |ss|
    ensures |r| == |ss| - 1 && forall s :: s in r ==> s in ss
  {
    ss[..k] + ss[k+1..]
  }

  lemma RemovedMeans(ss: seq<Section>, k: nat)
    requires k < |ss| && NoRepeats(ss) && Growing(ss) && PowerAligned(ss)
    ensures |Removed(ss, k)| == |ss| - 1 && NoRepeats(Removed(ss, k)) && Growing(Removed(ss, k)) && PowerAligned(Removed(ss, k))
    ensures forall s :: s in Removed(ss, k) <==> s in ss && s != ss[k]
    ensures ss[k] in ss
  {
    var r := Removed(ss, k);
    forall s | s in ss && s != ss[k] ensures s in r {
      var i :| 0 <= i < |ss| && ss[i] == s;
      assert r[if i < k then i else i - 1] == s;
    }
  }

  /** The inner loop of fitSections: fills [pos, limit) with the largest section that fits,
      as long as one does. */
  method FillGap(sections: seq<Section>, pos: int, limit: int) returns (can: seq<Section>, addpos: int)
    requires NoRepeats(sections) && Growing(sections) && PowerAligned(sections) && pos <= limit
    requires forall s :: s in sections ==> s.finalloc == None
    modifies sections
    ensures NoRepeats(can) && Growing(can) && PowerAligned(can) && pos <= addpos <= limit
    ensures forall s :: s in can ==> s in sections && s.finalloc == None && !CanFit(s, addpos, limit)
    ensures forall s :: s in sections && s !in can ==> Inside(s, pos, addpos)
    ensures forall s, t :: s in sections && t in sections && s != t ==> Apart(s, t)
  {
    hide AlignUp, IsPow2, NoRepeats, Growing, Removed, PowerAligned, CanFit;
    can, addpos := sections, pos;
    var fit := PickFit(can, addpos, limit);
    while 0 <= fit
      invariant NoRepeats(can) && Growing(can) && PowerAligned(can) && pos <= addpos <= limit
      invariant -1 <= fit < |can| && (0 <= fit ==> CanFit(can[fit], addpos, limit))
      invariant forall j :: fit < j < |can| ==> !CanFit(can[j], addpos, limit)
      invariant forall s :: s in can ==> s in sections && s.finalloc == None
      invariant forall s :: s in sections && s !in can ==> Inside(s, pos, addpos)
      invariant forall s, t :: s in sections && t in sections && s != t ==> Apart(s, t)
      decreases |can|
    {
      var s := can[fit];
      RemovedMeans(can, fit);
      CanFitMeans(s, addpos, limit);
      ghost var before := can;
      can := Removed(can, fit);
      assert forall x :: x in can ==> x in before && x != s;
      s.finalloc := Some(addpos + BUILD_BIOS_ADDR);
      s.finalsegloc := Some(addpos);
      addpos := AlignUp(addpos, s.align) + s.size;
      fit := PickFit(can, addpos, limit);
    }
  }

  /** The fixed sections as the source needs them: there is one, and they lie in the segment
      without overlap. */
  predicate FixedFit(fixed: seq<Section>) {
    && fixed != [] && NoRepeats(fixed)
    && (forall s :: s in fixed ==> s.addr < BUILD_BIOS_SIZE && s.addr + s.size <= BUILD_BIOS_SIZE)
    && (forall i, j :: 0 <= i < j < |fixed| ==> SideBySide(fixed[i], fixed[j]))
  }

  /** Of two sections at one address the earlier one is empty: behind an empty one that comes
      later, fitSections would fill the space of the other. */
  predicate SideBySide(s: Section, t: Section) {
    (s.addr + s.size <= t.addr || t.addr + t.size <= s.addr) && (s.addr == t.addr ==> s.size == 0)
  }

  lemma FixedApart(fixed: seq<Section>)
    requires FixedFit(fixed)
    ensures forall s, t :: s in fixed && t in fixed && s != t ==> s.addr + s.size <= t.addr || t.addr + t.size <= s.addr
  {
    forall s, t | s in fixed && t in fixed && s != t ensures s.addr + s.size <= t.addr || t.addr + t.size <= s.addr {
      var i :| 0 <= i < |fixed| && fixed[i] == s;
      var j :| 0 <= j < |fixed| && fixed[j] == t;
      assert if i < j then SideBySide(fixed[i], fixed[j]) else SideBySide(fixed[j], fixed[i]);
    }
  }

  /** With a non-empty section first, the space behind the empty one at its address begins inside it. */
  lemma SharedAddress(t: Section, s: Section, f: Section)
    requires t.addr == s.addr && 0 < t.size && s.size == 0 && t.addr + t.size <= BUILD_BIOS_SIZE
    requires AtAddresses([t, s]) && InGap(f, GapAt([t, s], 1)) && f.finalsegloc == Some(s.addr + s.size) && 0 < f.size
    ensures Ascending(ByAddress([t, s])) && Stable(ByAddress([t, s]), 2, ByAddress([t, s]))
    ensures !Apart(t, f) && !SideBySide(t, s)
  {
    assert [t, s][0] in [t, s];
    var ps := ByAddress([t, s]);
    assert InThatOrder(ps, 2, ps[0], ps[1]);
  }

  function ByAddress(ss: seq<Section>): seq<(int, Section)> { seq(|ss|, i requires 0 <= i < |ss| => (ss[i].addr, ss[i])) }

  /** From a fixed section to the end of the free space behind it. */
  predicate SpansApart(x: (int, Section), y: (int, Section)) {
    x.1.addr + x.1.size + x.0 <= y.1.addr || y.1.addr + y.1.size + y.0 <= x.1.addr
  }

  /** fixedAddr: free space and section, for each fixed section. */
  predicate GapsOf(gaps: seq<(int, Section)>, fixed: seq<Section>, first: int) {
    && (forall g :: g in gaps ==> 0 <= g.0 && g.1 in fixed && first <= g.1.addr && g.1.addr + g.1.size + g.0 <= BUILD_BIOS_SIZE)
    && (forall g, h :: g in gaps && h in gaps && g != h ==> g.1 != h.1 && SpansApart(g, h))
    && (forall s :: s in fixed ==> exists g :: g in gaps && g.1 == s)
  }

  /** The fixed sections from low to high addresses. */
  predicate Stacked(fixed: seq<Section>, ss: seq<Section>) {
    && ss != [] && (forall s :: s in ss ==> s in fixed) && (forall s :: s in fixed ==> s in ss)
    && (forall s :: s in ss ==> s.addr + s.size <= BUILD_BIOS_SIZE)
    && (forall i, j :: 0 <= i < j < |ss| ==> ss[i] != ss[j] && ss[i].addr + ss[i].size <= ss[j].addr)
  }

  lemma ByAddressMeans(fixed: seq<Section>, fs: seq<(int, Section)>, ss: seq<Section>)
    requires FixedFit(fixed) && multiset(fs) == multiset(ByAddress(fixed)) && Ascending(fs) && Stable(ByAddress(fixed), |fixed|, fs)
    requires |ss| == |fs| && forall i :: 0 <= i < |fs| ==> ss[i] == fs[i].1
    ensures Stacked(fixed, ss) && forall i :: 0 <= i < |fs| ==> fs[i].0 == ss[i].addr
  {
    var ps := ByAddress(fixed);
    FixedApart(fixed);
    SameElements(fs, ps);
    assert forall i :: 0 <= i < |ps| ==> ps[i] == (fixed[i].addr as int, fixed[i]);
    PermutationNoRepeats(ps, fs);
    forall i | 0 <= i < |fs| ensures ss[i] in fixed && fs[i].0 == ss[i].addr { assert fs[i] in ps; }
    forall i, j | 0 <= i < j < |fs| ensures ss[i] != ss[j] && ss[i].addr + ss[i].size <= ss[j].addr {
      assert fs[i].0 <= fs[j].0 && fs[i] != fs[j];
      if fs[i].0 == fs[j].0 {
        var a, b :| 0 <= a < b < |fixed| && ps[a] == fs[i] && ps[b] == fs[j];
        assert SideBySide(fixed[a], fixed[b]);
      }
    }
    forall s | s in fixed ensures s in ss {
      var i :| 0 <= i < |fixed| && fixed[i] == s;
      assert ps[i] in fs;
      var j :| 0 <= j < |fs| && fs[j] == ps[i];
      assert ss[j] == s;
    }
  }

  /** The free space behind the k-th fixed section. */
  function GapAt(ss: seq<Section>, k: nat): (int, Section)
    requires k < |ss|
  {
    ((if k == |ss| - 1 then BUILD_BIOS_SIZE else ss[k+1].addr) - ss[k].addr - ss[k].size, ss[k])
  }

  method FindGaps(fixed: seq<Section>) returns (firstfixed: int, gaps: seq<(int, Section)>)
    requires FixedFit(fixed)
    ensures GapsOf(gaps, fixed, firstfixed) && IsLowest(fixed, firstfixed) && NoRepeats(gaps)
  {
    hide GapsOf, Ascending, NoRepeats, FixedFit, Stacked, Stable;
    var fs := SortPairs(ByAddress(fixed));
    ghost var ss := seq(|fs|, i requires 0 <= i < |fs| => fs[i].1);
    ByAddressMeans(fixed, fs, ss);
    StackedFirst(fixed, ss);
    firstfixed := fs[0].0;
    var unsorted := FreeSpaces(fs, ss);
    GapsFound(fixed, ss, unsorted);
    gaps := SortPairs(unsorted);
    SameElements(gaps, unsorted);
    PermutationNoRepeats(unsorted, gaps);
    GapsSame(unsorted, gaps, fixed, firstfixed);
  }

  lemma StackedFirst(fixed: seq<Section>, ss: seq<Section>)
    requires FixedFit(fixed) && Stacked(fixed, ss)
    ensures ss != [] && IsLowest(fixed, ss[0].addr)
  {
    assert ss[0] in ss;
  }

  /** The lowest address of a fixed section. */
  ghost predicate IsLowest(fixed: seq<Section>, first: int) {
    && 0 <= first < BUILD_BIOS_SIZE
    && (exists s :: s in fixed && s.addr == first) && forall s :: s in fixed ==> first <= s.addr
  }

  method FreeSpaces(fs: seq<(int, Section)>, ghost ss: seq<Section>) returns (gaps: seq<(int, Section)>)
    requires |ss| == |fs| && forall i :: 0 <= i < |fs| ==> ss[i] == fs[i].1 && fs[i].0 == ss[i].addr
    ensures |gaps| == |ss| && forall k :: 0 <= k < |ss| ==> gaps[k] == GapAt(ss, k)
  {
    gaps := [];
    for i := 0 to |fs|
      invariant |gaps| == i && forall k :: 0 <= k < i ==> gaps[k] == GapAt(ss, k)
    {
      var nextaddr := if i == |fs| - 1 then BUILD_BIOS_SIZE else fs[i+1].0;
      gaps := gaps + [(nextaddr - fs[i].0 - fs[i].1.size, fs[i].1)];
    }
  }

  lemma GapsSame(a: seq<(int, Section)>, b: seq<(int, Section)>, fixed: seq<Section>, first: int)
    requires GapsOf(a, fixed, first) && forall x :: x in a <==> x in b
    ensures GapsOf(b, fixed, first)
  {}

  lemma GapBounds(fixed: seq<Section>, ss: seq<Section>, k: nat)
    requires Stacked(fixed, ss) && k < |ss|
    ensures var g := GapAt(ss, k);
            0 <= g.0 && g.1 in fixed && ss[0].addr <= g.1.addr && g.1.addr + g.1.size + g.0 <= BUILD_BIOS_SIZE
    ensures forall j :: k < j < |ss| ==> GapAt(ss, k).1 != GapAt(ss, j).1 && SpansApart(GapAt(ss, k), GapAt(ss, j))
  {
    assert ss[k] in ss;
    if k + 1 < |ss| { assert ss[k+1] in ss; }
    forall j | k < j < |ss| ensures GapAt(ss, k).1 != GapAt(ss, j).1 && SpansApart(GapAt(ss, k), GapAt(ss, j)) {}
  }

  lemma {:induction false} GapsFound(fixed: seq<Section>, ss: seq<Section>, gaps: seq<(int, Section)>)
    requires Stacked(fixed, ss) && |gaps| == |ss| && forall k :: 0 <= k < |ss| ==> gaps[k] == GapAt(ss, k)
    ensures GapsOf(gaps, fixed, ss[0].addr) && NoRepeats(gaps)
  {
    hide GapAt, SpansApart, Stacked;
    StackedMeans(fixed, ss);
    forall g | g in gaps
      ensures 0 <= g.0 && g.1 in fixed && ss[0].addr <= g.1.addr && g.1.addr + g.1.size + g.0 <= BUILD_BIOS_SIZE
    {
      var i :| 0 <= i < |gaps| && gaps[i] == g;
      GapBounds(fixed, ss, i);
    }
    forall g, h | g in gaps && h in gaps && g != h ensures g.1 != h.1 && SpansApart(g, h) {
      var i :| 0 <= i < |gaps| && gaps[i] == g;
      var j :| 0 <= j < |gaps| && gaps[j] == h;
      GapBounds(fixed, ss, if i < j then i else j);
      SpansApartSwaps(g, h);
    }
    forall s | s in fixed ensures exists g :: g in gaps && g.1 == s {
      var i :| 0 <= i < |ss| && ss[i] == s;
      GapIsOf(ss, i);
      assert gaps[i] in gaps;
    }
    forall i, j | 0 <= i < j < |gaps| ensures gaps[i] != gaps[j] { GapBounds(fixed, ss, i); }
  }

  lemma StackedMeans(fixed: seq<Section>, ss: seq<Section>)
    requires Stacked(fixed, ss)
    ensures ss != [] && forall s :: s in fixed ==> s in ss
  {}

  lemma SpansApartSwaps(g: (int, Section), h: (int, Section))
    ensures SpansApart(g, h) <==> SpansApart(h, g)
  {}

  lemma GapIsOf(ss: seq<Section>, k: nat)
    requires k < |ss|
    ensures GapAt(ss, k).1 == ss[k]
  {}

  ghost predicate InGap(f: Section, g: (int, Section))
    reads f
  {
    Inside(f, g.1.addr + g.1.size, g.1.addr + g.1.size + g.0)
  }

  ghost predicate InSomeGap(f: Section, gaps: seq<(int, Section)>)
    reads f
  {
    exists k :: 0 <= k < |gaps| && InGap(f, gaps[k])
  }

  lemma GapsApart(f: Section, fillers: seq<Section>, gaps: seq<(int, Section)>, k: nat, fixed: seq<Section>, first: int)
    requires GapsOf(gaps, fixed, first) && NoRepeats(gaps) && k < |gaps| && InGap(f, gaps[k])
    ensures forall g :: g in fillers && InSomeGap(g, gaps[..k]) ==> Apart(f, g) && Apart(g, f)
  {
    forall g | g in fillers && InSomeGap(g, gaps[..k]) ensures Apart(f, g) && Apart(g, f) {
      var j :| 0 <= j < k && InGap(g, gaps[..k][j]);
      assert gaps[j] in gaps && gaps[k] in gaps && gaps[j] != gaps[k];
      assert SpansApart(gaps[j], gaps[k]);
    }
  }

  ghost predicate AllApart(ss: seq<Section>)
    reads ss
  {
    forall s, t :: s in ss && t in ss && s != t ==> Apart(s, t)
  }

  ghost predicate AtAddresses(fixed: seq<Section>)
    reads fixed
  {
    forall s :: s in fixed ==> SegmentAt(s, BUILD_BIOS_ADDR) && s.finalsegloc == Some(s.addr)
  }

  lemma FixedAndFillers(fixed: seq<Section>, fillers: seq<Section>, gaps: seq<(int, Section)>, first: int)
    requires FixedFit(fixed) && GapsOf(gaps, fixed, first) && AtAddresses(fixed) && AllApart(fillers)
    requires forall f :: f in fillers && f.finalloc.Some? ==> InSomeGap(f, gaps)
    ensures AllApart(fixed + fillers)
    ensures forall s :: s in fixed + fillers && s.finalloc.Some? ==> Inside(s, first, BUILD_BIOS_SIZE)
  {
    FixedApart(fixed);
    forall s, f | s in fixed && f in fillers && f.finalloc.Some? ensures Apart(s, f) && Apart(f, s) {
      var k :| 0 <= k < |gaps| && InGap(f, gaps[k]);
      var g :| g in gaps && g.1 == s;
      assert gaps[k] in gaps;
      if g != gaps[k] { assert SpansApart(g, gaps[k]); }
    }
    forall s | s in fixed ensures Inside(s, first, BUILD_BIOS_SIZE) {
      var g :| g in gaps && g.1 == s;
    }
    forall f | f in fillers && f.finalloc.Some? ensures Inside(f, first, BUILD_BIOS_SIZE) {
      var k :| 0 <= k < |gaps| && InGap(f, gaps[k]);
      assert gaps[k] in gaps;
    }
  }

  /** fitSections: None is the exit on a fixed section that asks for alignment. The recorded
      position of a filler is the start of its aligned span, so it need not be aligned. */
  method FitSections(sections: seq<Section>, fillsections: seq<Section>) returns (r: Option<int>)
    requires FixedFit(sections) && NoRepeats(fillsections) && PowerAligned(fillsections)
    requires forall s :: s in fillsections ==> s !in sections && s.finalloc == None
    modifies sections, fillsections
    ensures r.None? <==> exists s :: s in sections && s.align != 1
    ensures r.Some? ==> AtAddresses(sections) && AllApart(sections + fillsections)
    ensures r.Some? ==> IsLowest(sections, r.value - BUILD_BIOS_ADDR)
                        && forall s :: s in sections + fillsections && s.finalloc.Some? ==>
                             Inside(s, r.value - BUILD_BIOS_ADDR, BUILD_BIOS_SIZE)
  {
    hide IsPow2, PowerAligned, GapsOf, NoRepeats, Growing, FixedFit, AllApart;
    var ok := SetFixed(sections);
    if !ok {
      return None;
    }
    var firstfixed, gaps := FindGaps(sections);
    var can := SortBySize(fillsections);
    SortedFillers(fillsections, can);
    Fill(sections, fillsections, can, gaps, firstfixed);
    FixedAndFillers(sections, fillsections, gaps, firstfixed);
    return Some(firstfixed + BUILD_BIOS_ADDR);
  }

  method SetFixed(fixed: seq<Section>) returns (ok: bool)
    requires FixedFit(fixed)
    modifies fixed
    ensures ok <==> forall s :: s in fixed ==> s.align == 1
    ensures ok ==> AtAddresses(fixed)
  {
    for i := 0 to |fixed|
      invariant forall j :: 0 <= j < i ==> fixed[j].align == 1
      invariant forall j :: 0 <= j < i ==> SegmentAt(fixed[j], BUILD_BIOS_ADDR) && fixed[j].finalsegloc == Some(fixed[j].addr)
    {
      fixed[i].finalloc := Some(fixed[i].addr + BUILD_BIOS_ADDR);
      fixed[i].finalsegloc := Some(fixed[i].addr);
      if fixed[i].align != 1 {
        return false;
      }
    }
    return true;
  }

  lemma SortedFillers(fillers: seq<Section>, can: seq<Section>)
    requires multiset(can) == multiset(fillers) && NoRepeats(fillers) && PowerAligned(fillers)
    ensures NoRepeats(can) && PowerAligned(can) && forall s :: s in can <==> s in fillers
  {
    SameElements(can, fillers);
    PermutationNoRepeats(fillers, can);
  }

  /** After one more gap: fillers in different gaps are apart. */
  lemma {:induction false} GapFilled(fillers: seq<Section>, before: seq<Section>, can: seq<Section>, gaps: seq<(int, Section)>,
                                     k: nat, fixed: seq<Section>, first: int)
    requires GapsOf(gaps, fixed, first) && NoRepeats(gaps) && k < |gaps|
    requires forall f :: f in before ==> f in fillers
    requires forall f :: f in can ==> f in before && f.finalloc == None
    requires forall f :: f in before && f !in can ==> InGap(f, gaps[k])
    requires forall f :: f in fillers && f !in before ==> InSomeGap(f, gaps[..k])
    requires forall s, t :: s in before && t in before && s != t ==> Apart(s, t)
    requires forall s, t :: s in fillers && t in fillers && s !in before && t !in before && s != t ==> Apart(s, t)
    ensures forall f :: f in fillers && f !in can ==> InSomeGap(f, gaps[..k+1])
    ensures AllApart(fillers)
  {
    hide GapsOf, NoRepeats, InGap;
    forall f | f in fillers && f !in can ensures InSomeGap(f, gaps[..k+1]) {
      if f in before {
        assert gaps[..k+1][k] == gaps[k];
      } else {
        var j :| 0 <= j < k && InGap(f, gaps[..k][j]);
        assert gaps[..k+1][j] == gaps[..k][j];
      }
    }
    forall s, t | s in fillers && t in fillers && s != t && s in before && t !in before
      ensures Apart(s, t) && Apart(t, s)
    {
      if s !in can { GapsApart(s, fillers, gaps, k, fixed, first); }
    }
  }

  /** The outer loop of fitSections. */
  method Fill(fixed: seq<Section>, fillers: seq<Section>, sorted: seq<Section>, gaps: seq<(int, Section)>, firstfixed: int)
    requires GapsOf(gaps, fixed, firstfixed) && NoRepeats(gaps) && AtAddresses(fixed)
    requires NoRepeats(sorted) && Growing(sorted) && PowerAligned(sorted) && forall s :: s in sorted <==> s in fillers
    requires forall s :: s in fillers ==> s !in fixed && s.finalloc == None
    modifies fillers
    ensures AllApart(fillers) && AtAddresses(fixed)
    ensures forall f :: f in fillers && f.finalloc.Some? ==> InSomeGap(f, gaps)
  {
    hide NoRepeats, Growing, PowerAligned, InSomeGap;
    var can := sorted;
    for k := 0 to |gaps|
      invariant NoRepeats(can) && Growing(can) && PowerAligned(can) && AtAddresses(fixed)
      invariant forall s :: s in can ==> s in fillers && s.finalloc == None
      invariant forall f :: f in fillers && f !in can ==> InSomeGap(f, gaps[..k])
      invariant AllApart(fillers)
    {
      var s := gaps[k].1;
      assert gaps[k] in gaps && s in fixed;
      ghost var end;
      var addpos := s.finalsegloc.value + s.size;
      ghost var before := can;
      assert forall j :: 0 <= j < |can| ==> can[j] in fillers;
      can, end := FillGap(can, addpos, addpos + gaps[k].0);
      GapFilled(fillers, before, can, gaps, k, fixed, firstfixed);
    }
    assert gaps[..|gaps|] == gaps;
  }

  // ---- doLayout ----

  function OfCategory(ss: seq<Section>, c: Category): (r: seq<Section>)
    ensures forall s :: s in r ==> s in ss && s.category == c
    ensures forall s :: s in ss && s.category == c ==> s in r
    ensures NoRepeats(ss) ==> NoRepeats(r)
  {
    if ss == [] then []
    else
      var p := OfCategory(ss[..|ss|-1], c);
      var s := ss[|ss|-1];
      assert forall x :: x in ss ==> x in ss[..|ss|-1] || x == s;
      assert forall x :: x in ss[..|ss|-1] ==> x in ss;
      if s.category == c then p + [s] else p
  }

  function OfPrefix(ss: seq<Section>, p: Prefix): (r: seq<Section>)
    ensures forall s :: s in r ==> s in ss && s.prefix == p
    ensures forall s :: s in ss && s.prefix == p ==> s in r
    ensures NoRepeats(ss) ==> NoRepeats(r)
  {
    if ss == [] then []
    else
      var r := OfPrefix(ss[..|ss|-1], p);
      var s := ss[|ss|-1];
      assert forall x :: x in ss ==> x in ss[..|ss|-1] || x == s;
      assert forall x :: x in ss[..|ss|-1] ==> x in ss;
      if s.prefix == p then r + [s] else r
  }

  /** Code, then constants, then data. */
  function CodeAndData(l: seq<Section>): (r: seq<Section>)
    ensures forall s :: s in r ==> s in l && s.prefix in {Text, Rodata, Data}
    ensures forall s :: s in l && s.prefix in {Text, Rodata, Data} ==> s in r
  {
    OfPrefix(l, Text) + OfPrefix(l, Rodata) + OfPrefix(l, Data)
  }

  /** The sections of a category in the order of their placement. */
  function Chosen(ss: seq<Section>, c: Category): (r: seq<Section>)
    ensures forall s :: s in r ==> s in ss && s.category == c && IsListed(s)
    ensures forall s :: s in ss && s.category == c && IsListed(s) ==> s in r
  {
    var l := OfCategory(ss, c);
    if c == Sec16 || c == Sec32Seg then CodeAndData(l)
    else if c == Flat || c == Init then CodeAndData(l) + OfPrefix(l, Bss)
    else l
  }

  /** The order of placement: code, constants, data and then zeroed data where a group has these
      kinds, and else as listed. */
  lemma {:induction false} ChosenInOrder(ss: seq<Section>, c: Category, i: nat, j: nat)
    requires i < j < |Chosen(ss, c)|
    ensures var l := Chosen(ss, c); c in {Sec16, Sec32Seg, Flat, Init} ==> PrefixRank(l[i].prefix) <= PrefixRank(l[j].prefix)
    ensures var l := Chosen(ss, c); c in {Sec16, Sec32Seg, Flat, Init} && l[i].prefix == l[j].prefix ==> ListedBefore(ss, l[i], l[j])
    ensures c in {TextFSeg, FSeg, Low, Fixed} ==> ListedBefore(ss, Chosen(ss, c)[i], Chosen(ss, c)[j])
  {
    var l := OfCategory(ss, c);
    CategoryAscends(ss, c);
    if c in {Sec16, Sec32Seg, Flat, Init} {
      PrefixAscends(l, Text);
      PrefixAscends(l, Rodata);
      PrefixAscends(l, Data);
      PrefixAscends(l, Bss);
      var t, r, d, b := OfPrefix(l, Text), OfPrefix(l, Rodata), OfPrefix(l, Data), OfPrefix(l, Bss);
      var x := Chosen(ss, c);
      assert x == t + r + d || x == t + r + d + b;
      hide OfPrefix, OfCategory, ListedBefore, Chosen;
      PartsInOrder(l, t, r, d, b, i, j);
      assert x[i] == (t + r + d + b)[i] && x[j] == (t + r + d + b)[j];
      if x[i].prefix == x[j].prefix { ListedThrough(ss, l, x[i], x[j]); }
    }
  }

  /** In the order of `ss`. */
  ghost predicate Ascends(ss: seq<Section>, r: seq<Section>) {
    forall i, j :: 0 <= i < j < |r| ==> ListedBefore(ss, r[i], r[j])
  }

  lemma OneMore(ss: seq<Section>, p: seq<Section>)
    requires ss != [] && Ascends(ss[..|ss|-1], p) && forall s :: s in p ==> s in ss[..|ss|-1]
    ensures Ascends(ss, p) && Ascends(ss, p + [ss[|ss|-1]])
  {
    var rest, r := ss[..|ss|-1], p + [ss[|ss|-1]];
    forall i, j | 0 <= i < j < |r| ensures ListedBefore(ss, r[i], r[j]) && (j < |p| ==> ListedBefore(ss, p[i], p[j])) {
      assert r[i] == p[i] && p[i] in p;
      if j < |p| {
        assert ListedBefore(rest, p[i], p[j]);
        var a, b :| 0 <= a < b < |rest| && rest[a] == p[i] && rest[b] == p[j];
        assert ss[a] == p[i] && ss[b] == p[j];
      } else {
        var a :| 0 <= a < |rest| && rest[a] == p[i];
        assert ss[a] == p[i] && ss[|ss|-1] == r[j];
      }
    }
    assert forall i, j :: 0 <= i < j < |p| ==> r[i] == p[i] && r[j] == p[j];
  }

  lemma {:induction false} CategoryAscends(ss: seq<Section>, c: Category)
    ensures Ascends(ss, OfCategory(ss, c))
  {
    if ss != [] {
      CategoryAscends(ss[..|ss|-1], c);
      OneMore(ss, OfCategory(ss[..|ss|-1], c));
    }
  }

  lemma {:induction false} PrefixAscends(ss: seq<Section>, p: Prefix)
    ensures Ascends(ss, OfPrefix(ss, p))
  {
    if ss != [] {
      PrefixAscends(ss[..|ss|-1], p);
      OneMore(ss, OfPrefix(ss[..|ss|-1], p));
    }
  }

  lemma PartsInOrder(l: seq<Section>, t: seq<Section>, r: seq<Section>, d: seq<Section>, b: seq<Section>, i: nat, j: nat)
    requires Ascends(l, t) && Ascends(l, r) && Ascends(l, d) && Ascends(l, b) && i < j < |t + r + d + b|
    requires (forall s :: s in t ==> s.prefix == Text) && (forall s :: s in r ==> s.prefix == Rodata)
    requires (forall s :: s in d ==> s.prefix == Data) && (forall s :: s in b ==> s.prefix == Bss)
    ensures var x := t + r + d + b;
            PrefixRank(x[i].prefix) <= PrefixRank(x[j].prefix) && (x[i].prefix == x[j].prefix ==> ListedBefore(l, x[i], x[j]))
  {
    hide ListedBefore;
    PartOf(t, r, d, b, i);
    PartOf(t, r, d, b, j);
  }

  lemma PartOf(t: seq<Section>, r: seq<Section>, d: seq<Section>, b: seq<Section>, i: nat)
    requires i < |t + r + d + b|
    ensures var s := (t + r + d + b)[i];
            if i < |t| then s == t[i] && s in t
            else if i < |t + r| then s == r[i - |t|] && s in r
            else if i < |t + r + d| then s == d[i - |t + r|] && s in d
            else s == b[i - |t + r + d|] && s in b
  {}

  lemma ListedThrough(ss: seq<Section>, l: seq<Section>, s: Section, t: Section)
    requires Ascends(ss, l) && ListedBefore(l, s, t)
    ensures ListedBefore(ss, s, t)
  {}

  function PrefixRank(p: Prefix): int {
    match p
    case Text => 0
    case Rodata => 1
    case Data => 2
    case Bss => 3
    case Other => 4
  }

  ghost predicate ListedBefore(ss: seq<Section>, s: Section, t: Section) {
    exists i, j :: 0 <= i < j < |ss| && ss[i] == s && ss[j] == t
  }

  /** The layout gives such a section a place. */
  predicate IsListed(s: Section) {
    match s.category
    case Sec16 | Sec32Seg => s.prefix in {Text, Rodata, Data}
    case Flat | Init => s.prefix in {Text, Rodata, Data, Bss}
    case _ => true
  }

  /** The fixed sections share the top of the ROM with the 16-bit ones. */
  function Group(s: Section): Category { if s.category == Fixed then Sec16 else s.category }

  function SegOffset(c: Category): int { if c in {Sec16, Sec32Seg, FSeg} then BUILD_BIOS_ADDR else 0 }

  type Bands = map<Category, (int, int)>

  ghost predicate InItsBand(s: Section, bands: Bands)
    reads s
  {
    Group(s) in bands && IsListed(s) ==>
      && s.finalloc.Some? && bands[Group(s)].0 <= s.finalloc.value && s.finalloc.value + s.size <= bands[Group(s)].1
      && (Group(s) != Low ==> SegmentAt(s, SegOffset(Group(s))))
      && (Group(s) != Sec16 ==> 0 < s.align && s.finalloc.value % s.align == 0)
  }

  /** Whatever code in a 64K segment at 0xf0000 is linked with is relative to that segment. Flat
      code is linked where it lies. */
  ghost predicate InItsSegment(s: Section)
    reads s
  {
    && (s.finalloc.Some? && s.category in {Fixed, Sec16, Sec32Seg, FSeg} ==> s.finalsegloc == Some(s.finalloc.value - 0xf0000))
    && (s.finalloc.Some? && s.category in {TextFSeg, Flat, Init} ==> s.finalsegloc == s.finalloc)
  }

  /** The sections of the groups in `bands` lie there, without overlap, and all that are placed
      are in their segment. */
  ghost predicate Laid(ss: seq<Section>, bands: Bands)
    reads ss
  {
    && (forall s :: s in ss && !IsListed(s) ==> s.finalloc == None)
    && (forall s :: s in ss ==> InItsSegment(s))
    && (forall s :: s in ss ==> InItsBand(s, bands))
    && (forall s, t :: s in ss && t in ss && s != t && Group(s) in bands && Group(t) in bands ==> Apart(s, t))
  }

  lemma {:induction false} LaidOne(ss: seq<Section>, bands: Bands, c: Category, lo: int, hi: int)
    requires Laid(ss, bands) && c !in bands && c != Sec16 && c != Fixed
    requires forall d :: d in bands ==> hi <= bands[d].0
    requires InBand(Chosen(ss, c), lo, hi) && InOrder(Chosen(ss, c)) && Aligned(Chosen(ss, c))
    requires c != Low ==> SegmentIs(Chosen(ss, c), SegOffset(c))
    ensures Laid(ss, bands[c := (lo, hi)])
  {
    hide Chosen, IsListed, Aligned;
    var bands' := bands[c := (lo, hi)];
    var l := Chosen(ss, c);
    OrderApart(l);
    AlignedMeans(l);
    forall s | s in ss ensures InItsBand(s, bands') {
      assert InItsBand(s, bands);
      if Group(s) == c && IsListed(s) { assert s in l; }
    }
    forall s, t | s in ss && t in ss && s != t && Group(s) in bands' && Group(t) in bands' ensures Apart(s, t) {
      assert InItsBand(s, bands') && InItsBand(t, bands');
      if Group(s) == c && Group(t) == c && IsListed(s) && IsListed(t) { assert s in l && t in l; }
    }
  }

  lemma AlignedMeans(l: seq<Section>)
    requires Aligned(l)
    ensures forall s :: s in l ==> 0 < s.align && s.finalloc.Some? && s.finalloc.value % s.align == 0
  {}

  lemma OrderApart(l: seq<Section>)
    requires InOrder(l)
    ensures AllApart(l)
  {
    forall s, t | s in l && t in l && s != t ensures Apart(s, t) {
      var i :| 0 <= i < |l| && l[i] == s;
      var j :| 0 <= j < |l| && l[j] == t;
      assert i < j || j < i;
    }
  }

  /** Fewer bands ask for less. */
  lemma LaidLess(ss: seq<Section>, bands: Bands, less: Bands)
    requires Laid(ss, bands) && forall d :: d in less ==> d in bands && bands[d] == less[d]
    ensures Laid(ss, less)
  {
    forall s | s in ss ensures InItsBand(s, less) { assert InItsBand(s, bands); }
  }

  /** setSectionsStart for one category below everything placed so far. If all above fits
      (`ok`) and this one does too, it extends `bands`; `kept` it leaves alone in any case. */
  method Place(ss: seq<Section>, c: Category, endaddr: int, least: nat, segoffset: int,
               ghost ok: bool, ghost bands: Bands, ghost kept: Bands) returns (start: int, align: nat)
    requires NoRepeats(ss) && PowerAligned(ss) && IsPow2(least) && 0 < least && c != Sec16 && c != Fixed && c !in kept && c !in bands
    requires c != Low ==> segoffset == SegOffset(c)
    requires Laid(ss, kept)
    requires ok ==> Laid(ss, bands) && forall d :: d in bands ==> endaddr <= bands[d].0
    modifies set s | s in ss && s.category == c
    ensures PowerAligned(Chosen(ss, c)) && Packed(Chosen(ss, c), start) && start == StartOf(Chosen(ss, c), endaddr, least)
    ensures Laid(ss, kept) && (ok ==> Laid(ss, bands))
    ensures ok && FitsBelow(Chosen(ss, c), endaddr, least) ==> start <= endaddr && Laid(ss, bands[c := (start, endaddr)])
    ensures forall s :: s in Chosen(ss, c) ==> SegmentAt(s, segoffset)
    ensures align == LargestAlign(Chosen(ss, c), least)
  {
    hide IsPow2, PowerAligned, InBand, InOrder, Aligned, NoRepeats, Laid, LaidBut, Chosen, Span, IsListed, Packed, StartOf, FitsBelow;
    var l := Chosen(ss, c);
    ChosenAligned(ss, c);
    ChosenNoRepeats(ss, c);
    LaidOthers(ss, c, kept);
    if ok { LaidOthers(ss, c, bands); }
    assert forall j :: 0 <= j < |l| ==> l[j] in ss && l[j].category == c;
    start, align := SetSectionsStart(l, endaddr, least, segoffset);
    LaidAgain(ss, c, kept);
    if ok {
      LaidAgain(ss, c, bands);
      if FitsBelow(l, endaddr, least) {
        SpanIsNatural(l, |l|);
        SpanIs(l);
        NarrowBand(l, start, start + Span(l), endaddr);
        LaidOne(ss, bands, c, start, endaddr);
      }
    }
  }

  lemma ChosenAligned(ss: seq<Section>, c: Category)
    requires PowerAligned(ss)
    ensures PowerAligned(Chosen(ss, c))
  {}

  lemma ConcatNoRepeats(a: seq<Section>, b: seq<Section>)
    requires NoRepeats(a) && NoRepeats(b) && forall s :: s in a ==> s !in b
    ensures NoRepeats(a + b)
  {
    forall i, j | 0 <= i < j < |a| + |b| ensures (a + b)[i] != (a + b)[j] {
      if i < |a| <= j {
        assert a[i] in a && b[j - |a|] in b;
      }
    }
  }

  lemma ChosenNoRepeats(ss: seq<Section>, c: Category)
    requires NoRepeats(ss)
    ensures NoRepeats(Chosen(ss, c))
  {
    hide NoRepeats;
    var l := OfCategory(ss, c);
    var t, r, d, b := OfPrefix(l, Text), OfPrefix(l, Rodata), OfPrefix(l, Data), OfPrefix(l, Bss);
    ConcatNoRepeats(t, r);
    ConcatNoRepeats(t + r, d);
    ConcatNoRepeats(t + r + d, b);
  }

  lemma SpanIs(l: seq<Section>)
    requires PowerAligned(l)
    ensures Span(l) == End(l, 0, |l|)
  {}

  lemma NarrowBand(l: seq<Section>, lo: int, hi: int, to: int)
    requires InBand(l, lo, hi) && hi <= to
    ensures InBand(l, lo, to)
  {}

  /** What `Laid` says of the sections that are not in `l`. */
  ghost predicate LaidBut(ss: seq<Section>, l: seq<Section>, bands: Bands)
    reads set s | s in ss && s !in l :: s
  {
    && (forall s :: s in ss && s !in l && !IsListed(s) ==> s.finalloc == None)
    && (forall s :: s in ss && s !in l ==> InItsSegment(s))
    && (forall s :: s in ss && s !in l ==> InItsBand(s, bands))
    && (forall s, t :: s in ss && t in ss && s !in l && t !in l && s != t && Group(s) in bands && Group(t) in bands ==> Apart(s, t))
  }

  lemma LaidOthers(ss: seq<Section>, c: Category, bands: Bands)
    requires Laid(ss, bands)
    ensures LaidBut(ss, Chosen(ss, c), bands)
  {
    hide Chosen, IsListed, InItsBand, InItsSegment, Apart;
  }

  /** Placing one category keeps what is known of the other ones. */
  lemma LaidAgain(ss: seq<Section>, c: Category, bands: Bands)
    requires LaidBut(ss, Chosen(ss, c), bands) && c !in bands && c != Sec16 && c != Fixed
    requires c != Low ==> SegmentIs(Chosen(ss, c), SegOffset(c))
    ensures Laid(ss, bands)
  {
    hide Chosen, IsListed, Apart;
    ChosenSegment(ss, c);
  }

  lemma ChosenSegment(ss: seq<Section>, c: Category)
    requires c != Low && c != Fixed ==> SegmentIs(Chosen(ss, c), SegOffset(c))
    ensures c != Fixed ==> forall s :: s in Chosen(ss, c) ==> InItsSegment(s)
  {
    hide Chosen;
  }

  const TOP := BUILD_BIOS_ADDR + BUILD_BIOS_SIZE

  /** [s for s in ss if s.finalloc is None]: they need no more space than all of `ss`. */
  method Unplaced(ss: seq<Section>) returns (r: seq<Section>)
    requires NoRepeats(ss) && PowerAligned(ss)
    ensures NoRepeats(r) && forall s :: s in r ==> s in ss && s.finalloc == None
    ensures forall s :: s in ss && s.finalloc == None ==> s in r
    ensures PowerAligned(r) && Span(r) <= Span(ss) && LargestAlign(r, 1) <= LargestAlign(ss, 1)
  {
    hide IsPow2, End, Begin, AlignUp, LargestAlign;
    r := [];
    EndEmpty([], 0);
    EndEmpty(ss, 0);
    assert ss[..0] == [];
    for i := 0 to |ss|
      invariant NoRepeats(r) && forall s :: s in r ==> s in ss[..i] && s.finalloc == None
      invariant forall j :: 0 <= j < i && ss[j].finalloc == None ==> ss[j] in r
      invariant End(r, 0, |r|) <= End(ss, 0, i) && LargestAlign(r, 1) <= LargestAlign(ss[..i], 1)
    {
      SkipOne(r, ss, i);
      if ss[i].finalloc == None {
        r := r + [ss[i]];
      }
    }
    assert ss[..|ss|] == ss;
  }

  lemma SkipOne(r: seq<Section>, ss: seq<Section>, i: nat)
    requires PowerAligned(ss) && i < |ss| && (forall s :: s in r ==> s in ss) && End(r, 0, |r|) <= End(ss, 0, i)
    ensures End(r, 0, |r|) <= End(ss, 0, i + 1)
    ensures PowerAligned(r + [ss[i]]) && End(r + [ss[i]], 0, |r| + 1) <= End(ss, 0, i + 1)
    ensures LargestAlign(r, 1) <= LargestAlign(ss[..i], 1) ==>
              LargestAlign(r, 1) <= LargestAlign(ss[..i+1], 1) && LargestAlign(r + [ss[i]], 1) <= LargestAlign(ss[..i+1], 1)
  {
    hide AlignUp;
    var x := ss[i];
    EndPrefix(r, [x], 0, |r|);
    AlignUpIs(End(ss, 0, i), x.align);
    AlignUpMonotone(End(r, 0, |r|), End(ss, 0, i), x.align);
    assert (r + [x])[..|r|] == r && ss[..i+1][..i] == ss[..i];
  }

  lemma {:induction false} EndPrefix(a: seq<Section>, b: seq<Section>, base: int, n: nat)
    requires PowerAligned(a + b) && PowerAligned(a) && n <= |a|
    ensures End(a + b, base, n) == End(a, base, n)
  {
    if n > 0 { EndPrefix(a, b, base, n - 1); }
  }

  lemma AlignUpMonotone(x: int, y: int, a: int)
    requires a > 0 && x <= y
    ensures AlignUp(x, a) <= AlignUp(y, a)
  {
    AlignDownIs(x + (a - 1), a);
    AlignDownLargest(y + (a - 1), a, AlignUp(x, a));
  }

  lemma {:induction false} FixedPlaced(ss: seq<Section>, rem: seq<Section>, first: int)
    requires var fixed := OfCategory(ss, Fixed); var text := OfPrefix(OfCategory(ss, Sec16), Text);
             && AllApart(fixed + text) && AtAddresses(fixed)
             && (forall s :: s in fixed + text && s.finalloc.Some? ==> Inside(s, first, BUILD_BIOS_SIZE))
    requires forall s :: s in ss && s !in OfCategory(ss, Fixed) && s !in OfPrefix(OfCategory(ss, Sec16), Text) ==> s.finalloc == None
    requires forall s :: s in Chosen(ss, Sec16) && s.finalloc == None ==> s in rem
    ensures LaidBut(ss, rem, map[Sec16 := (first + BUILD_BIOS_ADDR, TOP)])
  {
    hide Chosen, OfCategory, OfPrefix;
    var fixed, text := OfCategory(ss, Fixed), OfPrefix(OfCategory(ss, Sec16), Text);
    var bands := map[Sec16 := (first + BUILD_BIOS_ADDR, TOP)];
    forall s | s in ss && s !in rem ensures InItsBand(s, bands) && InItsSegment(s) {
      if s.finalloc.Some? { assert s in fixed + text; }
      if s.category == Sec16 && IsListed(s) { assert s in Chosen(ss, Sec16); }
    }
    forall s, t | s in ss && t in ss && s !in rem && t !in rem && s != t && Group(s) in bands && Group(t) in bands
      ensures Apart(s, t)
    {
      if s.finalloc.Some? && t.finalloc.Some? { assert s in fixed + text && t in fixed + text; }
    }
  }

  lemma {:induction false} TopLaid(ss: seq<Section>, rem: seq<Section>, start: int, first: int)
    requires LaidBut(ss, rem, map[Sec16 := (first, TOP)]) && start <= first <= TOP
    requires InBand(rem, start, first) && InOrder(rem) && SegmentIs(rem, BUILD_BIOS_ADDR)
    requires forall s :: s in rem ==> s in Chosen(ss, Sec16)
    ensures Laid(ss, map[Sec16 := (start, TOP)])
  {
    hide Chosen;
    var bands, bands' := map[Sec16 := (first, TOP)], map[Sec16 := (start, TOP)];
    OrderApart(rem);
    forall s | s in ss ensures InItsBand(s, bands') {
      if s !in rem { assert InItsBand(s, bands); }
    }
    forall s, t | s in ss && t in ss && s != t && Group(s) in bands' && Group(t) in bands' ensures Apart(s, t) {
      if s !in rem { assert InItsBand(s, bands); }
      if t !in rem { assert InItsBand(t, bands); }
    }
  }

  /** fitSections on the 16-bit code and what it leaves to be placed. */
  method FitText(ss: seq<Section>, chosen: seq<Section>) returns (first: Option<int>, rem: seq<Section>)
    requires NoRepeats(ss) && PowerAligned(Chosen(ss, Sec16)) && FixedFit(OfCategory(ss, Fixed)) && chosen == Chosen(ss, Sec16)
    requires forall s :: s in ss ==> s.finalloc == None
    modifies ss
    ensures first.None? <==> exists s :: s in OfCategory(ss, Fixed) && s.align != 1
    ensures first.Some? ==> NoRepeats(rem) && PowerAligned(rem) && (forall s :: s in rem ==> s in chosen)
                            && LaidBut(ss, rem, map[Sec16 := (first.value, TOP)])
                            && IsLowest(OfCategory(ss, Fixed), first.value - BUILD_BIOS_ADDR)
                            && Span(rem) <= Span(chosen) && LargestAlign(rem, 1) <= LargestAlign(chosen, 1)
                            && AtAddresses(OfCategory(ss, Fixed))
                            && RestFitted(chosen, rem, first.value) && first.value <= TOP
  {
    hide IsPow2, PowerAligned, FixedFit, NoRepeats, AllApart, AtAddresses, LaidBut, Chosen, RestFitted, Span, LargestAlign;
    var fixed := OfCategory(ss, Fixed);
    var text := OfPrefix(OfCategory(ss, Sec16), Text);
    ChosenNoRepeats(ss, Sec16);
    TextAligned(ss);
    assert forall j :: 0 <= j < |fixed| ==> fixed[j] in ss;
    assert forall j :: 0 <= j < |text| ==> text[j] in ss;
    first := FitSections(fixed, text);
    if first.None? {
      return None, [];
    }
    rem := Unplaced(chosen);
    FixedPlaced(ss, rem, first.value - BUILD_BIOS_ADDR);
    RestIsFitted(ss, chosen, text, rem, first.value);
  }

  /** What is not left over is code that fitSections has placed. */
  lemma RestIsFitted(ss: seq<Section>, chosen: seq<Section>, text: seq<Section>, rem: seq<Section>, first: int)
    requires LaidBut(ss, rem, map[Sec16 := (first, TOP)]) && chosen == Chosen(ss, Sec16) && text == OfPrefix(OfCategory(ss, Sec16), Text)
    requires forall s :: s in chosen && s !in text ==> s.finalloc == None
    requires forall s :: s in chosen && s.finalloc == None ==> s in rem
    ensures RestFitted(chosen, rem, first)
  {
    hide LaidBut, Chosen;
    forall s | s in chosen && s !in rem ensures FittedIn(s, first) {
      LaidButAt(ss, rem, map[Sec16 := (first, TOP)], s);
    }
  }

  lemma LaidButAt(ss: seq<Section>, rem: seq<Section>, bands: Bands, s: Section)
    requires LaidBut(ss, rem, bands) && s in Chosen(ss, Sec16) && s !in rem && Sec16 in bands
    ensures s.finalloc.Some? && bands[Sec16].0 <= s.finalloc.value && s.finalloc.value + s.size <= bands[Sec16].1
  {
    hide Chosen;
    assert InItsBand(s, bands);
  }

  /** What fitSections returned and left over: the lowest fixed address, and all 16-bit sections
      but the code that it has fitted in above that address. */
  ghost predicate Fitted(ss: seq<Section>, first: int, rem: seq<Section>)
    reads OfCategory(ss, Fixed), Chosen(ss, Sec16)
  {
    && RestFitted(Chosen(ss, Sec16), rem, first)
    && IsLowest(OfCategory(ss, Fixed), first - BUILD_BIOS_ADDR) && AtAddresses(OfCategory(ss, Fixed))
    && PowerAligned(rem) && PowerAligned(Chosen(ss, Sec16)) && (forall s :: s in rem ==> s in Chosen(ss, Sec16))
    && Span(rem) <= Span(Chosen(ss, Sec16)) && LargestAlign(rem, 1) <= LargestAlign(Chosen(ss, Sec16), 1)
  }

  ghost predicate RestFitted(l: seq<Section>, rem: seq<Section>, first: int)
    reads set s | s in l && s !in rem :: s
  {
    forall s :: s in l && s !in rem ==> FittedIn(s, first)
  }

  ghost predicate FittedIn(s: Section, first: int)
    reads s
  {
    s.prefix == Text && s.finalloc.Some? && first <= s.finalloc.value && s.finalloc.value + s.size <= TOP
  }

  /** The 16-bit part of doLayout: None when fitSections exits. */
  method PlaceTop(ss: seq<Section>) returns (r: Option<int>, ghost first: int, ghost rem: seq<Section>)
    requires NoRepeats(ss) && PowerAligned(Chosen(ss, Sec16)) && FixedFit(OfCategory(ss, Fixed))
    requires forall s :: s in ss ==> s.finalloc == None
    modifies ss
    ensures r.None? <==> exists s :: s in OfCategory(ss, Fixed) && s.align != 1
    ensures r.Some? ==> Laid(ss, map[]) && Fitted(ss, first, rem) && Packed(rem, r.value) && r.value == StartOf(rem, first, 1)
    ensures r.Some? && FitsBelow(rem, first, 1) ==> r.value <= first && Laid(ss, map[Sec16 := (r.value, TOP)])
  {
    hide IsPow2, PowerAligned, FixedFit, NoRepeats, LaidBut, Laid, InBand, InOrder, Aligned, SegmentIs, Chosen, Packed, StartOf, FitsBelow, RestFitted,
         IsLowest, AtAddresses, LargestAlign, Span;
    var chosen := Chosen(ss, Sec16);
    var start0, left := FitText(ss, chosen);
    first, rem := 0, left;
    if start0.None? {
      return None, 0, rem;
    }
    first := start0.value;
    Sixteen();
    ghost var fixed := OfCategory(ss, Fixed);
    assert forall j :: 0 <= j < |rem| ==> rem[j] in ss && rem[j].category == Sec16;
    assert forall j :: 0 <= j < |fixed| ==> fixed[j].category == Fixed;
    var start, align := SetSectionsStart(left, start0.value, 1, BUILD_BIOS_ADDR);
    NothingLaid(ss, rem, map[Sec16 := (first, TOP)], chosen);
    if FitsBelow(rem, first, 1) { TopFits(ss, rem, start, first); }
    return Some(start), first, rem;
  }

  lemma TopFits(ss: seq<Section>, rem: seq<Section>, start: int, first: int)
    requires PowerAligned(rem) && LaidBut(ss, rem, map[Sec16 := (first, TOP)]) && first <= TOP
    requires start + Span(rem) <= first && InBand(rem, start, start + Span(rem)) && InOrder(rem) && SegmentIs(rem, BUILD_BIOS_ADDR)
    requires forall s :: s in rem ==> s in Chosen(ss, Sec16)
    ensures start <= first && Laid(ss, map[Sec16 := (start, TOP)])
  {
    hide PowerAligned, LaidBut, Laid, InBand, InOrder, SegmentIs, Chosen;
    SpanIsNatural(rem, |rem|);
    SpanIs(rem);
    NarrowBand(rem, start, start + Span(rem), first);
    TopLaid(ss, rem, start, first);
  }

  lemma TextAligned(ss: seq<Section>)
    requires PowerAligned(Chosen(ss, Sec16))
    ensures PowerAligned(OfPrefix(OfCategory(ss, Sec16), Text))
    ensures IsPow2(1)
  {}

  lemma NothingLaid(ss: seq<Section>, rem: seq<Section>, bands: Bands, l: seq<Section>)
    requires LaidBut(ss, rem, bands) && forall s :: s in rem ==> s in l
    requires l == Chosen(ss, Sec16) && SegmentIs(rem, BUILD_BIOS_ADDR)
    ensures Laid(ss, map[])
  {
    hide Chosen;
  }

  datatype LayoutInfo = LayoutInfo(sec32init_start: int, sec32init_end: int, sec32init_align: nat,
                                   sec32low_start: int, sec32low_end: int,
                                   zonelow_base: int, final_sec32low_start: int,
                                   zonefseg_start: int, zonefseg_end: int, final_readonly_start: int)

  /** Placed and in use after start-up: init code moves away when relocations are generated,
      and low data moves to its final place in any case. */
  predicate Stays(s: Section, genreloc: bool) {
    IsListed(s) && s.category != Low && (genreloc ==> s.category != Init)
  }

  /** Aligned, in its part of the ROM, and clear of ZoneFSeg if it stays. */
  ghost predicate GoodPlace(s: Section, li: LayoutInfo, genreloc: bool)
    requires s.finalloc.Some?
    reads s
  {
    && (s.category !in {Fixed, Sec16} ==> 0 < s.align && s.finalloc.value % s.align == 0)
    && (s.category == Init ==> li.sec32init_start <= s.finalloc.value && s.finalloc.value + s.size <= li.sec32init_end)
    && (s.category == Low ==> li.sec32low_start <= s.finalloc.value && s.finalloc.value + s.size <= li.sec32low_end)
    && (Stays(s, genreloc) ==>
          li.final_readonly_start <= s.finalloc.value
          && (s.finalloc.value + s.size <= li.zonefseg_start || li.zonefseg_end <= s.finalloc.value))
  }

  /** What the layout promises when all groups fit. */
  ghost predicate GoodLayout(ss: seq<Section>, li: LayoutInfo, genreloc: bool)
    reads ss
  {
    && (forall s :: s in ss ==> (s.finalloc.Some? <==> IsListed(s)))
    && AllApart(ss)
    && (forall s :: s in ss && IsListed(s) ==> GoodPlace(s, li, genreloc))
  }

  // ---- The layout as a function of the sections ----

  /** The start addresses of the groups, and where the flat one has to end. */
  datatype Plan = Plan(sec16: int, seg: int, textfseg: int, fseg: int, flatEnd: int, flat: int, init: int, low: int)

  function PlanOf(ss: seq<Section>, first: int, rem: seq<Section>, genreloc: bool): Plan
    requires PowerAligned(ss) && PowerAligned(rem)
  {
    var sec16 := StartOf(rem, first, 1);
    var seg := StartOf(Chosen(ss, Sec32Seg), sec16, 1);
    var textfseg := StartOf(Chosen(ss, TextFSeg), seg, 16);
    var fseg := StartOf(Chosen(ss, FSeg), textfseg, 16);
    var flatEnd := if RunsIntoZone(ss, fseg, genreloc) then fseg - BUILD_MIN_BIOSTABLE else fseg;
    var flat := StartOf(Chosen(ss, Flat), flatEnd, 16);
    var init := StartOf(Chosen(ss, Init), flat, 16);
    Plan(sec16, seg, textfseg, fseg, flatEnd, flat, init, StartOf(Chosen(ss, Low), init, 16))
  }

  /** Right below the f-segment data, the flat sections would not leave the least ZoneFSeg. */
  predicate RunsIntoZone(ss: seq<Section>, fseg: int, genreloc: bool)
    requires PowerAligned(ss)
  {
    var flat := StartOf(Chosen(ss, Flat), fseg, 16);
    BUILD_BIOS_ADDR + BUILD_MIN_BIOSTABLE > if genreloc then flat else StartOf(Chosen(ss, Init), flat, 16)
  }

  /** The plan, address by address. */
  lemma PlanIs(ss: seq<Section>, first: int, rem: seq<Section>, genreloc: bool)
    requires PowerAligned(ss) && PowerAligned(rem)
    ensures var p := PlanOf(ss, first, rem, genreloc);
            && p.sec16 == StartOf(rem, first, 1) && p.seg == StartOf(Chosen(ss, Sec32Seg), p.sec16, 1)
            && p.textfseg == StartOf(Chosen(ss, TextFSeg), p.seg, 16) && p.fseg == StartOf(Chosen(ss, FSeg), p.textfseg, 16)
            && p.flatEnd == (if RunsIntoZone(ss, p.fseg, genreloc) then p.fseg - BUILD_MIN_BIOSTABLE else p.fseg)
            && p.flat == StartOf(Chosen(ss, Flat), p.flatEnd, 16) && p.init == StartOf(Chosen(ss, Init), p.flat, 16)
            && p.low == StartOf(Chosen(ss, Low), p.init, 16)
  {
    hide StartOf, RunsIntoZone, Chosen;
  }

  /** Every group ends at or below the place where it should. */
  predicate AllFit(ss: seq<Section>, first: int, rem: seq<Section>, genreloc: bool)
    requires PowerAligned(ss) && PowerAligned(rem)
  {
    UpperFit(ss, first, rem, PlanOf(ss, first, rem, genreloc)) && LowerFit(ss, PlanOf(ss, first, rem, genreloc))
  }

  predicate UpperFit(ss: seq<Section>, first: int, rem: seq<Section>, p: Plan)
    requires PowerAligned(ss) && PowerAligned(rem)
  {
    && FitsBelow(rem, first, 1) && FitsBelow(Chosen(ss, Sec32Seg), p.sec16, 1)
    && FitsBelow(Chosen(ss, TextFSeg), p.seg, 16) && FitsBelow(Chosen(ss, FSeg), p.textfseg, 16)
  }

  predicate LowerFit(ss: seq<Section>, p: Plan)
    requires PowerAligned(ss)
  {
    FitsBelow(Chosen(ss, Flat), p.flatEnd, 16) && FitsBelow(Chosen(ss, Init), p.flat, 16) && FitsBelow(Chosen(ss, Low), p.init, 16)
  }

  /** The space that a group can take, with what rounding loses. */
  function Takes(l: seq<Section>, least: nat): int
    requires PowerAligned(l)
  {
    Span(l) + LargestAlign(l, least)
  }

  /** The space that the layout can take. */
  function Need(ss: seq<Section>): int
    requires PowerAligned(ss)
  {
    Takes(Chosen(ss, Sec16), 1) + Takes(Chosen(ss, Sec32Seg), 1) + Takes(Chosen(ss, TextFSeg), 16) + Takes(Chosen(ss, FSeg), 16)
    + BUILD_MIN_BIOSTABLE + Takes(Chosen(ss, Flat), 16) + Takes(Chosen(ss, Init), 16) + Takes(Chosen(ss, Low), 16)
  }

  lemma StartBounds(l: seq<Section>, e: int, least: nat)
    requires PowerAligned(l) && 0 < least
    ensures e - Takes(l, least) < StartOf(l, e, least) && 0 <= Span(l) && least <= LargestAlign(l, least)
    ensures StartOf(l, e, least) + Span(l) <= e <==> FitsBelow(l, e, least)
    ensures StartOf(l, e, least) % LargestAlign(l, least) == 0
    ensures Span(l) <= e ==> FitsBelow(l, e, least)
    ensures 0 < StartOf(l, e, least) ==> FitsBelow(l, e, least) && 0 < e
  {
    TruncatedIs(e - Span(l), LargestAlign(l, least));
    SpanIsNatural(l, |l|);
  }

  /** Sections that need less than there is below the lowest fixed one all fit. */
  lemma {:induction false} EnoughRoom(ss: seq<Section>, first: int, rem: seq<Section>, genreloc: bool)
    requires PowerAligned(ss) && Fitted(ss, first, rem) && Need(ss) <= first
    ensures AllFit(ss, first, rem, genreloc)
  {
    hide StartOf, FitsBelow, Span, Chosen, PowerAligned, LargestAlign, AtAddresses;
    AllAligned(ss);
    var p := PlanOf(ss, first, rem, genreloc);
    StartBounds(Chosen(ss, Sec16), first, 1);
    StartBounds(rem, first, 1);
    StartBounds(Chosen(ss, Sec32Seg), p.sec16, 1);
    StartBounds(Chosen(ss, TextFSeg), p.seg, 16);
    StartBounds(Chosen(ss, FSeg), p.textfseg, 16);
    StartBounds(Chosen(ss, Flat), p.flatEnd, 16);
    StartBounds(Chosen(ss, Init), p.flat, 16);
    StartBounds(Chosen(ss, Low), p.init, 16);
  }

  /** So they do when the layout does not reach down to address zero. */
  lemma {:induction false} AboveZero(ss: seq<Section>, first: int, rem: seq<Section>, genreloc: bool)
    requires PowerAligned(ss) && PowerAligned(rem) && 0 < PlanOf(ss, first, rem, genreloc).low
    ensures AllFit(ss, first, rem, genreloc)
  {
    hide StartOf, FitsBelow, Span, Chosen, PowerAligned, LargestAlign;
    AllAligned(ss);
    var p := PlanOf(ss, first, rem, genreloc);
    StartBounds(Chosen(ss, Low), p.init, 16);
    StartBounds(Chosen(ss, Init), p.flat, 16);
    StartBounds(Chosen(ss, Flat), p.flatEnd, 16);
    StartBounds(Chosen(ss, FSeg), p.textfseg, 16);
    StartBounds(Chosen(ss, TextFSeg), p.seg, 16);
    StartBounds(Chosen(ss, Sec32Seg), p.sec16, 1);
    StartBounds(rem, first, 1);
  }

  lemma AllAligned(ss: seq<Section>)
    requires PowerAligned(ss)
    ensures forall c :: PowerAligned(Chosen(ss, c))
  {}

  /** The sections stand where the plan says. */
  ghost predicate Planned(ss: seq<Section>, rem: seq<Section>, p: Plan)
    requires PowerAligned(ss) && PowerAligned(rem)
    reads Chosen(ss, Sec32Seg), Chosen(ss, TextFSeg), Chosen(ss, FSeg), Chosen(ss, Flat), Chosen(ss, Init), Chosen(ss, Low), rem
  {
    UpperPlanned(ss, rem, p) && Packed(Chosen(ss, Flat), p.flat) && Packed(Chosen(ss, Init), p.init) && Packed(Chosen(ss, Low), p.low)
  }

  ghost predicate UpperPlanned(ss: seq<Section>, rem: seq<Section>, p: Plan)
    requires PowerAligned(ss) && PowerAligned(rem)
    reads Chosen(ss, Sec32Seg), Chosen(ss, TextFSeg), Chosen(ss, FSeg), rem
  {
    && Packed(rem, p.sec16) && Packed(Chosen(ss, Sec32Seg), p.seg)
    && Packed(Chosen(ss, TextFSeg), p.textfseg) && Packed(Chosen(ss, FSeg), p.fseg)
  }

  function UpperBands(p: Plan): Bands {
    map[Sec16 := (p.sec16, TOP), Sec32Seg := (p.seg, p.sec16), TextFSeg := (p.textfseg, p.seg), FSeg := (p.fseg, p.textfseg)]
  }

  function AllBands(p: Plan): Bands {
    UpperBands(p)[Flat := (p.flat, p.flatEnd)][Init := (p.init, p.flat)][Low := (p.low, p.init)]
  }

  /** Each band ends at or below the next one up. */
  predicate Rising(p: Plan) {
    p.low <= p.init <= p.flat <= p.flatEnd <= p.fseg <= p.textfseg <= p.seg <= p.sec16 <= TOP
  }

  function Rank(c: Category): int {
    match c
    case Low => 0
    case Init => 1
    case Flat => 2
    case FSeg => 3
    case TextFSeg => 4
    case Sec32Seg => 5
    case Sec16 | Fixed => 6
  }

  ghost predicate EndsBelow(s: Section, a: int)
    reads s
  {
    s.finalloc.Some? && s.finalloc.value + s.size <= a
  }

  ghost predicate GroupsInOrder(ss: seq<Section>)
    reads ss
  {
    forall s, t :: s in ss && t in ss && IsListed(s) && IsListed(t) && Rank(s.category) < Rank(t.category) ==>
      t.finalloc.Some? && EndsBelow(s, t.finalloc.value)
  }

  /** The groups lie in the order of their ranks: what fitSections left over below the fixed
      sections, and the flat sections below ZoneFSeg if that had to go right below the
      f-segment data. */
  ghost predicate Ordered(ss: seq<Section>, first: int, rem: seq<Section>, p: Plan, li: LayoutInfo)
    reads ss, rem
  {
    && (forall s :: s in rem ==> EndsBelow(s, first))
    && GroupsInOrder(ss)
    && (p.flatEnd != p.fseg ==> forall s :: s in Chosen(ss, Flat) ==> EndsBelow(s, li.zonefseg_start))
  }

  /** No group is empty. */
  predicate AllPresent(ss: seq<Section>) {
    forall c :: c in {Sec32Seg, TextFSeg, FSeg, Flat, Init, Low} ==> Chosen(ss, c) != []
  }

  /** ZoneFSeg is the space from the start of the segment up to the lowest section that stays,
      or the least space right below the f-segment data. */
  predicate Zoned(p: Plan, li: LayoutInfo, genreloc: bool) {
    && li.sec32init_start == p.init && li.sec32init_end == p.flat && li.sec32low_start == p.low && li.sec32low_end == p.init
    && li.final_readonly_start == (var stays := if genreloc then p.flat else p.init; if BUILD_BIOS_ADDR <= stays then BUILD_BIOS_ADDR else stays)
    && IsZone(p, li.zonefseg_start, li.zonefseg_end, genreloc)
  }

  predicate IsZone(p: Plan, start: int, end: int, genreloc: bool) {
    var stays := if genreloc then p.flat else p.init;
    if p.flatEnd == p.fseg then start == BUILD_BIOS_ADDR && end == stays && BUILD_BIOS_ADDR + BUILD_MIN_BIOSTABLE <= stays
    else end == p.fseg && start == p.flatEnd == p.fseg - BUILD_MIN_BIOSTABLE
  }

  lemma AllPlaced(ss: seq<Section>, first: int, rem: seq<Section>, p: Plan, li: LayoutInfo, genreloc: bool)
    requires Laid(ss, AllBands(p)) && Rising(p) && Zoned(p, li, genreloc) && forall s :: s in rem ==> EndsBelow(s, first)
    ensures GoodLayout(ss, li, genreloc) && Ordered(ss, first, rem, p, li)
  {
    hide Apart, Chosen, IsListed, InItsBand, Rising, IsZone, AllBands, Zoned, EndsBelow;
    ListedInBand(ss, p);
    forall s | s in ss ensures InItsBand(s, AllBands(p)) {}
    forall s | s in ss && IsListed(s) ensures s.finalloc.Some? && GoodPlace(s, li, genreloc) {
      PlaceIsGood(s, p, li, genreloc);
    }
    EveryGroup(ss, p);
    if p.flatEnd != p.fseg {
      forall s | s in Chosen(ss, Flat) ensures EndsBelow(s, li.zonefseg_start) { FlatBelowZone(s, p, li, genreloc); }
    }
  }

  lemma EveryGroup(ss: seq<Section>, p: Plan)
    ensures forall s :: s in ss ==> Group(s) in AllBands(p)
  {}

  lemma FlatBelowZone(s: Section, p: Plan, li: LayoutInfo, genreloc: bool)
    requires InItsBand(s, AllBands(p)) && Rising(p) && Zoned(p, li, genreloc) && IsListed(s) && s.category == Flat && p.flatEnd != p.fseg
    ensures EndsBelow(s, li.zonefseg_start)
  {}

  lemma PlaceIsGood(s: Section, p: Plan, li: LayoutInfo, genreloc: bool)
    requires InItsBand(s, AllBands(p)) && Rising(p) && Zoned(p, li, genreloc) && IsListed(s)
    ensures s.finalloc.Some? && GoodPlace(s, li, genreloc)
  {
    hide IsListed;
    assert Group(s) in AllBands(p);
  }

  lemma ListedInBand(ss: seq<Section>, p: Plan)
    requires Laid(ss, AllBands(p)) && Rising(p)
    ensures GroupsInOrder(ss)
  {
    hide Apart, IsListed, InItsBand, Rising, AllBands, Rank, EndsBelow;
    forall s, t | s in ss && t in ss && IsListed(s) && IsListed(t) && Rank(s.category) < Rank(t.category)
      ensures t.finalloc.Some? && EndsBelow(s, t.finalloc.value)
    {
      InOrderInBands(s, t, p);
    }
  }

  lemma InOrderInBands(s: Section, t: Section, p: Plan)
    requires InItsBand(s, AllBands(p)) && InItsBand(t, AllBands(p)) && Rising(p)
    requires IsListed(s) && IsListed(t) && Rank(s.category) < Rank(t.category)
    ensures t.finalloc.Some? && EndsBelow(s, t.finalloc.value)
  {
    hide IsListed;
    assert AllBands(p)[Group(s)].1 <= AllBands(p)[Group(t)].0;
  }

  /** The first and the last of the packed sections. */
  lemma {:induction false} PackedEnds(l: seq<Section>, e: int, least: nat)
    requires PowerAligned(l) && IsPow2(least) && 0 < least && Packed(l, StartOf(l, e, least))
    ensures InBand(l, StartOf(l, e, least), StartOf(l, e, least) + Span(l))
    ensures l != [] ==> l[0].finalloc == Some(StartOf(l, e, least))
                        && l[|l|-1].finalloc == Some(StartOf(l, e, least) + Span(l) - l[|l|-1].size)
  {
    hide StartOf, AlignUp, InOrder, Aligned, InBand, PowerAligned, Begin, End, IsPow2, LargestAlign;
    var start := StartOf(l, e, least);
    StartBounds(l, e, least);
    LargestIs(l, least);
    StartAligned(l, start, LargestAlign(l, least));
    EndShift(l, start, |l|);
    SpanIs(l);
    PackedMeans(l, start);
    if l != [] {
      assert l[0] in l;
      FirstBegins(l, start);
      EndNext(l, start, |l| - 1);
    }
  }

  lemma FirstBegins(l: seq<Section>, start: int)
    requires PowerAligned(l) && l != [] && 0 < l[0].align && start % l[0].align == 0
    ensures Begin(l, start, 0) == start
  {
    hide AlignUp;
    var a := l[0].align;
    AlignUpShift(start, 0, a);
    AlignUpIs(0, a);
    var q := AlignUp(0, a) / a;
    assert AlignUp(0, a) == q * a;
    if q > 0 { MulLe(1, a, q, a); }
  }

  lemma {:induction false} LargestIs(l: seq<Section>, least: nat)
    requires PowerAligned(l) && IsPow2(least)
    ensures IsPow2(LargestAlign(l, least)) && forall s :: s in l ==> s.align <= LargestAlign(l, least)
  {
    if l != [] {
      LargestIs(l[..|l|-1], least);
      assert l[|l|-1] in l;
      forall s | s in l ensures s == l[|l|-1] || s in l[..|l|-1] {}
    }
  }

  /** The last section ends where its group may end: the group fits. */
  lemma {:induction false} LastBelow(l: seq<Section>, e: int, least: nat)
    requires PowerAligned(l) && IsPow2(least) && 0 < least && Packed(l, StartOf(l, e, least))
    requires if l == [] then 0 <= e else EndsBelow(l[|l|-1], e)
    ensures FitsBelow(l, e, least)
  {
    hide StartOf, FitsBelow, Packed, InBand;
    PackedEnds(l, e, least);
    StartBounds(l, e, least);
  }

  /** Of two groups in order, the lower one fits below the upper one. */
  lemma {:induction false} GroupFits(ss: seq<Section>, c: Category, e: int, least: nat, t: Section)
    requires PowerAligned(ss) && IsPow2(least) && 0 < least && Chosen(ss, c) != []
    requires PowerAligned(Chosen(ss, c)) && Packed(Chosen(ss, c), StartOf(Chosen(ss, c), e, least))
    requires t in ss && IsListed(t) && Rank(c) < Rank(t.category) && t.finalloc == Some(e) && GroupsInOrder(ss)
    ensures FitsBelow(Chosen(ss, c), e, least)
  {
    hide StartOf, FitsBelow, Packed, Chosen;
    var l := Chosen(ss, c);
    assert l[|l|-1] in l;
    LastBelow(l, e, least);
  }

  /** A group that is not empty starts where the plan says. */
  lemma {:induction false} GroupStarts(ss: seq<Section>, c: Category, e: int, least: nat) returns (t: Section)
    requires PowerAligned(ss) && IsPow2(least) && 0 < least && Chosen(ss, c) != []
    requires PowerAligned(Chosen(ss, c)) && Packed(Chosen(ss, c), StartOf(Chosen(ss, c), e, least))
    ensures t in ss && IsListed(t) && t.category == c && t.finalloc == Some(StartOf(Chosen(ss, c), e, least))
  {
    hide StartOf, Packed, Chosen, InBand;
    PackedEnds(Chosen(ss, c), e, least);
    t := Chosen(ss, c)[0];
    assert t in Chosen(ss, c);
  }

  lemma {:induction false} OrderedUpperFit(ss: seq<Section>, first: int, rem: seq<Section>, p: Plan, genreloc: bool)
    requires PowerAligned(ss) && Fitted(ss, first, rem) && AllPresent(ss) && p == PlanOf(ss, first, rem, genreloc)
    requires UpperPlanned(ss, rem, p) && GroupsInOrder(ss) && forall s :: s in rem ==> EndsBelow(s, first)
    ensures UpperFit(ss, first, rem, p)
  {
    hide StartOf, FitsBelow, Chosen, Packed, PowerAligned, IsPow2, Span, LargestAlign, PlanOf, Fitted, GroupsInOrder, IsListed;
    AllAligned(ss);
    Sixteen();
    FirstIs(ss, first, rem);
    PlanIs(ss, first, rem, genreloc);
    LastBelow(rem, first, 1);
    var t := LowestTop(ss, first, rem);
    GroupFits(ss, Sec32Seg, p.sec16, 1, t);
    t := GroupStarts(ss, Sec32Seg, p.sec16, 1);
    GroupFits(ss, TextFSeg, p.seg, 16, t);
    t := GroupStarts(ss, TextFSeg, p.seg, 16);
    GroupFits(ss, FSeg, p.textfseg, 16, t);
  }

  lemma {:induction false} OrderedLowerFit(ss: seq<Section>, first: int, rem: seq<Section>, p: Plan, li: LayoutInfo, genreloc: bool)
    requires PowerAligned(ss) && PowerAligned(rem) && AllPresent(ss) && p == PlanOf(ss, first, rem, genreloc)
    requires Planned(ss, rem, p) && Zoned(p, li, genreloc) && Ordered(ss, first, rem, p, li)
    ensures LowerFit(ss, p)
  {
    hide StartOf, FitsBelow, Chosen, Packed, PowerAligned, IsPow2, Span, LargestAlign, PlanOf, GroupsInOrder, IsListed;
    AllAligned(ss);
    Sixteen();
    PlanIs(ss, first, rem, genreloc);
    var t;
    if p.flatEnd == p.fseg {
      t := GroupStarts(ss, FSeg, p.textfseg, 16);
      GroupFits(ss, Flat, p.flatEnd, 16, t);
    } else {
      assert Chosen(ss, Flat)[|Chosen(ss, Flat)|-1] in Chosen(ss, Flat);
      LastBelow(Chosen(ss, Flat), p.flatEnd, 16);
    }
    t := GroupStarts(ss, Flat, p.flatEnd, 16);
    GroupFits(ss, Init, p.flat, 16, t);
    t := GroupStarts(ss, Init, p.flat, 16);
    GroupFits(ss, Low, p.init, 16, t);
  }

  /** When no group is empty, the groups are in order only if all fit. */
  lemma {:induction false} OrderedFit(ss: seq<Section>, first: int, rem: seq<Section>, li: LayoutInfo, genreloc: bool)
    requires PowerAligned(ss) && Fitted(ss, first, rem) && AllPresent(ss)
    requires var p := PlanOf(ss, first, rem, genreloc);
             Planned(ss, rem, p) && Zoned(p, li, genreloc) && Ordered(ss, first, rem, p, li)
    ensures AllFit(ss, first, rem, genreloc)
  {
    hide Chosen, PowerAligned, PlanOf, UpperFit, LowerFit, UpperPlanned, GroupsInOrder, IsZone, Packed;
    var p := PlanOf(ss, first, rem, genreloc);
    OrderedUpperFit(ss, first, rem, p, genreloc);
    OrderedLowerFit(ss, first, rem, p, li, genreloc);
  }

  /** The runtime sections above the flat ones. */
  method PlaceUpper(ss: seq<Section>, genreloc: bool) returns (r: Option<int>, ghost first: int, ghost rem: seq<Section>)
    requires NoRepeats(ss) && PowerAligned(ss) && FixedFit(OfCategory(ss, Fixed))
    requires forall s :: s in ss ==> s.finalloc == None
    modifies ss
    ensures r.None? <==> exists s :: s in OfCategory(ss, Fixed) && s.align != 1
    ensures r.Some? ==> Laid(ss, map[]) && Fitted(ss, first, rem)
    ensures r.Some? ==> var p := PlanOf(ss, first, rem, genreloc);
              && r.value == p.fseg && UpperPlanned(ss, rem, p)
              && (UpperFit(ss, first, rem, p) ==>
                    Laid(ss, UpperBands(p)) && p.fseg <= p.textfseg <= p.seg <= p.sec16 <= first
                    && forall s :: s in rem ==> EndsBelow(s, first))
  {
    hide IsPow2, PowerAligned, FixedFit, NoRepeats, Laid, Chosen, Packed, StartOf, FitsBelow, AtAddresses, Span, LargestAlign,
         PlanOf, IsLowest, Fitted;
    AllAligned(ss);
    Sixteen();
    var top;
    top, first, rem := PlaceTop(ss);
    if top.None? {
      return None, first, rem;
    }
    var sec16_start := top.value;
    FirstIs(ss, first, rem);
    ghost var ok := FitsBelow(rem, first, 1);
    ghost var bands := map[Sec16 := (sec16_start, TOP)];
    Categories(ss, first, rem);
    var sec32seg_start, _ := Place(ss, Sec32Seg, sec16_start, 1, BUILD_BIOS_ADDR, ok, bands, map[]);
    assert Packed(rem, sec16_start) && Fitted(ss, first, rem);
    ok := ok && FitsBelow(Chosen(ss, Sec32Seg), sec16_start, 1);
    bands := bands[Sec32Seg := (sec32seg_start, sec16_start)];
    PlanIs(ss, first, rem, genreloc);
    ghost var p := PlanOf(ss, first, rem, genreloc);
    var sec32fseg_start := PlaceFSegs(ss, sec32seg_start, ok, bands, first, rem, p);
    assert bands[TextFSeg := (p.textfseg, p.seg)][FSeg := (p.fseg, p.textfseg)] == UpperBands(p);
    if FitsBelow(rem, first, 1) { RemBelow(rem, first); }
    return Some(sec32fseg_start), first, rem;
  }

  /** The two groups of sections for the f-segment. */
  method PlaceFSegs(ss: seq<Section>, endaddr: int, ghost ok: bool, ghost bands: Bands, ghost first: int, ghost rem: seq<Section>, ghost p: Plan)
    returns (fseg: int)
    requires NoRepeats(ss) && PowerAligned(ss) && Fitted(ss, first, rem) && PowerAligned(rem) && PowerAligned(Chosen(ss, Sec32Seg))
    requires PowerAligned(Chosen(ss, TextFSeg)) && PowerAligned(Chosen(ss, FSeg))
    requires Packed(rem, p.sec16) && Packed(Chosen(ss, Sec32Seg), p.seg) && Laid(ss, map[])
    requires endaddr == p.seg && p.textfseg == StartOf(Chosen(ss, TextFSeg), p.seg, 16) && p.fseg == StartOf(Chosen(ss, FSeg), p.textfseg, 16)
    requires bands.Keys == {Sec16, Sec32Seg} && (ok ==> Laid(ss, bands) && forall c :: c in bands ==> endaddr <= bands[c].0)
    modifies set s | s in ss && s.category in {TextFSeg, FSeg}
    ensures fseg == p.fseg && Laid(ss, map[]) && Fitted(ss, first, rem) && UpperPlanned(ss, rem, p)
    ensures ok && FitsBelow(Chosen(ss, TextFSeg), p.seg, 16) && FitsBelow(Chosen(ss, FSeg), p.textfseg, 16) ==>
              p.fseg <= p.textfseg <= p.seg && Laid(ss, bands[TextFSeg := (p.textfseg, p.seg)][FSeg := (p.fseg, p.textfseg)])
  {
    hide IsPow2, PowerAligned, NoRepeats, Laid, Chosen, Packed, StartOf, FitsBelow, Fitted;
    Sixteen();
    Categories(ss, first, rem);
    var textfseg, align := Place(ss, TextFSeg, endaddr, 16, 0, ok, bands, map[]);
    assert Packed(rem, p.sec16) && Packed(Chosen(ss, Sec32Seg), p.seg) && Fitted(ss, first, rem);
    ghost var ok' := ok && FitsBelow(Chosen(ss, TextFSeg), endaddr, 16);
    fseg, align := Place(ss, FSeg, textfseg, 16, BUILD_BIOS_ADDR, ok', bands[TextFSeg := (textfseg, endaddr)], map[]);
    assert Packed(rem, p.sec16) && Packed(Chosen(ss, Sec32Seg), p.seg) && Packed(Chosen(ss, TextFSeg), p.textfseg);
  }

  lemma RemBelow(rem: seq<Section>, first: int)
    requires PowerAligned(rem) && Packed(rem, StartOf(rem, first, 1)) && FitsBelow(rem, first, 1)
    ensures forall s :: s in rem ==> EndsBelow(s, first)
  {
    hide Packed, StartOf, FitsBelow, Span;
    Sixteen();
    PackedEnds(rem, first, 1);
    StartBounds(rem, first, 1);
  }

  /** The flat sections and below them the init ones. */
  method PlaceFlat(ss: seq<Section>, endaddr: int, ghost ok: bool, ghost bands: Bands, ghost kept: Bands,
                   ghost first: int, ghost rem: seq<Section>, ghost p: Plan) returns (flat: int, init: int, align: nat)
    requires NoRepeats(ss) && PowerAligned(ss) && Fitted(ss, first, rem) && UpperPlanned(ss, rem, p)
    requires Laid(ss, kept) && kept.Keys <= {Sec16, Sec32Seg, TextFSeg, FSeg} && bands.Keys == {Sec16, Sec32Seg, TextFSeg, FSeg}
    requires ok ==> kept == bands && forall c :: c in bands ==> endaddr <= bands[c].0
    modifies set s | s in ss && s.category in {Flat, Init}
    ensures Laid(ss, kept) && Fitted(ss, first, rem) && UpperPlanned(ss, rem, p)
    ensures PowerAligned(Chosen(ss, Flat)) && Packed(Chosen(ss, Flat), flat) && flat == StartOf(Chosen(ss, Flat), endaddr, 16)
    ensures PowerAligned(Chosen(ss, Init)) && Packed(Chosen(ss, Init), init) && init == StartOf(Chosen(ss, Init), flat, 16)
    ensures ok && FitsBelow(Chosen(ss, Flat), endaddr, 16) && FitsBelow(Chosen(ss, Init), flat, 16) ==>
              init <= flat <= endaddr && Laid(ss, bands[Flat := (flat, endaddr)][Init := (init, flat)])
  {
    hide IsPow2, PowerAligned, NoRepeats, Laid, Chosen, Packed, StartOf, FitsBelow, Fitted;
    Sixteen();
    Categories(ss, first, rem);
    flat, align := Place(ss, Flat, endaddr, 16, 0, ok, bands, kept);
    ghost var ok' := ok && FitsBelow(Chosen(ss, Flat), endaddr, 16);
    ghost var bands' := bands[Flat := (flat, endaddr)];
    init, align := Place(ss, Init, flat, 16, 0, ok', bands', kept);
  }

  lemma BandsRise(p: Plan)
    ensures UpperBands(p).Keys == {Sec16, Sec32Seg, TextFSeg, FSeg}
    ensures p.fseg <= p.textfseg <= p.seg <= p.sec16 ==> forall c :: c in UpperBands(p) ==> p.fseg <= UpperBands(p)[c].0
  {}

  /** The starts of the flat and the init sections, and ZoneFSeg. */
  datatype Runtime = Runtime(flat: int, init: int, align: nat, zoneStart: int, zoneEnd: int)

  /** The runtime sections, the init sections, and ZoneFSeg between or below them. */
  method PlaceRuntime(ss: seq<Section>, genreloc: bool) returns (r: Option<Runtime>, ghost first: int, ghost rem: seq<Section>)
    requires NoRepeats(ss) && PowerAligned(ss) && FixedFit(OfCategory(ss, Fixed))
    requires forall s :: s in ss ==> s.finalloc == None
    modifies ss
    ensures r.None? <==> exists s :: s in OfCategory(ss, Fixed) && s.align != 1
    ensures r.Some? ==> Laid(ss, map[]) && Fitted(ss, first, rem)
    ensures r.Some? ==> var p := PlanOf(ss, first, rem, genreloc);
              && r.value.flat == p.flat && r.value.init == p.init && IsZone(p, r.value.zoneStart, r.value.zoneEnd, genreloc)
              && UpperPlanned(ss, rem, p) && Packed(Chosen(ss, Flat), p.flat) && Packed(Chosen(ss, Init), p.init)
              && (AllFit(ss, first, rem, genreloc) ==>
                    Laid(ss, UpperBands(p)[Flat := (p.flat, p.flatEnd)][Init := (p.init, p.flat)])
                    && p.init <= p.flat <= p.flatEnd <= p.fseg <= p.textfseg <= p.seg <= p.sec16 <= TOP)
  {
    hide IsPow2, PowerAligned, FixedFit, NoRepeats, Laid, Chosen, AllApart, Packed, StartOf, FitsBelow, AtAddresses, Span, LargestAlign,
         PlanOf, IsLowest, Fitted, UpperPlanned, UpperBands, UpperFit;
    AllAligned(ss);
    var top;
    top, first, rem := PlaceUpper(ss, genreloc);
    if top.None? {
      return None, first, rem;
    }
    var sec32fseg_start := top.value;
    FirstIs(ss, first, rem);
    ghost var p := PlanOf(ss, first, rem, genreloc);
    PlanIs(ss, first, rem, genreloc);
    ghost var ok := UpperFit(ss, first, rem, p);
    ghost var bands := UpperBands(p);
    ghost var kept := if ok then bands else map[];
    BandsRise(p);
    var sec32flat_start, sec32init_start, sec32init_align := PlaceFlat(ss, sec32fseg_start, ok, bands, kept, first, rem, p);

    var zonefseg_end := if genreloc then sec32flat_start else sec32init_start;
    var zonefseg_start := BUILD_BIOS_ADDR;
    if zonefseg_start + BUILD_MIN_BIOSTABLE > zonefseg_end {
      zonefseg_end := sec32fseg_start;
      zonefseg_start := zonefseg_end - BUILD_MIN_BIOSTABLE;
      sec32flat_start, sec32init_start, sec32init_align := PlaceFlat(ss, zonefseg_start, ok, bands, kept, first, rem, p);
    }
    LaidLess(ss, kept, map[]);
    return Some(Runtime(sec32flat_start, sec32init_start, sec32init_align, zonefseg_start, zonefseg_end)), first, rem;
  }

  /** Where the low data ends finally, and the segment that it is addressed from. */
  function LowPlace(uppermemory: bool, readonly: int): (r: (int, int))
    ensures r.0 == if uppermemory then readonly else BUILD_LOWRAM_END
    ensures if uppermemory then BUILD_ROM_START <= r.1 && r.1 % 2048 == 0 && r.0 - 64 * 1024 <= r.1
            else r.1 == BUILD_LOWRAM_END - 64 * 1024
  {
    var end := if uppermemory then readonly else BUILD_LOWRAM_END;
    var base := end - 64 * 1024;
    AlignUpIs(base, 2 * 1024);
    if !uppermemory then (end, base)
    else if BUILD_ROM_START < AlignUp(base, 2 * 1024) then (end, AlignUp(base, 2 * 1024))
    else (end, BUILD_ROM_START)
  }

  lemma ZoneIsLarge(p: Plan, start: int, end: int, genreloc: bool)
    requires IsZone(p, start, end, genreloc)
    ensures end - start >= BUILD_MIN_BIOSTABLE && (start == BUILD_BIOS_ADDR || end - start == BUILD_MIN_BIOSTABLE)
    ensures end - start > 2048 ==> end == if genreloc then p.flat else p.init
  {}

  /** The conditions of the layout, given what fitSections returned and left over: if every group
      fits, all sections are apart, aligned and in order, and ZoneFSeg is free; when no group is
      empty they are in order only then.  It suffices that the sections need no more space than
      there is below the lowest fixed one. */
  method DoLayout(sections: seq<Section>, uppermemory: bool, genreloc: bool)
    returns (r: Option<LayoutInfo>, ghost first: int, ghost rem: seq<Section>)
    requires NoRepeats(sections) && PowerAligned(sections) && FixedFit(OfCategory(sections, Fixed))
    requires forall s :: s in sections ==> s.finalloc == None
    modifies sections
    ensures r.None? <==> exists s :: s in OfCategory(sections, Fixed) && s.align != 1
    ensures r.Some? ==> Fitted(sections, first, rem)
    ensures r.Some? ==> var p := PlanOf(sections, first, rem, genreloc);
              && Planned(sections, rem, p) && Zoned(p, r.value, genreloc)
              && (AllFit(sections, first, rem, genreloc) ==> GoodLayout(sections, r.value, genreloc) && Ordered(sections, first, rem, p, r.value))
              && (AllPresent(sections) && Ordered(sections, first, rem, p, r.value) ==> AllFit(sections, first, rem, genreloc))
    ensures r.Some? && Need(sections) <= first ==> AllFit(sections, first, rem, genreloc)
    ensures r.Some? && 0 < r.value.sec32low_start ==> AllFit(sections, first, rem, genreloc)
    ensures r.Some? ==> r.value.zonefseg_end - r.value.zonefseg_start >= BUILD_MIN_BIOSTABLE
    ensures r.Some? ==> r.value.zonefseg_start == BUILD_BIOS_ADDR || r.value.zonefseg_end - r.value.zonefseg_start == BUILD_MIN_BIOSTABLE
    ensures r.Some? && r.value.zonefseg_end - r.value.zonefseg_start > 2048 ==>
              r.value.zonefseg_end == if genreloc then r.value.sec32init_end else r.value.sec32init_start
    ensures r.Some? ==> var kept := if genreloc then r.value.sec32init_end else r.value.sec32init_start;
              r.value.final_readonly_start == if 0xf0000 <= kept then 0xf0000 else kept
    ensures r.Some? ==> r.value.final_sec32low_start + (r.value.sec32low_end - r.value.sec32low_start) ==
                        if uppermemory then r.value.final_readonly_start else BUILD_LOWRAM_END
    ensures r.Some? ==> if uppermemory then BUILD_ROM_START <= r.value.zonelow_base && r.value.zonelow_base % 2048 == 0
                        else r.value.zonelow_base == BUILD_LOWRAM_END - 64 * 1024
    ensures r.Some? ==> forall s :: s in sections && s.finalloc.Some? && s.category in {Fixed, Sec16, Sec32Seg, FSeg} ==>
              s.finalsegloc == Some(s.finalloc.value - 0xf0000)
    ensures r.Some? ==> forall s :: s in sections && s.finalloc.Some? && s.category in {TextFSeg, Flat, Init} ==>
              s.finalsegloc == s.finalloc
    ensures r.Some? ==> forall s :: s in Chosen(sections, Low) ==>
              SegmentAt(s, r.value.zonelow_base - (r.value.final_sec32low_start - r.value.sec32low_start))
  {
    hide IsPow2, PowerAligned, FixedFit, NoRepeats, Laid, GoodLayout, Ordered, Chosen, AllApart, Packed, StartOf, FitsBelow, AtAddresses,
         Need, Span, LargestAlign, AllPresent, PlanOf, IsLowest, Fitted, UpperPlanned, UpperBands, AllBands, AllFit, Planned, UpperFit, LowerFit, Rising, IsZone, SegmentAt, LowPlace;
    AllAligned(sections);
    var q;
    q, first, rem := PlaceRuntime(sections, genreloc);
    if q.None? {
      return None, first, rem;
    }
    FirstIs(sections, first, rem);
    var Runtime(sec32flat_start, sec32init_start, sec32init_align, zonefseg_start, zonefseg_end) := q.value;
    var readonly := if genreloc then sec32flat_start else sec32init_start;
    var final_readonly_start := if BUILD_BIOS_ADDR <= readonly then BUILD_BIOS_ADDR else readonly;

    var sec32low_end := sec32init_start;
    var (final_sec32low_end, zonelow_base) := LowPlace(uppermemory, final_readonly_start);
    var relocdelta := final_sec32low_end - sec32low_end;
    PlanIs(sections, first, rem, genreloc);
    ghost var p := PlanOf(sections, first, rem, genreloc);
    ZoneIsLarge(p, zonefseg_start, zonefseg_end, genreloc);
    var sec32low_start := PlaceLow(sections, sec32low_end, zonelow_base - relocdelta, first, rem, p, genreloc);
    var li := LayoutInfo(sec32init_start, sec32flat_start, sec32init_align, sec32low_start, sec32low_end, zonelow_base,
                         sec32low_start + relocdelta, zonefseg_start, zonefseg_end, final_readonly_start);
    Judge(sections, first, rem, li, genreloc);
    AllInSegments(sections);
    return Some(li), first, rem;
  }

  /** The last group, and what follows if all fit. */
  method PlaceLow(ss: seq<Section>, endaddr: int, segoffset: int, ghost first: int, ghost rem: seq<Section>, ghost p: Plan, ghost genreloc: bool)
    returns (start: int)
    requires NoRepeats(ss) && PowerAligned(ss) && PowerAligned(rem) && Fitted(ss, first, rem)
    requires UpperPlanned(ss, rem, p) && PowerAligned(Chosen(ss, Flat)) && Packed(Chosen(ss, Flat), p.flat)
    requires PowerAligned(Chosen(ss, Init)) && Packed(Chosen(ss, Init), p.init)
    requires p == PlanOf(ss, first, rem, genreloc) && endaddr == p.init && Laid(ss, map[])
    requires AllFit(ss, first, rem, genreloc) ==>
               Laid(ss, UpperBands(p)[Flat := (p.flat, p.flatEnd)][Init := (p.init, p.flat)])
               && p.init <= p.flat <= p.flatEnd <= p.fseg <= p.textfseg <= p.seg <= p.sec16 <= TOP
    modifies set s | s in ss && s.category == Low
    ensures start == p.low && Fitted(ss, first, rem) && Planned(ss, rem, p)
    ensures AllFit(ss, first, rem, genreloc) ==> Rising(p) && Laid(ss, AllBands(p))
    ensures Laid(ss, map[]) && forall s :: s in Chosen(ss, Low) ==> SegmentAt(s, segoffset)
  {
    hide IsPow2, PowerAligned, NoRepeats, Laid, Chosen, Packed, StartOf, FitsBelow, UpperFit, PlanOf, UpperPlanned, Fitted;
    Sixteen();
    PlanIs(ss, first, rem, genreloc);
    Categories(ss, first, rem);
    var align;
    start, align := Place(ss, Low, endaddr, 16, segoffset, AllFit(ss, first, rem, genreloc),
                          UpperBands(p)[Flat := (p.flat, p.flatEnd)][Init := (p.init, p.flat)], map[]);
  }

  lemma Judge(ss: seq<Section>, first: int, rem: seq<Section>, li: LayoutInfo, genreloc: bool)
    requires PowerAligned(ss) && Fitted(ss, first, rem)
    requires var p := PlanOf(ss, first, rem, genreloc);
             && Planned(ss, rem, p) && Zoned(p, li, genreloc)
             && (AllFit(ss, first, rem, genreloc) ==> Laid(ss, AllBands(p)) && Rising(p))
    ensures var p := PlanOf(ss, first, rem, genreloc);
            && (AllFit(ss, first, rem, genreloc) ==> GoodLayout(ss, li, genreloc) && Ordered(ss, first, rem, p, li))
            && (AllPresent(ss) && Ordered(ss, first, rem, p, li) ==> AllFit(ss, first, rem, genreloc))
    ensures Need(ss) <= first ==> AllFit(ss, first, rem, genreloc)
    ensures 0 < li.sec32low_start ==> AllFit(ss, first, rem, genreloc)
  {
    hide PowerAligned, Laid, GoodLayout, Ordered, Chosen, StartOf, FitsBelow, AtAddresses, Need, Span, LargestAlign, AllPresent, Packed;
    var p := PlanOf(ss, first, rem, genreloc);
    if AllFit(ss, first, rem, genreloc) {
      RemBelow(rem, first);
      AllPlaced(ss, first, rem, p, li, genreloc);
    }
    if AllPresent(ss) && Ordered(ss, first, rem, p, li) { OrderedFit(ss, first, rem, li, genreloc); }
    if Need(ss) <= first { EnoughRoom(ss, first, rem, genreloc); }
    if 0 < li.sec32low_start { AboveZero(ss, first, rem, genreloc); }
  }

  lemma AllInSegments(ss: seq<Section>)
    requires Laid(ss, map[])
    ensures forall s :: s in ss && s.finalloc.Some? && s.category in {Fixed, Sec16, Sec32Seg, FSeg} ==>
              s.finalsegloc == Some(s.finalloc.value - 0xf0000)
    ensures forall s :: s in ss && s.finalloc.Some? && s.category in {TextFSeg, Flat, Init} ==> s.finalsegloc == s.finalloc
  {
    hide InItsBand, IsListed, Apart;
  }

  lemma GroupMembers(ss: seq<Section>, c: Category)
    ensures forall j :: 0 <= j < |Chosen(ss, c)| ==> Chosen(ss, c)[j].category == c
  {
    hide Chosen;
    forall j | 0 <= j < |Chosen(ss, c)| ensures Chosen(ss, c)[j].category == c { assert Chosen(ss, c)[j] in Chosen(ss, c); }
  }

  /** The groups are apart, so placing one leaves the others alone. */
  lemma Categories(ss: seq<Section>, first: int, rem: seq<Section>)
    requires Fitted(ss, first, rem)
    ensures forall c, j :: 0 <= j < |Chosen(ss, c)| ==> Chosen(ss, c)[j].category == c
    ensures forall j :: 0 <= j < |OfCategory(ss, Fixed)| ==> OfCategory(ss, Fixed)[j].category == Fixed
    ensures forall j :: 0 <= j < |rem| ==> rem[j].category == Sec16
  {
    hide Chosen;
    forall c ensures forall j :: 0 <= j < |Chosen(ss, c)| ==> Chosen(ss, c)[j].category == c { GroupMembers(ss, c); }
    forall j | 0 <= j < |rem| ensures rem[j].category == Sec16 { assert rem[j] in rem; }
    forall j | 0 <= j < |OfCategory(ss, Fixed)| ensures OfCategory(ss, Fixed)[j].category == Fixed {
      assert OfCategory(ss, Fixed)[j] in OfCategory(ss, Fixed);
    }
  }

  lemma FirstIs(ss: seq<Section>, first: int, rem: seq<Section>)
    requires Fitted(ss, first, rem)
    ensures BUILD_BIOS_ADDR <= first < TOP && PowerAligned(rem) && forall s :: s in rem ==> s in ss && s.category == Sec16
  {}

  /** The lowest 16-bit section. */
  lemma {:induction false} LowestTop(ss: seq<Section>, first: int, rem: seq<Section>) returns (t: Section)
    requires Fitted(ss, first, rem) && Packed(rem, StartOf(rem, first, 1))
    ensures t in ss && IsListed(t) && Rank(t.category) == 6 && t.finalloc == Some(StartOf(rem, first, 1))
  {
    hide Packed, Chosen;
    Sixteen();
    PackedEnds(rem, first, 1);
    if rem != [] {
      t := rem[0];
      assert t in Chosen(ss, Sec16);
    } else {
      t :| t in OfCategory(ss, Fixed) && t.addr == first - BUILD_BIOS_ADDR;
    }
  }

  // ---- Sections that do not fit ----

  /** With a full 16-bit segment and one byte more of flat code than there is below it, rounding
      the start towards zero lifts the code into ZoneFSeg. */
  method TooMuchCode() returns (f: Section, g: Section, li: LayoutInfo)
    ensures g.category == Flat && g.size == 0xf0001 && f.category == Fixed && f.size == BUILD_BIOS_SIZE
    ensures !GoodLayout([f, g], li, true) && g.finalloc.Some?
    ensures g.finalloc.value < li.zonefseg_start < g.finalloc.value + g.size
  {
    hide FixedFit, PowerAligned, Fitted, Planned, Zoned, AllFit, Ordered, GoodLayout, AllPresent, PlanOf, Chosen, OfCategory;
    f := new Section("", BUILD_BIOS_SIZE, 1, Fixed, Other, 0);
    g := new Section("", 0xf0001, 1, Flat, Text, 0);
    var ss := [f, g];
    TwoGroups(f, g);
    var r, first, rem := DoLayout(ss, true, true);
    if r.None? {
      assert false;
    }
    li := r.value;
    Overlong(f, g, first, rem, li);
  }

  lemma TwoGroups(f: Section, g: Section)
    requires f != g && f.category == Fixed && g.category == Flat && g.prefix == Text && f.align == g.align == 1
    requires f.addr == 0 && f.size == BUILD_BIOS_SIZE
    ensures NoRepeats([f, g]) && PowerAligned([f, g]) && OfCategory([f, g], Fixed) == [f] && FixedFit([f])
    ensures Chosen([f, g], Flat) == [g] && forall c :: c != Flat && c != Fixed ==> Chosen([f, g], c) == []
  {
    hide Chosen, OfCategory;
    var ss := [f, g];
    Sixteen();
    assert f in ss && g in ss;
    OnlyOne(OfCategory(ss, Fixed), f);
    ChosenNoRepeats(ss, Flat);
    OnlyOne(Chosen(ss, Flat), g);
    forall c | c != Flat && c != Fixed ensures Chosen(ss, c) == [] {
      FirstMembers(Chosen(ss, c));
    }
  }

  lemma FirstMembers(l: seq<Section>)
    ensures (l != [] ==> l[0] in l) && (|l| > 1 ==> l[1] in l)
  {}

  lemma OnlyOne(l: seq<Section>, x: Section)
    requires NoRepeats(l) && x in l && forall s :: s in l ==> s == x
    ensures l == [x]
  {
    FirstMembers(l);
  }

  lemma Overlong(f: Section, g: Section, first: int, rem: seq<Section>, li: LayoutInfo)
    requires f != g && f.category == Fixed && g.category == Flat && g.prefix == Text && f.align == g.align == 1
    requires f.addr == 0 && f.size == BUILD_BIOS_SIZE && g.size == 0xf0001
    requires PowerAligned([f, g]) && Fitted([f, g], first, rem)
    requires var p := PlanOf([f, g], first, rem, true); Planned([f, g], rem, p) && Zoned(p, li, true)
    ensures g.finalloc.Some? && g.finalloc.value < li.zonefseg_start < g.finalloc.value + g.size
    ensures !GoodLayout([f, g], li, true)
  {
    var ss := [f, g];
    hide Chosen, OfCategory, AtAddresses, Packed, PlanOf, Span, LargestAlign, PowerAligned, AllApart, StartOf;
    TwoGroups(f, g);
    AllAligned(ss);
    PlanIs(ss, first, rem, true);
    var p := PlanOf(ss, first, rem, true);
    NothingLeft(ss, rem);
    OneSection(g);
    NoSection();
    Sixteen();
    PackedEnds([g], p.flatEnd, 16);
    assert g in ss && Stays(g, true);
  }

  lemma NothingLeft(ss: seq<Section>, rem: seq<Section>)
    requires Chosen(ss, Sec16) == [] && forall s :: s in rem ==> s in Chosen(ss, Sec16)
    ensures rem == []
  {
    FirstMembers(rem);
  }

  lemma OneSection(g: Section)
    requires g.align == 1
    ensures PowerAligned([g]) && Span([g]) == g.size && LargestAlign([g], 16) == 16
    ensures forall e :: StartOf([g], e, 16) == Truncated(e - g.size, 16) * 16
  {
    Sixteen();
    assert [g][..0] == [];
  }

  lemma NoSection()
    ensures PowerAligned([]) && Span([]) == 0
    ensures forall e :: StartOf([], e, 16) == Truncated(e, 16) * 16 && StartOf([], e, 1) == Truncated(e, 1) * 1
  {}

  lemma Sixteen()
    ensures IsPow2(16) && IsPow2(1)
  {
    assert IsPow2(4) by { assert IsPow2(2); }
  }
}
