// The BIOS memory map of src/e820map.c: a bounded table of typed address
// ranges, kept sorted, disjoint and maximally merged by e820_add.

module E820 {

  const MAX_E820: nat := 32
  const TWO64: nat := 0x1_0000_0000_0000_0000

  type u64 = x: int | 0 <= x < TWO64
  type u32 = x: int | 0 <= x < 0x1_0000_0000

  const RAM: u32 := 1
  const RESERVED: u32 := 2

  /** The type that stands for "no entry": (u32)-1. */
  const HOLE: u32 := 0xFFFF_FFFF

  datatype Entry = Entry(start: u64, size: u64, typ: u32) {
    function End(): int { start + size }

    predicate Covers(a: int) { start <= a < End() }
  }

  /** The type the table gives to address `a`, HOLE where no entry covers it. */
  function TypeAt(s: seq<Entry>, a: int): u32 {
    if s == [] then HOLE
    else if s[0].Covers(a) then s[0].typ
    else TypeAt(s[1..], a)
  }

  /** Entries are non-empty, do not wrap, and carry a real type. */
  predicate WellFormed(s: seq<Entry>) {
    forall k :: 0 <= k < |s| ==> 0 < s[k].size && s[k].End() < TWO64 && s[k].typ != HOLE
  }

  /** `e` lies below `f`, and the two could not be one entry. */
  predicate Below(e: Entry, f: Entry) {
    e.End() <= f.start && (e.End() == f.start ==> e.typ != f.typ)
  }

  /** Sorted, disjoint, and no two touching entries share a type. */
  predicate Canonical(s: seq<Entry>) {
    WellFormed(s) && forall j, k :: 0 <= j < k < |s| ==> Below(s[j], s[k])
  }

  /** What the map must say after [start, start+size) is given type `typ`. */
  function Overwritten(s: seq<Entry>, start: int, size: int, typ: u32, a: int): u32 {
    if start <= a < start + size then typ else TypeAt(s, a)
  }

  ghost predicate IsOverwrite(t: seq<Entry>, s: seq<Entry>, start: int, size: int, typ: u32) {
    forall a :: TypeAt(t, a) == Overwritten(s, start, size, typ, a)
  }

  // ---- TypeAt over pieces of a table ----

  lemma TypeAtConcat(s: seq<Entry>, t: seq<Entry>, a: int)
    ensures TypeAt(s + t, a) ==
            if (exists k :: 0 <= k < |s| && s[k].Covers(a)) then TypeAt(s, a) else TypeAt(t, a)
  {
    if s == [] {
      assert s + t == t;
    } else {
      assert (s + t)[1..] == s[1..] + t;
      TypeAtConcat(s[1..], t, a);
      if exists k :: 0 <= k < |s| && s[k].Covers(a) {
        var k :| 0 <= k < |s| && s[k].Covers(a);
        if k > 0 { assert s[1..][k-1].Covers(a); }
      } else {
        forall k | 0 <= k < |s[1..]| ensures !s[1..][k].Covers(a) { assert s[1..][k] == s[k+1]; }
      }
    }
  }

  lemma TypeAtNone(s: seq<Entry>, a: int)
    requires forall k :: 0 <= k < |s| ==> !s[k].Covers(a)
    ensures TypeAt(s, a) == HOLE
  {
    if s != [] { TypeAtNone(s[1..], a); }
  }

  /** An entry put in at `i` shows through wherever no earlier entry covers. */
  lemma InsertReads(c: seq<Entry>, i: nat, e: Entry, a: int)
    requires i <= |c|
    requires forall k :: 0 <= k < i ==> !c[k].Covers(a)
    ensures TypeAt(c[..i] + [e] + c[i..], a) == if e.Covers(a) then e.typ else TypeAt(c, a)
  {
    assert c[..i] + [e] + c[i..] == c[..i] + ([e] + c[i..]);
    TypeAtConcat(c[..i], [e] + c[i..], a);
    assert c == c[..i] + c[i..];
    TypeAtConcat(c[..i], c[i..], a);
    assert ([e] + c[i..])[1..] == c[i..];
  }

  /** An entry that does not cover `a` may come or go. */
  lemma InsertKeeps(c: seq<Entry>, i: nat, e: Entry, a: int)
    requires i <= |c| && !e.Covers(a)
    ensures TypeAt(c[..i] + [e] + c[i..], a) == TypeAt(c, a)
  {
    assert c[..i] + [e] + c[i..] == c[..i] + ([e] + c[i..]);
    TypeAtConcat(c[..i], [e] + c[i..], a);
    assert c == c[..i] + c[i..];
    TypeAtConcat(c[..i], c[i..], a);
    assert ([e] + c[i..])[1..] == c[i..];
  }

  lemma DropKeeps(c: seq<Entry>, i: nat, a: int)
    requires i < |c| && !c[i].Covers(a)
    ensures TypeAt(c[..i] + c[i+1..], a) == TypeAt(c, a)
  {
    var d := c[..i] + c[i+1..];
    assert d[..i] == c[..i] && d[i..] == c[i+1..];
    assert c == d[..i] + [c[i]] + d[i..];
    InsertKeeps(d, i, c[i], a);
  }

  /** Changing one entry's bounds is invisible where both versions agree. */
  lemma ReplaceKeeps(c: seq<Entry>, i: nat, e: Entry, a: int)
    requires i < |c| && e.typ == c[i].typ && (e.Covers(a) <==> c[i].Covers(a))
    ensures TypeAt(c[i := e], a) == TypeAt(c, a)
  {
    assert c == c[..i] + ([c[i]] + c[i+1..]);
    assert c[i := e] == c[..i] + ([e] + c[i+1..]);
    TypeAtConcat(c[..i], [c[i]] + c[i+1..], a);
    TypeAtConcat(c[..i], [e] + c[i+1..], a);
    assert ([e] + c[i+1..])[1..] == c[i+1..] == ([c[i]] + c[i+1..])[1..];
  }

  // ---- Canonical tables by pieces ----

  predicate Joins(p: seq<Entry>, q: seq<Entry>) {
    p == [] || q == [] || Below(p[|p|-1], q[0])
  }

  lemma CanonicalConcat(p: seq<Entry>, q: seq<Entry>)
    requires Canonical(p) && Canonical(q) && Joins(p, q)
    ensures Canonical(p + q)
  {
    var t := p + q;
    assert WellFormed(t);
    forall j, k | 0 <= j < k < |t| ensures Below(t[j], t[k]) {
      if j < |p| <= k {
        assert j == |p| - 1 || Below(p[j], p[|p|-1]);
        assert k == |p| || Below(q[0], q[k - |p|]);
      }
    }
  }

  lemma CanonicalParts(c: seq<Entry>, i: nat)
    requires Canonical(c) && i <= |c|
    ensures Canonical(c[..i]) && Canonical(c[i..]) && Joins(c[..i], c[i..])
  {}

  // ---- A canonical table is determined by the map it denotes ----

  lemma TypeAtFirst(s: seq<Entry>)
    requires Canonical(s) && s != []
    ensures forall a :: a < s[0].start ==> TypeAt(s, a) == HOLE
    ensures forall a :: s[0].Covers(a) ==> TypeAt(s, a) == s[0].typ
    ensures TypeAt(s, s[0].End()) != s[0].typ
  {
    forall a | a < s[0].start ensures TypeAt(s, a) == HOLE { TypeAtNone(s, a); }
    var a := s[0].End();
    assert TypeAt(s, a) == TypeAt(s[1..], a);
    if |s| > 1 && s[1].start == a {
      assert s[1..][0] == s[1];
      assert s[1].Covers(a);
    } else {
      forall k | 0 <= k < |s[1..]| ensures !s[1..][k].Covers(a) {
        assert s[1..][k] == s[k+1];
        if k > 0 { assert s[1].End() <= s[k+1].start; }
      }
      TypeAtNone(s[1..], a);
    }
  }

  lemma TailCanonical(s: seq<Entry>)
    requires Canonical(s) && s != []
    ensures Canonical(s[1..])
    ensures forall a :: TypeAt(s[1..], a) == if a < s[0].End() then HOLE else TypeAt(s, a)
  {
    forall a ensures TypeAt(s[1..], a) == if a < s[0].End() then HOLE else TypeAt(s, a) {
      if a < s[0].End() { TypeAtNone(s[1..], a); }
    }
  }

  /** Two canonical tables that denote the same map are the same table. */
  lemma {:induction false} CanonicalUnique(s: seq<Entry>, t: seq<Entry>)
    requires Canonical(s) && Canonical(t)
    requires forall a :: TypeAt(s, a) == TypeAt(t, a)
    ensures s == t
  {
    if s != [] { TypeAtFirst(s); assert TypeAt(s, s[0].start) == s[0].typ; }
    if t != [] { TypeAtFirst(t); assert TypeAt(t, t[0].start) == t[0].typ; }
    if s == [] || t == [] {
    } else {
      assert s[0].start == t[0].start;
      assert s[0].typ == t[0].typ;
      assert TypeAt(t, s[0].End()) != t[0].typ && TypeAt(s, t[0].End()) != s[0].typ;
      assert !t[0].Covers(s[0].End()) && !s[0].Covers(t[0].End());
      assert s[0].End() == t[0].End();
      TailCanonical(s);
      TailCanonical(t);
      CanonicalUnique(s[1..], t[1..]);
      assert s == [s[0]] + s[1..] && t == [t[0]] + t[1..];
    }
  }

  // ---- The size of the new table ----

  /** What is left of an entry when [start, end) is given type `typ`: a piece below it unless
      it merges, and one above. */
  function Pieces(e: Entry, start: int, end: int, typ: u32): int {
    (if e.start < start && !(e.typ == typ && start <= e.End()) then 1 else 0)
    + (if end < e.End() && !(e.typ == typ && e.start <= end) then 1 else 0)
  }

  function PiecesOf(s: seq<Entry>, start: int, end: int, typ: u32): int {
    if s == [] then 0 else Pieces(s[0], start, end, typ) + PiecesOf(s[1..], start, end, typ)
  }

  /** The entries that the table needs afterwards. */
  function Needed(s: seq<Entry>, start: int, size: int, typ: u32): int {
    if size == 0 then |s| else PiecesOf(s, start, start + size, typ) + if typ == HOLE then 0 else 1
  }

  lemma {:induction false} PiecesConcat(s: seq<Entry>, t: seq<Entry>, start: int, end: int, typ: u32)
    ensures PiecesOf(s + t, start, end, typ) == PiecesOf(s, start, end, typ) + PiecesOf(t, start, end, typ)
  {
    hide Pieces;
    if s == [] {
      assert s + t == t;
    } else {
      assert (s + t)[1..] == s[1..] + t;
      PiecesConcat(s[1..], t, start, end, typ);
    }
  }

  lemma {:induction false} PiecesSame(s: seq<Entry>, start: int, end: int, start': int, end': int, typ: u32)
    requires forall k :: 0 <= k < |s| ==> Pieces(s[k], start, end, typ) == Pieces(s[k], start', end', typ)
    ensures PiecesOf(s, start, end, typ) == PiecesOf(s, start', end', typ)
  {
    hide Pieces;
    if s != [] {
      assert forall k :: 0 <= k < |s[1..]| ==> s[1..][k] == s[k+1];
      PiecesSame(s[1..], start, end, start', end', typ);
    }
  }

  lemma {:induction false} PiecesAllOne(s: seq<Entry>, start: int, end: int, typ: u32)
    requires forall k :: 0 <= k < |s| ==> Pieces(s[k], start, end, typ) == 1
    ensures PiecesOf(s, start, end, typ) == |s|
  {
    hide Pieces;
    if s != [] {
      assert forall k :: 0 <= k < |s[1..]| ==> s[1..][k] == s[k+1];
      PiecesAllOne(s[1..], start, end, typ);
    }
  }

  lemma PiecesOne(e: Entry, start: int, end: int, typ: u32)
    ensures PiecesOf([e], start, end, typ) == Pieces(e, start, end, typ)
  {
    assert [e][1..] == [];
  }

  /** Replacing entry `i` by `t`. */
  lemma {:induction false} PiecesReplaced(s: seq<Entry>, i: nat, t: seq<Entry>, start: int, end: int, typ: u32)
    requires i < |s|
    ensures PiecesOf(s[..i] + t + s[i+1..], start, end, typ)
            == PiecesOf(s, start, end, typ) - Pieces(s[i], start, end, typ) + PiecesOf(t, start, end, typ)
  {
    hide Pieces, PiecesOf;
    assert s == s[..i] + [s[i]] + s[i+1..];
    PiecesConcat(s[..i] + [s[i]], s[i+1..], start, end, typ);
    PiecesConcat(s[..i], [s[i]], start, end, typ);
    PiecesOne(s[i], start, end, typ);
    PiecesConcat(s[..i] + t, s[i+1..], start, end, typ);
    PiecesConcat(s[..i], t, start, end, typ);
  }

  // ---- One call of e820_add, step by step over the table's contents ----

  /** The map a half-finished call still owes: `c` outside [start, start+size), `typ` inside. */
  ghost predicate Owes(c: seq<Entry>, start: int, size: int, typ: u32, s: seq<Entry>, start0: int, size0: int) {
    forall a :: Overwritten(c, start, size, typ, a) == Overwritten(s, start0, size0, typ, a)
  }

  /** Entries before `i` stay below `start` and cannot be merged with the new range. */
  predicate Placed(c: seq<Entry>, i: nat, start: int, typ: u32) {
    && i <= |c|
    && (forall k :: 0 <= k < i ==> c[k].End() <= start && (c[k].End() == start ==> c[k].typ != typ))
    && (forall k :: i <= k < |c| ==> start <= c[k].start)
  }

  ghost predicate Pending(c: seq<Entry>, i: nat, start: int, size: int, typ: u32,
                          s: seq<Entry>, start0: int, size0: int) {
    && Canonical(c) && Placed(c, i, start, typ) && 0 < size && 0 <= start && start + size < TWO64
    && Owes(c, start, size, typ, s, start0, size0)
    && PiecesOf(c, start, start + size, typ) == PiecesOf(s, start0, start0 + size0, typ)
  }

  lemma PendingIs(c: seq<Entry>, i: nat, start: int, size: int, typ: u32, s: seq<Entry>, start0: int, size0: int)
    requires Pending(c, i, start, size, typ, s, start0, size0)
    ensures Canonical(c) && i <= |c| && 0 <= start && 0 < size && start + size < TWO64
    ensures forall k :: 0 <= k < |c| ==> c[k].End() < TWO64
  {}

  lemma MergeLeftStep(c: seq<Entry>, i: nat, start: int, size: int, typ: u32)
    requires Canonical(c) && i < |c| && 0 <= start && 0 < size && start + size < TWO64
    requires forall k :: 0 <= k < i ==> c[k].End() < start
    requires c[i].start < start <= c[i].End() && typ == c[i].typ
    ensures Pending(c, i, c[i].start, size + (start - c[i].start), typ, c, start, size)
  {
    forall a ensures Overwritten(c, c[i].start, size + (start - c[i].start), typ, a) == Overwritten(c, start, size, typ, a) {
      if c[i].Covers(a) { TypeAtCovered(c, i, a); }
    }
    assert forall k :: 0 <= k < i ==> Below(c[k], c[i]);
    assert forall k :: i < k < |c| ==> Below(c[i], c[k]);
    PiecesSame(c, c[i].start, start + size, start, start + size, typ);
  }

  lemma StartStep(c: seq<Entry>, i: nat, start: int, size: int, typ: u32)
    requires Canonical(c) && i <= |c| && 0 <= start && 0 < size && start + size < TWO64
    requires forall k :: 0 <= k < i ==> c[k].End() < start
    requires i < |c| ==> start <= c[i].start
    ensures Pending(c, i, start, size, typ, c, start, size)
  {
    assert i < |c| ==> forall k :: i < k < |c| ==> Below(c[i], c[k]);
  }

  lemma SplitStep(c: seq<Entry>, i: nat, left: Entry, start: int, size: int, typ: u32)
    requires Canonical(c) && i < |c| && 0 <= start && 0 < size && start + size < TWO64
    requires forall k :: 0 <= k < i ==> c[k].End() < start
    requires c[i].start < start <= c[i].End() <= start + size && typ != c[i].typ
    requires left == Entry(c[i].start, start - c[i].start, c[i].typ)
    ensures Pending(c[i := left], i + 1, start, size, typ, c, start, size)
  {
    var t := c[i := left];
    forall a ensures Overwritten(t, start, size, typ, a) == Overwritten(c, start, size, typ, a) {
      if !(start <= a < start + size) { ReplaceKeeps(c, i, left, a); }
    }
    SplitPieces(c, i, left, start, start + size, typ);
  }

  lemma SplitPieces(c: seq<Entry>, i: nat, left: Entry, start: int, end: int, typ: u32)
    requires i < |c| && c[i].start < start <= c[i].End() <= end && typ != c[i].typ
    requires left == Entry(c[i].start, start - c[i].start, c[i].typ)
    ensures PiecesOf(c[i := left], start, end, typ) == PiecesOf(c, start, end, typ)
  {
    hide PiecesOf;
    PiecesReplaced(c, i, [left], start, end, typ);
    assert c[..i] + [left] + c[i+1..] == c[i := left];
    PiecesOne(left, start, end, typ);
  }

  lemma TypeAtCovered(c: seq<Entry>, i: nat, a: int)
    requires Canonical(c) && i < |c| && c[i].Covers(a)
    ensures TypeAt(c, a) == c[i].typ
  {
    var d := c[..i] + c[i+1..];
    assert c == d[..i] + [c[i]] + d[i..];
    assert forall k :: 0 <= k < i ==> Below(c[k], c[i]);
    InsertReads(d, i, c[i], a);
  }

  lemma SplitBothStep(c: seq<Entry>, i: nat, left: Entry, right: Entry, start: int, size: int, typ: u32)
    requires Canonical(c) && i < |c| && 0 <= start && 0 < size && start + size < TWO64
    requires forall k :: 0 <= k < i ==> c[k].End() < start
    requires c[i].start < start && start + size < c[i].End() && typ != c[i].typ
    requires left == Entry(c[i].start, start - c[i].start, c[i].typ)
    requires right == Entry(start + size, c[i].End() - (start + size), c[i].typ)
    ensures var m := c[i := left];
            Pending(m[..i+1] + [right] + m[i+1..], i + 1, start, size, typ, c, start, size)
  {
    hide Canonical, Placed, Overwritten, PiecesOf, TypeAt;
    SplitBothOwes(c, i, left, right, start, size, typ);
    SplitBothPlaced(c, i, left, right, start, size, typ);
    SplitBothPieces(c, i, left, right, start, start + size, typ);
  }

  lemma SplitBothOwes(c: seq<Entry>, i: nat, left: Entry, right: Entry, start: int, size: int, typ: u32)
    requires Canonical(c) && i < |c| && 0 <= start && 0 < size && start + size < TWO64
    requires forall k :: 0 <= k < i ==> c[k].End() < start
    requires c[i].start < start && start + size < c[i].End() && typ != c[i].typ
    requires left == Entry(c[i].start, start - c[i].start, c[i].typ)
    requires right == Entry(start + size, c[i].End() - (start + size), c[i].typ)
    ensures var m := c[i := left];
            Owes(m[..i+1] + [right] + m[i+1..], start, size, typ, c, start, size)
  {
    hide TypeAt;
    var m := c[i := left];
    var t := m[..i+1] + [right] + m[i+1..];
    forall a ensures Overwritten(t, start, size, typ, a) == Overwritten(c, start, size, typ, a) {
      if !(start <= a < start + size) { SplitBothReads(c, i, left, right, a); }
    }
  }

  lemma SplitBothPlaced(c: seq<Entry>, i: nat, left: Entry, right: Entry, start: int, size: int, typ: u32)
    requires Canonical(c) && i < |c| && 0 <= start && 0 < size && start + size < TWO64
    requires forall k :: 0 <= k < i ==> c[k].End() < start
    requires c[i].start < start && start + size < c[i].End() && typ != c[i].typ
    requires left == Entry(c[i].start, start - c[i].start, c[i].typ)
    requires right == Entry(start + size, c[i].End() - (start + size), c[i].typ)
    ensures var m := c[i := left];
            var t := m[..i+1] + [right] + m[i+1..];
            Canonical(t) && Placed(t, i + 1, start, typ)
  {
    hide TypeAt, Canonical, Placed;
    var m := c[i := left];
    CutCanonical(c, i, left);
    CanonicalParts(m, i + 1);
    AboveCanonical(c, i, right);
    assert m[i+1..] == c[i+1..];
    assert m[..i+1] + [right] + m[i+1..] == m[..i+1] + ([right] + m[i+1..]);
    SplitCanonical(m[..i+1], [right] + m[i+1..], start, size, typ);
  }

  /** An entry may lose its upper part. */
  lemma CutCanonical(c: seq<Entry>, i: nat, left: Entry)
    requires Canonical(c) && i < |c| && left.start == c[i].start && left.typ == c[i].typ && 0 < left.size <= c[i].size
    ensures Canonical(c[i := left])
  {
    hide TypeAt;
  }

  /** Its upper part may stand for it before the entries behind it. */
  lemma AboveCanonical(c: seq<Entry>, i: nat, right: Entry)
    requires Canonical(c) && i < |c| && right.End() == c[i].End() && right.typ == c[i].typ && 0 < right.size
    ensures Canonical([right] + c[i+1..])
  {
    hide TypeAt;
    CanonicalParts(c, i + 1);
    assert c[i+1..] != [] ==> Below(c[i], c[i+1..][0]);
    CanonicalConcat([right], c[i+1..]);
  }

  lemma SplitBothPieces(c: seq<Entry>, i: nat, left: Entry, right: Entry, start: int, end: int, typ: u32)
    requires i < |c| && 0 <= start < end && c[i].start < start && end < c[i].End() && typ != c[i].typ
    requires left == Entry(c[i].start, start - c[i].start, c[i].typ)
    requires end < TWO64 && right == Entry(end, c[i].End() - end, c[i].typ)
    ensures var m := c[i := left];
            PiecesOf(m[..i+1] + [right] + m[i+1..], start, end, typ) == PiecesOf(c, start, end, typ)
  {
    hide PiecesOf;
    var m := c[i := left];
    PiecesReplaced(c, i, [left, right], start, end, typ);
    assert m[..i+1] + [right] + m[i+1..] == c[..i] + [left, right] + c[i+1..];
    assert [left, right] == [left] + [right];
    PiecesConcat([left], [right], start, end, typ);
    PiecesOne(left, start, end, typ);
    PiecesOne(right, start, end, typ);
  }

  lemma SplitBothReads(c: seq<Entry>, i: nat, left: Entry, right: Entry, a: int)
    requires Canonical(c) && i < |c|
    requires left.typ == right.typ == c[i].typ && left.End() <= right.start
    requires c[i].Covers(a) <==> (left.Covers(a) || right.Covers(a))
    requires left.start == c[i].start && right.End() == c[i].End()
    ensures var m := c[i := left]; TypeAt(m[..i+1] + [right] + m[i+1..], a) == TypeAt(c, a)
  {
    var m := c[i := left];
    if right.Covers(a) {
      assert forall k :: 0 <= k < i ==> Below(c[k], c[i]);
      InsertReads(m, i + 1, right, a);
      TypeAtCovered(c, i, a);
    } else {
      InsertKeeps(m, i + 1, right, a);
      ReplaceKeeps(c, i, left, a);
    }
  }

  /** Two halves with room for [start, start+size) between them. */
  lemma SplitCanonical(p: seq<Entry>, q: seq<Entry>, start: int, size: int, typ: u32)
    requires Canonical(p) && Canonical(q) && p != [] && q != [] && 0 < size
    requires p[|p|-1].End() == start && start + size <= q[0].start && p[|p|-1].typ != typ
    ensures Canonical(p + q) && Placed(p + q, |p|, start, typ)
  {
    CanonicalConcat(p, q);
    assert forall k :: 0 <= k < |p| ==> k == |p| - 1 || Below(p[k], p[|p|-1]);
    assert forall k :: 0 <= k < |q| ==> k == 0 || Below(q[0], q[k]);
  }

  lemma RemoveStep(c: seq<Entry>, i: nat, start: int, size: int, typ: u32,
                   s: seq<Entry>, start0: int, size0: int)
    requires Pending(c, i, start, size, typ, s, start0, size0)
    requires i < |c| && c[i].End() <= start + size
    ensures Pending(c[..i] + c[i+1..], i, start, size, typ, s, start0, size0)
  {
    var t := c[..i] + c[i+1..];
    assert Owes(t, start, size, typ, s, start0, size0) by {
      forall a ensures Overwritten(t, start, size, typ, a) == Overwritten(c, start, size, typ, a) {
        if !(start <= a < start + size) { DropKeeps(c, i, a); }
      }
    }
    DropCanonical(c, i);
    PiecesReplaced(c, i, [], start, start + size, typ);
    assert c[..i] + [] + c[i+1..] == t;
  }

  lemma DropCanonical(c: seq<Entry>, i: nat)
    requires Canonical(c) && i < |c|
    ensures Canonical(c[..i] + c[i+1..])
  {
    CanonicalParts(c, i);
    CanonicalParts(c, i + 1);
    CanonicalConcat(c[..i], c[i+1..]);
  }

  lemma TrimStep(c: seq<Entry>, i: nat, trimmed: Entry, start: int, size: int, typ: u32,
                 s: seq<Entry>, start0: int, size0: int)
    requires Pending(c, i, start, size, typ, s, start0, size0)
    requires i < |c| && c[i].start <= start + size < c[i].End()
    requires trimmed == Entry(start + size, c[i].End() - (start + size), c[i].typ)
    ensures Pending(c[i := trimmed], i, start, size, typ, s, start0, size0)
  {
    var t := c[i := trimmed];
    assert Owes(t, start, size, typ, s, start0, size0) by {
      forall a ensures Overwritten(t, start, size, typ, a) == Overwritten(c, start, size, typ, a) {
        if !(start <= a < start + size) { ReplaceKeeps(c, i, trimmed, a); }
      }
    }
    TrimPieces(c, i, trimmed, start, start + size, typ);
  }

  lemma TrimPieces(c: seq<Entry>, i: nat, trimmed: Entry, start: int, end: int, typ: u32)
    requires i < |c| && start <= c[i].start <= end < c[i].End() && end < TWO64
    requires trimmed == Entry(end, c[i].End() - end, c[i].typ)
    ensures PiecesOf(c[i := trimmed], start, end, typ) == PiecesOf(c, start, end, typ)
  {
    hide PiecesOf;
    PiecesReplaced(c, i, [trimmed], start, end, typ);
    PiecesOne(trimmed, start, end, typ);
    assert c[..i] + [trimmed] + c[i+1..] == c[i := trimmed];
  }

  /** A range that touches an entry of its own type swallows it. */
  lemma MergeRightStep(c: seq<Entry>, i: nat, start: int, size: int, typ: u32,
                       s: seq<Entry>, start0: int, size0: int)
    requires Pending(c, i, start, size, typ, s, start0, size0)
    requires i < |c| && c[i].start == start + size && c[i].typ == typ
    ensures Pending(c[..i] + c[i+1..], i, start, size + c[i].size, typ, s, start0, size0)
    ensures i + 1 < |c| ==> start + size + c[i].size <= c[i+1].start
                            && (start + size + c[i].size == c[i+1].start ==> c[i+1].typ != typ)
  {
    var t := c[..i] + c[i+1..];
    assert Owes(t, start, size + c[i].size, typ, s, start0, size0) by {
      forall a ensures Overwritten(t, start, size + c[i].size, typ, a) == Overwritten(c, start, size, typ, a) {
        if c[i].Covers(a) {
          assert t[..i] + [c[i]] + t[i..] == c;
          InsertReads(t, i, c[i], a);
        } else {
          DropKeeps(c, i, a);
        }
      }
    }
    DropCanonical(c, i);
    MergeRightPieces(c, i, start, size, typ);
  }

  lemma MergeRightPieces(c: seq<Entry>, i: nat, start: int, size: int, typ: u32)
    requires Canonical(c) && Placed(c, i, start, typ) && 0 < size && 0 <= start
    requires i < |c| && c[i].start == start + size && c[i].typ == typ
    ensures PiecesOf(c[..i] + c[i+1..], start, start + size + c[i].size, typ) == PiecesOf(c, start, start + size, typ)
  {
    hide PiecesOf;
    var t := c[..i] + c[i+1..];
    PiecesReplaced(c, i, [], start, start + size, typ);
    assert c[..i] + [] + c[i+1..] == t;
    PiecesNone(start, start + size, typ);
    forall k | 0 <= k < |t| ensures Pieces(t[k], start, start + size, typ) == Pieces(t[k], start, start + size + c[i].size, typ) {
      assert if k < i then t[k] == c[k] else t[k] == c[k+1] && Below(c[i], c[k+1]);
    }
    PiecesSame(t, start, start + size, start, start + size + c[i].size, typ);
  }

  lemma PiecesNone(start: int, end: int, typ: u32)
    ensures PiecesOf([], start, end, typ) == 0
  {}

  /** With nothing overlapping left, the pending range goes in at `i`. */
  lemma InsertStep(c: seq<Entry>, i: nat, start: int, size: int, typ: u32,
                   s: seq<Entry>, start0: int, size0: int)
    requires Pending(c, i, start, size, typ, s, start0, size0)
    requires forall k :: i <= k < |c| ==> start + size <= c[k].start
    ensures IsOverwrite(Finished(c, i, start, size, typ), s, start0, size0, typ)
  {
    var e := Entry(start, size, typ);
    var t := Finished(c, i, start, size, typ);
    forall a ensures TypeAt(t, a) == Overwritten(s, start0, size0, typ, a) {
      assert Overwritten(c, start, size, typ, a) == Overwritten(s, start0, size0, typ, a);
      if e.Covers(a) {
        TypeAtNone(c, a);
        InsertReads(c, i, e, a);
      } else {
        InsertKeeps(c, i, e, a);
      }
    }
  }

  function Finished(c: seq<Entry>, i: nat, start: u64, size: u64, typ: u32): seq<Entry>
    requires i <= |c|
  {
    if typ == HOLE then c else c[..i] + [Entry(start, size, typ)] + c[i..]
  }

  lemma InsertCanonical(c: seq<Entry>, i: nat, e: Entry)
    requires Canonical(c) && i <= |c| && WellFormed([e])
    requires forall k :: 0 <= k < i ==> Below(c[k], e)
    requires i < |c| ==> Below(e, c[i])
    ensures Canonical(c[..i] + [e] + c[i..])
  {
    CanonicalParts(c, i);
    CanonicalConcat([e], c[i..]);
    CanonicalConcat(c[..i], [e] + c[i..]);
    assert c[..i] + [e] + c[i..] == c[..i] + ([e] + c[i..]);
  }

  /** The table a call ends with, and what is left of it when an insertion is refused. */
  lemma FinishStep(c: seq<Entry>, i: nat, start: int, size: int, typ: u32,
                   s: seq<Entry>, start0: int, size0: int)
    requires Pending(c, i, start, size, typ, s, start0, size0)
    requires i < |c| ==> start + size <= c[i].start && (start + size == c[i].start ==> c[i].typ != typ)
    ensures var t := Finished(c, i, start, size, typ);
            Canonical(t) && IsOverwrite(t, s, start0, size0, typ) && LosesOnly(c, t)
    ensures size0 != 0 ==> |Finished(c, i, start, size, typ)| == Needed(s, start0, size0, typ)
  {
    hide PiecesOf, TypeAt, Overwritten;
    var e := Entry(start, size, typ);
    assert i < |c| ==> forall k :: i < k < |c| ==> Below(c[i], c[k]);
    InsertStep(c, i, start, size, typ, s, start0, size0);
    if typ != HOLE {
      InsertCanonical(c, i, e);
      var t := c[..i] + [e] + c[i..];
      DropLoses(t, i);
      assert t[..i] + t[i+1..] == c;
    }
    FinishPieces(c, i, start, size, typ);
  }

  lemma FinishPieces(c: seq<Entry>, i: nat, start: int, size: int, typ: u32)
    requires Canonical(c) && Placed(c, i, start, typ) && 0 < size && 0 <= start
    requires i < |c| ==> start + size <= c[i].start && (start + size == c[i].start ==> c[i].typ != typ)
    ensures PiecesOf(c, start, start + size, typ) == |c|
  {
    hide PiecesOf;
    assert i < |c| ==> forall k :: i < k < |c| ==> Below(c[i], c[k]);
    PiecesAllOne(c, start, start + size, typ);
  }

  /** `t` reads like `full`, except for addresses it has no entry for. */
  ghost predicate LosesOnly(t: seq<Entry>, full: seq<Entry>) {
    Canonical(t) && forall a :: TypeAt(t, a) == TypeAt(full, a) || TypeAt(t, a) == HOLE
  }

  /** All that one call of e820_add does to the table `s`. */
  ghost predicate Added(s: seq<Entry>, t: seq<Entry>, start: int, size: int, typ: u32) {
    && Canonical(t) && |t| <= |s| + 2 && Needed(s, start, size, typ) <= |s| + 2
    && (forall a :: TypeAt(t, a) == Overwritten(s, start, size, typ, a) || TypeAt(t, a) == HOLE)
    && (Needed(s, start, size, typ) <= MAX_E820 ==> IsOverwrite(t, s, start, size, typ))
  }

  lemma AddIsAdded(s: seq<Entry>, t: seq<Entry>, ideal: seq<Entry>, start: int, size: int, typ: u32)
    requires IsOverwrite(ideal, s, start, size, typ) && LosesOnly(t, ideal) && |ideal| <= |s| + 2
    requires |t| <= |s| + 2 && Needed(s, start, size, typ) <= |s| + 2 && (Needed(s, start, size, typ) <= MAX_E820 ==> t == ideal)
    ensures Added(s, t, start, size, typ)
  {
    hide TypeAt, Needed, Canonical, Overwritten;
  }

  // ---- The table itself ----

  /** The types of memory, as in e820_list and e820_count. */
  class Map {
    var list: array<Entry>
    var count: nat

    ghost predicate Valid()
      reads this, list
    {
      list.Length == MAX_E820 && count <= MAX_E820 && Canonical(Contents())
    }

    ghost function Contents(): seq<Entry>
      requires count <= list.Length
      reads this, list
    {
      list[..count]
    }

    constructor ()
      ensures Valid() && fresh(list) && Contents() == []
    {
      list := new Entry[MAX_E820](_ => Entry(0, 0, 0));
      count := 0;
    }

    method SetEntry(i: nat, e: Entry)
      requires list.Length == MAX_E820 && i < count <= MAX_E820
      modifies list
      ensures Contents() == old(Contents())[i := e]
    {
      list[i] := e;
    }

    method RemoveEntry(i: nat)
      requires list.Length == MAX_E820 && i < count <= MAX_E820
      modifies this`count, list
      ensures count == old(count) - 1
      ensures Contents() == old(Contents())[..i] + old(Contents())[i+1..]
    {
      count := count - 1;
      forall k | i <= k < count { list[k] := list[k+1]; }
    }

    /** A full table drops the entry. */
    method InsertEntry(i: nat, start: u64, size: u64, typ: u32)
      requires list.Length == MAX_E820 && i <= count <= MAX_E820
      modifies this`count, list
      ensures old(count) < MAX_E820 ==>
                count == old(count) + 1 &&
                Contents() == old(Contents())[..i] + [Entry(start, size, typ)] + old(Contents())[i..]
      ensures old(count) == MAX_E820 ==> count == old(count) && Contents() == old(Contents())
    {
      if count >= MAX_E820 {
        return;
      }
      forall k | i < k <= count { list[k] := list[k-1]; }
      count := count + 1;
      list[i] := Entry(start, size, typ);
    }

    /** The first entry that reaches up to `start`. */
    method FindPosition(start: u64) returns (i: nat)
      requires list.Length == MAX_E820 && count <= MAX_E820
      ensures i <= count
      ensures forall k :: 0 <= k < i ==> list[k].End() < start
      ensures i < count ==> start <= list[i].End()
    {
      i := 0;
      while i < count
        invariant i <= count
        invariant forall k :: 0 <= k < i ==> list[k].End() < start
      {
        if start <= list[i].End() { break; }
        i := i + 1;
      }
    }

    /** Shortens entry `i` to end at `start`; what sticks out beyond the range becomes an
        entry of its own. */
    method Split(i: nat, start: u64, size: u64, typ: u32) returns (ghost c: seq<Entry>)
      requires Valid() && i < count && 0 < size && start + size < TWO64
      requires forall k :: 0 <= k < i ==> list[k].End() < start
      requires list[i].start < start <= list[i].End() && typ != list[i].typ
      modifies this`count, list
      ensures list.Length == MAX_E820 && i < count <= MAX_E820
      ensures Pending(c, i + 1, start, size, typ, old(Contents()), start, size)
      ensures |c| <= old(count) + 1 && Tracks(Contents(), c, i + 1, start + size, typ)
    {
      hide TypeAt, Owes, Pending, Tracks, PiecesOf, Pieces;
      ghost var s := Contents();
      assert forall k :: 0 <= k < i ==> s[k] == list[k];
      var e := list[i];
      var end := start + size;
      var left := Entry(e.start, start - e.start, e.typ);
      SetEntry(i, left);
      c := s[i := left];
      if e.End() > end {
        ghost var right := Entry(end, e.End() - end, e.typ);
        SplitBothStep(s, i, left, right, start, size, typ);
        RefusedTracks(c, i + 1, right, typ);
        InsertEntry(i + 1, end, e.End() - end, e.typ);
        c := c[..i+1] + [right] + c[i+1..];
      } else {
        SplitStep(s, i, left, start, size, typ);
        SameTracks(c, i + 1, end, typ);
      }
    }

    /** The first half of e820_add: find the position of [start0, start0+size0), and merge
        with or split the entry that the start falls in. */
    method Place(start0: u64, size0: u64, typ: u32)
      returns (i: nat, start: u64, size: u64, ghost c: seq<Entry>)
      requires Valid() && 0 < size0 && start0 + size0 < TWO64
      modifies this`count, list
      ensures list.Length == MAX_E820 && count <= MAX_E820 && i <= count
      ensures Pending(c, i, start, size, typ, old(Contents()), start0, size0)
      ensures start + size == start0 + size0 && |c| <= old(count) + 1
      ensures Tracks(Contents(), c, i, start + size, typ)
    {
      hide TypeAt, Owes, Pending, Tracks, PiecesOf, Pieces;
      start, size, c := start0, size0, Contents();
      ghost var s := c;
      var end := start + size;
      i := FindPosition(start);
      assert forall k :: 0 <= k < i ==> s[k] == list[k];
      if i < count && start > list[i].start {
        var e := list[i];
        if typ == e.typ {
          MergeLeftStep(s, i, start, size, typ);
          size := size + (start - e.start);
          start := e.start;
        } else {
          c := Split(i, start, size, typ);
          i := i + 1;
        }
      } else {
        StartStep(s, i, start, size, typ);
      }
      if Contents() == c { SameTracks(c, i, end, typ); }
    }

    /** The second half: remove or trim what [start, start+size) overlaps, and merge with
        what it touches on the right. */
    method Clear(i: nat, start: u64, size0: u64, typ: u32, ghost c0: seq<Entry>,
                 ghost s: seq<Entry>, ghost origStart: int, ghost origSize: int)
      returns (size: u64, ghost c: seq<Entry>)
      requires list.Length == MAX_E820 && i <= count <= MAX_E820
      requires Pending(c0, i, start, size0, typ, s, origStart, origSize)
      requires Tracks(Contents(), c0, i, start + size0, typ)
      modifies this`count, list
      ensures list.Length == MAX_E820 && i <= count <= MAX_E820
      ensures Pending(c, i, start, size, typ, s, origStart, origSize) && |c| <= |c0|
      ensures Contents() == c || (|c| == MAX_E820 + 1 && i < |c| && Contents() == c[..i] + c[i+1..])
      ensures i < |c| ==> start + size <= c[i].start && (start + size == c[i].start ==> c[i].typ != typ)
    {
      hide TypeAt, Owes, Pending, Canonical, PiecesOf;
      PendingIs(c0, i, start, size0, typ, s, origStart, origSize);
      size, c := size0, c0;
      var end := start + size;
      while i < count
        invariant list.Length == MAX_E820 && i <= count <= MAX_E820
        invariant Pending(c, i, start, size, typ, s, origStart, origSize) && end == start + size
        invariant |c| <= |c0|
        invariant Tracks(Contents(), c, i, end, typ)
        decreases count - i
      {
        var e := list[i];
        PendingIs(c, i, start, size, typ, s, origStart, origSize);
        DroppedIsAbove(Contents(), c, i, end, typ);
        if end < e.start { break; }
        if end >= e.End() {
          RemoveStep(c, i, start, size, typ, s, origStart, origSize);
          RemoveEntry(i);
          c := c[..i] + c[i+1..];
          continue;
        }
        var trimmed := Entry(end, e.End() - end, e.typ);
        TrimStep(c, i, trimmed, start, size, typ, s, origStart, origSize);
        SetEntry(i, trimmed);
        c := c[i := trimmed];
        if typ == e.typ {
          MergeRightStep(c, i, start, size, typ, s, origStart, origSize);
          size := size + trimmed.size;
          RemoveEntry(i);
          c := c[..i] + c[i+1..];
        }
        break;
      }
    }

    /** Overwrites [start, start+size) with `typ`.  `ideal` is the one canonical table
        for the new map: the call produces it exactly when it fits, and a full table
        otherwise loses some of its entries but never reports a wrong type. */
    method Add(start: u64, size: u64, typ: u32) returns (ghost ideal: seq<Entry>)
      requires Valid() && start + size < TWO64
      modifies this`count, list
      ensures Valid()
      ensures Canonical(ideal) && IsOverwrite(ideal, old(Contents()), start, size, typ)
      ensures |ideal| == Needed(old(Contents()), start, size, typ) <= old(count) + if typ == HOLE then 1 else 2
      ensures Contents() == ideal <==> Needed(old(Contents()), start, size, typ) <= MAX_E820
      ensures LosesOnly(Contents(), ideal) && Added(old(Contents()), Contents(), start, size, typ)
    {
      hide TypeAt, Owes, Pending, Canonical, IsOverwrite, PiecesOf, Pieces, Added;
      ghost var s := Contents();
      if size == 0 {
        ZeroSizeAdd(s, start, typ);
        AddIsAdded(s, s, s, start, 0, typ);
        return s;
      }
      var i, start', size', c := Place(start, size, typ);
      size', c := Clear(i, start', size', typ, c, s, start, size);
      FinishStep(c, i, start', size', typ, s, start, size);
      if Contents() != c { DropLosesOnly(c, i, Finished(c, i, start', size', typ)); }
      ideal := Finished(c, i, start', size', typ);
      if typ != HOLE {
        InsertEntry(i, start', size', typ);
      }
      AddIsAdded(s, Contents(), ideal, start, size, typ);
    }

    /** e820_remove: leaves a hole. */
    method Remove(start: u64, size: u64) returns (ghost ideal: seq<Entry>)
      requires Valid() && start + size < TWO64
      modifies this`count, list
      ensures Valid() && Canonical(ideal) && |ideal| == Needed(old(Contents()), start, size, HOLE) <= old(count) + 1
      ensures forall a :: TypeAt(ideal, a) == if start <= a < start + size then HOLE else TypeAt(old(Contents()), a)
      ensures Contents() == ideal <==> |ideal| <= MAX_E820
    {
      ideal := Add(start, size, HOLE);
      assert forall a :: TypeAt(ideal, a) == Overwritten(old(Contents()), start, size, HOLE, a);
    }
  }

  /** `t` is what the bounded table holds where an unbounded one would hold `c`: the same,
      or `c` less the right half of a split that found the table full. */
  predicate Tracks(t: seq<Entry>, c: seq<Entry>, i: nat, end: int, typ: u32) {
    t == c ||
    (|c| == MAX_E820 + 1 && i < |c| && t == c[..i] + c[i+1..] && c[i].start == end && c[i].typ != typ)
  }

  lemma RefusedTracks(t: seq<Entry>, i: nat, right: Entry, typ: u32)
    requires i <= |t| <= MAX_E820 && right.typ != typ
    ensures var c := t[..i] + [right] + t[i..];
            Tracks(c, c, i, right.start, typ) && (|t| == MAX_E820 ==> Tracks(t, c, i, right.start, typ))
  {
    var c := t[..i] + [right] + t[i..];
    assert c[..i] == t[..i] && c[i+1..] == t[i..];
    assert t == t[..i] + t[i..];
  }

  lemma SameTracks(c: seq<Entry>, i: nat, end: int, typ: u32)
    ensures Tracks(c, c, i, end, typ)
  {}

  lemma DroppedIsAbove(t: seq<Entry>, c: seq<Entry>, i: nat, end: int, typ: u32)
    requires Tracks(t, c, i, end, typ) && Canonical(c) && i < |t|
    ensures t == c || end < t[i].start
  {
    if t != c {
      assert t[i] == c[i+1];
      assert Below(c[i], c[i+1]);
    }
  }

  /** Losing an entry keeps a table canonical and leaves a hole in its place. */
  lemma DropLoses(c: seq<Entry>, i: nat)
    requires Canonical(c) && i < |c|
    ensures Canonical(c[..i] + c[i+1..])
    ensures forall a :: TypeAt(c[..i] + c[i+1..], a) == if c[i].Covers(a) then HOLE else TypeAt(c, a)
  {
    var d := c[..i] + c[i+1..];
    DropCanonical(c, i);
    forall a ensures TypeAt(d, a) == if c[i].Covers(a) then HOLE else TypeAt(c, a) {
      if c[i].Covers(a) {
        forall k | 0 <= k < |d| ensures !d[k].Covers(a) {
          assert if k < i then Below(c[k], c[i]) && d[k] == c[k] else Below(c[i], c[k+1]) && d[k] == c[k+1];
        }
        TypeAtNone(d, a);
      } else {
        DropKeeps(c, i, a);
      }
    }
  }

  lemma DropLosesOnly(c: seq<Entry>, i: nat, full: seq<Entry>)
    requires Canonical(c) && i < |c| && LosesOnly(c, full)
    ensures LosesOnly(c[..i] + c[i+1..], full)
  {
    DropLoses(c, i);
  }

  lemma ZeroSizeAdd(s: seq<Entry>, start: int, typ: u32)
    requires Canonical(s)
    ensures IsOverwrite(s, s, start, 0, typ) && LosesOnly(s, s)
  {}

  // ---- What repeated and reordered calls amount to ----

  /** The new map has one canonical table, so a table of at most MAX_E820 entries for it
      exists exactly when Map.Add produces it. */
  lemma FitsOrNothingDoes(s: seq<Entry>, start: int, size: int, typ: u32, ideal: seq<Entry>, t: seq<Entry>)
    requires Canonical(ideal) && IsOverwrite(ideal, s, start, size, typ)
    requires Canonical(t) && IsOverwrite(t, s, start, size, typ)
    ensures t == ideal
  {
    CanonicalUnique(t, ideal);
  }

  /** Giving a range the same type again changes nothing. */
  lemma AddIdempotent(s: seq<Entry>, start: int, size: int, typ: u32, once: seq<Entry>, twice: seq<Entry>)
    requires Canonical(once) && IsOverwrite(once, s, start, size, typ)
    requires Canonical(twice) && IsOverwrite(twice, once, start, size, typ)
    ensures twice == once
  {
    CanonicalUnique(twice, once);
  }

  /** Adds of disjoint ranges give the same table in either order. */
  lemma DisjointAddsCommute(s: seq<Entry>, start1: int, size1: int, typ1: u32, start2: int, size2: int, typ2: u32,
                            a: seq<Entry>, ab: seq<Entry>, b: seq<Entry>, ba: seq<Entry>)
    requires start1 + size1 <= start2 || start2 + size2 <= start1
    requires IsOverwrite(a, s, start1, size1, typ1) && Canonical(ab) && IsOverwrite(ab, a, start2, size2, typ2)
    requires IsOverwrite(b, s, start2, size2, typ2) && Canonical(ba) && IsOverwrite(ba, b, start1, size1, typ1)
    ensures ab == ba
  {
    forall x ensures TypeAt(ab, x) == TypeAt(ba, x) {
      assert TypeAt(a, x) == Overwritten(s, start1, size1, typ1, x);
      assert TypeAt(b, x) == Overwritten(s, start2, size2, typ2, x);
    }
    CanonicalUnique(ab, ba);
  }

  /** A later add of a range that contains an earlier one makes the earlier one irrelevant. */
  lemma LaterAddWins(s: seq<Entry>, start1: int, size1: int, typ1: u32, start2: int, size2: int, typ2: u32,
                     a: seq<Entry>, ab: seq<Entry>, b: seq<Entry>)
    requires start2 <= start1 && start1 + size1 <= start2 + size2
    requires IsOverwrite(a, s, start1, size1, typ1) && Canonical(ab) && IsOverwrite(ab, a, start2, size2, typ2)
    requires Canonical(b) && IsOverwrite(b, s, start2, size2, typ2)
    ensures ab == b
  {
    forall x ensures TypeAt(ab, x) == TypeAt(b, x) {
      assert TypeAt(a, x) == Overwritten(s, start1, size1, typ1, x);
    }
    CanonicalUnique(ab, b);
  }

  /** The table around an entry split on both sides, without the new entry. */
  function Halves(s: seq<Entry>, i: nat, start: int, size: int): (c: seq<Entry>)
    requires Canonical(s) && i < |s| && s[i].start < start && 0 < size && start + size < s[i].End()
    ensures |c| == |s| + 1
  {
    var m := s[i := Entry(s[i].start, start - s[i].start, s[i].typ)];
    m[..i+1] + [Entry(start + size, s[i].End() - (start + size), s[i].typ)] + m[i+1..]
  }

  lemma HalvesPending(s: seq<Entry>, i: nat, start: int, size: int, typ: u32)
    requires Canonical(s) && i < |s| && 0 < size && typ != s[i].typ
    requires s[i].start < start && start + size < s[i].End()
    ensures var c := Halves(s, i, start, size);
            Pending(c, i + 1, start, size, typ, s, start, size) && c[i+1].start == start + size && c[i+1].typ == s[i].typ
  {
    hide Overwritten, TypeAt, Pending;
    assert forall k :: 0 <= k < i ==> Below(s[k], s[i]);
    var left := Entry(s[i].start, start - s[i].start, s[i].typ);
    var right := Entry(start + size, s[i].End() - (start + size), s[i].typ);
    SplitBothStep(s, i, left, right, start, size, typ);
  }

  /** A range strictly inside an entry of another type costs two slots, so with one spare
      slot Map.Add must lose an entry: the bound of two is exact. */
  lemma InnerAddNeedsTwoSlots(s: seq<Entry>, i: nat, start: int, size: int, typ: u32, t: seq<Entry>)
    requires Canonical(s) && i < |s| && 0 < size && typ != HOLE && typ != s[i].typ
    requires s[i].start < start && start + size < s[i].End()
    requires Canonical(t) && IsOverwrite(t, s, start, size, typ)
    ensures |t| == |s| + 2
  {
    hide Canonical, Pending, Overwritten, TypeAt, Halves;
    var c := Halves(s, i, start, size);
    HalvesPending(s, i, start, size, typ);
    FinishStep(c, i + 1, start, size, typ, s, start, size);
    FitsOrNothingDoes(s, start, size, typ, Finished(c, i + 1, start, size, typ), t);
  }

  // ---- What a full table loses ----

  /** Where the call does not produce the new map's table, some address has lost its entry. */
  lemma {:induction false} SomethingIsLost(t: seq<Entry>, ideal: seq<Entry>)
    requires Canonical(ideal) && LosesOnly(t, ideal)
    ensures t == ideal <==> !exists a :: TypeAt(t, a) == HOLE && TypeAt(ideal, a) != HOLE
  {
    hide TypeAt, Canonical;
    if t != ideal {
      if forall a :: TypeAt(t, a) == TypeAt(ideal, a) { CanonicalUnique(t, ideal); }
      var a :| TypeAt(t, a) != TypeAt(ideal, a);
      assert TypeAt(t, a) == HOLE;
    }
  }

  /** A table of 31 entries, one short of full. */
  function Spread(n: nat): seq<Entry>
    requires n <= MAX_E820
  {
    seq(n, k requires 0 <= k < n => Entry(0x1_0000 * k, 0x8000, RAM))
  }

  lemma {:induction false} SpreadNeeds(n: nat)
    requires 0 < n <= MAX_E820
    ensures Canonical(Spread(n)) && Needed(Spread(n), 0x1000, 0x1000, RESERVED) == n + 2
  {
    var s := Spread(n);
    forall k | 0 <= k < |s[1..]| ensures Pieces(s[1..][k], 0x1000, 0x2000, RESERVED) == 1 {
      assert s[1..][k] == s[k+1];
    }
    PiecesAllOne(s[1..], 0x1000, 0x2000, RESERVED);
  }

  /** There, reserving a page inside an entry leaves some address without its type. */
  method AlmostFull() returns (map_: Map, ghost a: int)
    ensures map_.Valid() && map_.count <= MAX_E820
    ensures TypeAt(map_.Contents(), a) == HOLE != Overwritten(Spread(31), 0x1000, 0x1000, RESERVED, a)
  {
    hide TypeAt, Needed, LosesOnly, Canonical, Overwritten;
    map_ := new Map();
    SpreadNeeds(31);
    map_.count := 31;
    forall k | 0 <= k < 31 { map_.list[k] := Entry(0x1_0000 * k, 0x8000, RAM); }
    assert map_.Contents() == Spread(31);
    ghost var ideal := map_.Add(0x1000, 0x1000, RESERVED);
    SomethingIsLost(map_.Contents(), ideal);
    a :| TypeAt(map_.Contents(), a) == HOLE && TypeAt(ideal, a) != HOLE;
  }
}
