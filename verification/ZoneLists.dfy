// The zone lists as linked structures in memory: alloc_new, alloc_free and the move of a record
// of src/malloc.c on the nodes of src/list.h do what Zones and Allocator say of sequences.

module ZoneLists {
  import opened Arith
  import opened Zones
  import opened Allocator
  import opened HList

  /** struct allocinfo_s: a list node, then three words. */
  const RANGE_START := 8
  const RANGE_END := 12
  const ALLOC_SIZE := 16
  const INFO_SIZE := 20

  /** Where the entry lies, with the stack record at `t`. */
  function NodeOf(e: Info, t: int): int {
    (if e.rec == TEMP then t else e.rec) + if e.kind == Data then DATA_NODE else 0
  }

  function Nodes(z: seq<Info>, t: int): (ns: seq<int>)
    ensures |ns| == |z| && forall i :: 0 <= i < |z| ==> ns[i] == NodeOf(z[i], t)
  {
    seq(|z|, i requires 0 <= i < |z| => NodeOf(z[i], t))
  }

  predicate Apart20(a: int, b: int) { a + INFO_SIZE <= b || b + INFO_SIZE <= a }

  /** The entries and the list head do not overlap. */
  predicate Spread(head: int, ns: seq<int>) {
    && (forall i :: 0 <= i < |ns| ==> 0 < ns[i] && OffHead(head, ns[i]))
    && (forall i, j :: 0 <= i < |ns| && 0 <= j < |ns| && i != j ==> Apart20(ns[i], ns[j]))
  }

  predicate OffHead(head: int, n: int) { head + 4 <= n || n + INFO_SIZE <= head }

  predicate FieldsAt(m: Memory, n: int, e: Info) {
    Read(m, n + RANGE_START) == e.start && Read(m, n + RANGE_END) == e.end && Read(m, n + ALLOC_SIZE) == e.size
  }

  /** The memory holds the zone list `z`. */
  ghost predicate Holds(m: Memory, head: int, z: seq<Info>, t: int) {
    && Spread(head, Nodes(z, t)) && IsList(m, head, Nodes(z, t))
    && forall i :: 0 <= i < |z| ==> FieldsAt(m, NodeOf(z[i], t), z[i])
  }

  /** A cell of the list: its head, or one of an entry. */
  ghost predicate CellOf(head: int, ns: seq<int>, a: int) {
    a == head || exists i :: 0 <= i < |ns| && InInfo(ns[i], a)
  }

  lemma LinksAreCells(head: int, ns: seq<int>, a: int)
    ensures OwnsCell(head, ns, a) ==> CellOf(head, ns, a)
  {
    if a != head && OwnsCell(head, ns, a) {
      var i :| 0 <= i < |ns| && (a == ns[i] || a == Pprev(ns[i]));
      assert InInfo(ns[i], a);
    }
  }

  predicate InInfo(n: int, a: int) { n <= a < n + INFO_SIZE }

  /** Only cells of the list and of the entry at `n` changed. */
  ghost predicate Elsewhere(m: Memory, m': Memory, head: int, ns: seq<int>, n: int) {
    forall a :: !CellOf(head, ns, a) && !InInfo(n, a) ==> Read(m', a) == Read(m, a)
  }

  /** Zone lists without common cells do not disturb each other. */
  lemma {:induction false} HoldsFrame(m: Memory, m': Memory, head: int, z: seq<Info>, t: int)
    requires Holds(m, head, z, t) && forall a :: CellOf(head, Nodes(z, t), a) ==> Read(m', a) == Read(m, a)
    ensures Holds(m', head, z, t)
  {
    hide IsList, Read, Spread;
    var ns := Nodes(z, t);
    forall a | OwnsCell(head, ns, a) ensures Read(m', a) == Read(m, a) {
      if a != head {
        var i :| 0 <= i < |ns| && (a == ns[i] || a == Pprev(ns[i]));
        assert InInfo(ns[i], a);
      }
    }
    ListFrame(m, m', head, ns);
    forall i | 0 <= i < |z| ensures FieldsAt(m', NodeOf(z[i], t), z[i]) {
      assert FieldsAt(m, ns[i], z[i]);
      assert InInfo(ns[i], ns[i] + RANGE_START) && InInfo(ns[i], ns[i] + RANGE_END) && InInfo(ns[i], ns[i] + ALLOC_SIZE);
    }
  }

  // ---- Setting a field ----

  /** A word that is no link of the list. */
  lemma {:induction false} FieldKeepsList(m: Memory, head: int, ns: seq<int>, n: int, off: int, v: int)
    requires Spread(head, ns) && IsList(m, head, ns) && off in {RANGE_START, RANGE_END, ALLOC_SIZE}
    requires n in ns || (OffHead(head, n) && forall i :: 0 <= i < |ns| ==> Apart20(ns[i], n))
    ensures IsList(m[n + off := v], head, ns)
  {
    hide IsList;
    var m' := m[n + off := v];
    if n in ns { var k :| 0 <= k < |ns| && ns[k] == n; assert OffHead(head, n); }
    forall a | OwnsCell(head, ns, a) ensures Read(m', a) == Read(m, a) {
      assert a != n + off by {
        if a != head {
          var i :| 0 <= i < |ns| && (a == ns[i] || a == Pprev(ns[i]));
          assert ns[i] == n || Apart20(ns[i], n);
        }
      }
    }
    ListFrame(m, m', head, ns);
  }

  lemma FieldOfOther(m: Memory, n: int, off: int, v: int, o: int, e: Info)
    requires FieldsAt(m, o, e) && Apart20(n, o) && off in {RANGE_START, RANGE_END, ALLOC_SIZE}
    ensures FieldsAt(m[n + off := v], o, e)
  {}

  /** info->range_end = end */
  lemma {:induction false} EndSet(m: Memory, head: int, z: seq<Info>, t: int, i: nat, end: nat)
    requires Holds(m, head, z, t) && i < |z|
    ensures Holds(m[NodeOf(z[i], t) + RANGE_END := end], head, z[i := z[i].(end := end)], t)
  {
    hide IsList;
    var ns := Nodes(z, t);
    var z' := z[i := z[i].(end := end)];
    var m' := m[ns[i] + RANGE_END := end];
    assert Nodes(z', t) == ns;
    FieldKeepsList(m, head, ns, ns[i], RANGE_END, end);
    forall j | 0 <= j < |z| ensures FieldsAt(m', NodeOf(z'[j], t), z'[j]) {
      assert FieldsAt(m, ns[j], z[j]);
      if j != i {
        assert Apart20(ns[i], ns[j]);
        FieldOfOther(m, ns[i], RANGE_END, end, ns[j], z[j]);
      }
    }
  }

  /** Writing a new entry's fields. */
  function Filled(m: Memory, n: int, e: Info): Memory {
    m[n + RANGE_START := e.start][n + RANGE_END := e.end][n + ALLOC_SIZE := e.size]
  }

  lemma {:induction false} FillKeeps(m: Memory, head: int, z: seq<Info>, t: int, n: int, e: Info)
    requires Holds(m, head, z, t) && OffHead(head, n) && forall i :: 0 <= i < |z| ==> Apart20(NodeOf(z[i], t), n)
    ensures Holds(Filled(m, n, e), head, z, t) && FieldsAt(Filled(m, n, e), n, e)
  {
    hide IsList, Spread;
    var ns := Nodes(z, t);
    assert forall i :: 0 <= i < |ns| ==> Apart20(ns[i], n);
    forall a | CellOf(head, ns, a) ensures Read(Filled(m, n, e), a) == Read(m, a) {
      if a != head {
        var i :| 0 <= i < |ns| && InInfo(ns[i], a);
        assert Apart20(ns[i], n);
      }
    }
    HoldsFrame(m, Filled(m, n, e), head, z, t);
  }

  // ---- Linking and unlinking ----

  /** Linking or unlinking leaves the fields alone. */
  lemma {:induction false} UntouchedFields(m: Memory, m': Memory, head: int, ns: seq<int>, n: int, o: int, e: Info)
    requires Untouched(m, m', head, ns, n) && FieldsAt(m, o, e) && Spread(head, ns) && OffHead(head, o)
    requires o == n || Apart20(o, n)
    requires forall i :: 0 <= i < |ns| ==> ns[i] == o || Apart20(ns[i], o)
    ensures FieldsAt(m', o, e)
  {
    forall a | a in {o + RANGE_START, o + RANGE_END, o + ALLOC_SIZE} ensures Read(m', a) == Read(m, a) {
      assert !OwnsCell(head, ns, a);
    }
    assert Read(m', o + RANGE_START) == Read(m, o + RANGE_START);
  }

  lemma {:induction false} UntouchedElsewhere(m: Memory, m': Memory, head: int, ns: seq<int>, n: int)
    requires Untouched(m, m', head, ns, n)
    ensures Elsewhere(m, m', head, ns, n)
  {
    hide Read;
    forall a | !CellOf(head, ns, a) && !InInfo(n, a) ensures Read(m', a) == Read(m, a) {
      LinksAreCells(head, ns, a);
      assert InInfo(n, n) && InInfo(n, Pprev(n));
    }
  }

  // ---- alloc_new ----

  predicate Sane(z: seq<Info>) { forall k :: 0 <= k < |z| ==> z[k].start + z[k].size <= z[k].end < TWO32 }

  /** An entry elsewhere, to be linked. */
  predicate Spare20(head: int, ns: seq<int>, n: int) {
    0 < n && OffHead(head, n) && forall i :: 0 <= i < |ns| ==> Apart20(ns[i], n)
  }

  lemma SpareIsOutside(head: int, ns: seq<int>, n: int)
    requires Spread(head, ns) && Spare20(head, ns, n)
    ensures Outside(head, ns, n)
  {
    forall i | 0 <= i < |ns| ensures n != ns[i] && Pprev(n) != ns[i] && n != Pprev(ns[i]) && Pprev(n) != Pprev(ns[i]) {
      assert Apart20(ns[i], n);
    }
  }

  lemma InsertedSpread(head: int, ns: seq<int>, i: nat, n: int)
    requires Spread(head, ns) && Spare20(head, ns, n) && i <= |ns|
    ensures Spread(head, ns[..i] + [n] + ns[i..])
  {
    var t := ns[..i] + [n] + ns[i..];
    forall j, k | 0 <= j < |t| && 0 <= k < |t| && j != k ensures Apart20(t[j], t[k]) {
      var a, b := if j < i then j else j - 1, if k < i then k else k - 1;
      if j != i && k != i { assert Apart20(ns[a], ns[b]); }
      if j == i { assert Apart20(ns[b], n); }
      if k == i { assert Apart20(ns[a], n); }
    }
  }

  /** After the entry is linked in before entry `i`. */
  lemma {:induction false} LinkedHolds(m: Memory, m': Memory, head: int, z: seq<Info>, t: int, i: nat, e: Info, n: int)
    requires Holds(m, head, z, t) && i < |z| && n == NodeOf(e, t) && Spare20(head, Nodes(z, t), n) && FieldsAt(m, n, e)
    requires IsList(m', head, Nodes(z, t)[..i] + [n] + Nodes(z, t)[i..]) && Untouched(m, m', head, Nodes(z, t), n)
    ensures Holds(m', head, z[..i] + [e] + z[i..], t)
  {
    hide IsList, Untouched, FieldsAt;
    var ns, z' := Nodes(z, t), z[..i] + [e] + z[i..];
    var ns' := ns[..i] + [n] + ns[i..];
    assert Nodes(z', t) == ns';
    InsertedSpread(head, ns, i, n);
    forall k | 0 <= k < |z'| ensures FieldsAt(m', NodeOf(z'[k], t), z'[k]) {
      if k == i {
        UntouchedFields(m, m', head, ns, n, n, e);
      } else {
        var o := if k < i then k else k - 1;
        assert z'[k] == z[o] && FieldsAt(m, NodeOf(z[o], t), z[o]) && Apart20(ns[o], n);
        UntouchedFields(m, m', head, ns, n, ns[o], z[o]);
      }
    }
  }

  /** alloc_new on the nodes: the list in memory becomes the one of Heap.AllocNew. */
  method AllocNew(h: Machine, head: int, size: nat, align: nat, fill: int, ghost z: seq<Info>, ghost t: int, ghost kind: Kind)
    returns (addr: nat, ghost k: nat)
    requires Holds(h.mem, head, z, t) && Sane(z) && fill == NodeOf(Info(0, 0, 0, kind, TEMP), t) && Spare20(head, Nodes(z, t), fill)
    requires 0 < size && size + align <= TWO32 && IsAlign(align)
    requires forall e :: e in z ==> 0 < e.start
    modifies h
    ensures addr == 0 ==> h.mem == old(h.mem) && !ZoneHasRoom(z, size, align)
    ensures addr != 0 ==> FirstFit(z, k, addr, size, align) && Holds(h.mem, head, Reserve(z, k, addr, size, kind, TEMP), t)
    ensures Elsewhere(old(h.mem), h.mem, head, Nodes(z, t), fill)
  {
    hide IsList, Spread, Read, FieldsAt, Spare20, Elsewhere;
    ghost var ns := Nodes(z, t);
    ElsewhereSame(h.mem, head, ns, fill);
    ListHead(h.mem, head, z, t);
    var p := Read(h.mem, head);
    k := 0;
    while p != 0
      invariant h.mem == old(h.mem) && 0 <= k <= |z| && p == Target(ns, k)
      invariant forall j :: 0 <= j < k ==> !Room(z[j], size, align)
      decreases |z| - k
    {
      EntryAt(h.mem, head, z, t, k);
      var e := Info(Read(h.mem, p + RANGE_START), Read(h.mem, p + RANGE_END), Read(h.mem, p + ALLOC_SIZE), Data, TEMP);
      FitsIsRoom(e, size, align);
      SameRoom(e, z[k], size, align);
      if Fits(e, size, align) {
        addr := NewEnd(e, size, align);
        Take(h, head, p, fill, addr, size, z, t, k, kind);
        return;
      }
      p := Read(h.mem, p);
      k := k + 1;
    }
    NoMore(z, t, k, head, h.mem);
    return 0, k;
  }

  /** The entry found gives up the top of its range to the new one. */
  method Take(h: Machine, head: int, p: int, fill: int, addr: nat, size: nat,
              ghost z: seq<Info>, ghost t: int, ghost k: nat, ghost kind: Kind)
    requires Holds(h.mem, head, z, t) && k < |z| && p == NodeOf(z[k], t)
    requires fill == NodeOf(Info(0, 0, 0, kind, TEMP), t) && Spare20(head, Nodes(z, t), fill)
    modifies h
    ensures Holds(h.mem, head, Reserve(z, k, addr, size, kind, TEMP), t)
    ensures Elsewhere(old(h.mem), h.mem, head, Nodes(z, t), fill)
  {
    hide IsList, Spread, Read, Spare20, Elsewhere, FieldsAt, Untouched, Outside;
    ghost var ns, m0 := Nodes(z, t), h.mem;
    ghost var e, z2 := Info(addr, z[k].end, size, kind, TEMP), z[k := z[k].(end := addr)];
    SetFields(h, head, p, fill, addr, size, z, t, k, e);
    ghost var m2 := h.mem;
    assert Nodes(z2, t) == ns;
    SpareIsOutside(head, ns, fill);
    h.AddBefore(fill, p, head, ns, k);
    LinkedHolds(m2, h.mem, head, z2, t, k, e, fill);
    assert z2[..k] + [e] + z2[k..] == Reserve(z, k, addr, size, kind, TEMP);
    UntouchedElsewhere(m2, h.mem, head, ns, fill);
    ElsewhereTwice(m0, m2, h.mem, head, ns, fill);
  }

  /** The fields of both entries. */
  method SetFields(h: Machine, head: int, p: int, fill: int, addr: nat, size: nat,
                   ghost z: seq<Info>, ghost t: int, ghost k: nat, ghost e: Info)
    requires Holds(h.mem, head, z, t) && k < |z| && p == NodeOf(z[k], t) && Spare20(head, Nodes(z, t), fill)
    requires e.start == addr && e.end == z[k].end && e.size == size
    modifies h
    ensures Holds(h.mem, head, z[k := z[k].(end := addr)], t) && FieldsAt(h.mem, fill, e)
    ensures Elsewhere(old(h.mem), h.mem, head, Nodes(z, t), fill)
  {
    hide IsList, Spread, Read, Spare20, Elsewhere;
    ghost var ns, m0 := Nodes(z, t), h.mem;
    EntryAt(h.mem, head, z, t, k);
    SpareIs(head, ns, fill);
    FillKeeps(h.mem, head, z, t, fill, e);
    var end := Read(h.mem, p + RANGE_END);
    h.mem := h.mem[fill + RANGE_START := addr];
    h.mem := h.mem[fill + RANGE_END := end];
    h.mem := h.mem[fill + ALLOC_SIZE := size];
    assert h.mem == Filled(m0, fill, e);
    EndSet(h.mem, head, z, t, k, addr);
    FieldOfOther(h.mem, p, RANGE_END, addr, fill, e);
    OneField(h.mem, head, ns, k, addr, fill);
    FilledElsewhere(m0, head, ns, fill, e);
    ElsewhereTwice(m0, h.mem, h.mem[p + RANGE_END := addr], head, ns, fill);
    h.mem := h.mem[p + RANGE_END := addr];
  }

  lemma FilledElsewhere(m: Memory, head: int, ns: seq<int>, n: int, e: Info)
    ensures Elsewhere(m, Filled(m, n, e), head, ns, n)
  {}

  lemma SpareIs(head: int, ns: seq<int>, n: int)
    requires Spare20(head, ns, n)
    ensures 0 < n && OffHead(head, n) && forall i :: 0 <= i < |ns| ==> Apart20(ns[i], n)
  {}

  lemma ElsewhereSame(m: Memory, head: int, ns: seq<int>, n: int)
    ensures Elsewhere(m, m, head, ns, n)
  {}

  lemma ListHead(m: Memory, head: int, z: seq<Info>, t: int)
    requires Holds(m, head, z, t)
    ensures Read(m, head) == Target(Nodes(z, t), 0)
  {
    assert Link(head, Nodes(z, t), 0) == head;
  }

  /** What the cells of entry `k` say. */
  lemma EntryAt(m: Memory, head: int, z: seq<Info>, t: int, k: nat)
    requires Holds(m, head, z, t) && k <= |z|
    ensures k < |z| <==> Target(Nodes(z, t), k) != 0
    ensures k < |z| ==>
              var n := NodeOf(z[k], t);
              && Target(Nodes(z, t), k) == n && Read(m, n) == Target(Nodes(z, t), k + 1)
              && Read(m, n + RANGE_START) == z[k].start && Read(m, n + RANGE_END) == z[k].end && Read(m, n + ALLOC_SIZE) == z[k].size
  {
    hide IsList, Read;
    var ns := Nodes(z, t);
    if k < |z| {
      NextOf(m, head, ns, k);
      assert FieldsAt(m, NodeOf(z[k], t), z[k]) && 0 < ns[k];
    }
  }

  lemma NextOf(m: Memory, head: int, ns: seq<int>, k: nat)
    requires IsList(m, head, ns) && k < |ns|
    ensures Read(m, ns[k]) == Target(ns, k + 1)
  {
    assert Link(head, ns, k + 1) == ns[k];
  }

  lemma NoMore(z: seq<Info>, t: int, k: nat, head: int, m: Memory)
    requires Holds(m, head, z, t) && k <= |z| && Target(Nodes(z, t), k) == 0
    ensures k == |z|
  {
    EntryAt(m, head, z, t, k);
  }

  lemma SameRoom(e: Info, f: Info, size: nat, align: nat)
    requires 0 < align && e.start == f.start && e.end == f.end && e.size == f.size
    ensures Room(e, size, align) <==> Room(f, size, align)
  {
    if a: nat :| a % align == 0 && e.start + e.size <= a && a + size <= e.end { assert f.start + f.size <= a; }
    if a: nat :| a % align == 0 && f.start + f.size <= a && a + size <= f.end { assert e.start + e.size <= a; }
  }

  // ---- alloc_free ----

  lemma {:induction false} UnlinkedHolds(m: Memory, m': Memory, head: int, z: seq<Info>, t: int, i: nat)
    requires Holds(m, head, z, t) && i < |z|
    requires IsList(m', head, Without(Nodes(z, t), i)) && Untouched(m, m', head, Nodes(z, t), NodeOf(z[i], t))
    ensures Holds(m', head, Unlink(z, i), t)
  {
    hide IsList, Untouched, FieldsAt;
    var ns, z' := Nodes(z, t), Unlink(z, i);
    assert Nodes(z', t) == Without(ns, i);
    forall k | 0 <= k < |z'| ensures FieldsAt(m', NodeOf(z'[k], t), z'[k]) {
      var o := if k < i then k else k + 1;
      assert z'[k] == z[o] && FieldsAt(m, NodeOf(z[o], t), z[o]) && Apart20(ns[o], ns[i]);
      UntouchedFields(m, m', head, ns, ns[i], ns[o], z[o]);
    }
  }

  /** The next lower entry takes over the range of entry `i` if it touches it. */
  function Widened(z: seq<Info>, i: nat): (r: seq<Info>)
    requires i < |z|
    ensures |r| == |z| && r[i] == z[i]
  {
    if i + 1 < |z| && z[i+1].end == z[i].start then z[i+1 := z[i+1].(end := z[i].end)] else z
  }

  method Widen(h: Machine, ghost head: int, n: int, ghost z: seq<Info>, ghost t: int, ghost i: nat)
    requires Holds(h.mem, head, z, t) && i < |z| && n == NodeOf(z[i], t)
    modifies h
    ensures Holds(h.mem, head, Widened(z, i), t) && Nodes(Widened(z, i), t) == Nodes(z, t)
    ensures Elsewhere(old(h.mem), h.mem, head, Nodes(z, t), n)
  {
    hide IsList, Spread, Read, Elsewhere;
    ghost var ns := Nodes(z, t);
    ElsewhereSame(h.mem, head, ns, n);
    EntryAt(h.mem, head, z, t, i);
    EntryAt(h.mem, head, z, t, i + 1);
    var next := Read(h.mem, n);
    if next != 0 && Read(h.mem, next + RANGE_END) == Read(h.mem, n + RANGE_START) {
      EndSet(h.mem, head, z, t, i + 1, z[i].end);
      OneField(h.mem, head, ns, i + 1, z[i].end, n);
      h.mem := h.mem[next + RANGE_END := Read(h.mem, n + RANGE_END)];
    }
  }

  lemma OneField(m: Memory, head: int, ns: seq<int>, i: nat, v: int, n: int)
    requires i < |ns|
    ensures Elsewhere(m, m[ns[i] + RANGE_END := v], head, ns, n)
  {
    assert InInfo(ns[i], ns[i] + RANGE_END);
  }

  /** alloc_free on the nodes: the list in memory becomes the one that Release gives. */
  method Free(h: Machine, ghost head: int, n: int, ghost z: seq<Info>, ghost t: int, ghost i: nat)
    requires Holds(h.mem, head, z, t) && i < |z| && n == NodeOf(z[i], t)
    modifies h
    ensures Holds(h.mem, head, Release(z, i), t)
    ensures Elsewhere(old(h.mem), h.mem, head, Nodes(z, t), n)
  {
    hide IsList, Spread, Read, Elsewhere, FieldsAt, Untouched;
    ghost var m0 := h.mem;
    Widen(h, head, n, z, t, i);
    ghost var m1, z1 := h.mem, Widened(z, i);
    h.Del(n, head, Nodes(z, t), i);
    UnlinkedHolds(m1, h.mem, head, z1, t, i);
    UntouchedElsewhere(m1, h.mem, head, Nodes(z, t), n);
    ElsewhereTwice(m0, m1, h.mem, head, Nodes(z, t), n);
  }

  lemma ElsewhereTwice(m0: Memory, m1: Memory, m2: Memory, head: int, ns: seq<int>, n: int)
    requires Elsewhere(m0, m1, head, ns, n) && Elsewhere(m1, m2, head, ns, n)
    ensures Elsewhere(m0, m2, head, ns, n)
  {}

  // ---- The end of alloc_new_detail ----

  /** Entry `i` is the only one of its kind that belongs to the stack record. */
  predicate OnlyTemp(z: seq<Info>, i: nat, kind: Kind) {
    && i < |z| && z[i].rec == TEMP && z[i].kind == kind
    && forall k :: 0 <= k < |z| && z[k].rec == TEMP && z[k].kind == kind ==> k == i
  }

  predicate NoTemp(z: seq<Info>, kind: Kind) { forall k :: 0 <= k < |z| && z[k].rec == TEMP ==> z[k].kind != kind }

  /** No cell of the list lies in the record's new home. */
  ghost predicate OffRecord(head: int, ns: seq<int>, d: int) {
    forall a :: CellOf(head, ns, a) ==> a < d || d + 4 * RECORD_WORDS <= a
  }

  ghost predicate CellsApart(h1: int, ns1: seq<int>, h2: int, ns2: seq<int>) {
    forall a :: CellOf(h1, ns1, a) ==> !CellOf(h2, ns2, a)
  }

  lemma OffIsClear(head: int, ns: seq<int>, d: int)
    requires OffRecord(head, ns, d)
    ensures Clear(head, ns, d, 4 * RECORD_WORDS)
  {
    forall a | OwnsCell(head, ns, a) ensures a < d || d + 4 * RECORD_WORDS <= a { LinksAreCells(head, ns, a); }
  }

  lemma ApartIsDisjoint(h1: int, ns1: seq<int>, h2: int, ns2: seq<int>)
    requires CellsApart(h1, ns1, h2, ns2)
    ensures HList.Disjoint(h1, ns1, h2, ns2)
  {
    forall a | OwnsCell(h1, ns1, a) ensures !OwnsCell(h2, ns2, a) {
      LinksAreCells(h1, ns1, a);
      LinksAreCells(h2, ns2, a);
    }
  }

  /** An entry that does not move keeps its cells. */
  lemma {:induction false} StaysPut(m: Memory, m': Memory, h1: int, ns1: seq<int>, h2: int, ns2: seq<int>, d: int, k: nat, e: Info)
    requires Spread(h1, ns1) && OffRecord(h1, ns1, d) && k < |ns1| && FieldsAt(m, ns1[k], e)
    requires (h1 == h2 && ns1 == ns2) || CellsApart(h1, ns1, h2, ns2)
    requires forall a :: NoNode(h1, ns1, h2, ns2, d, a) ==> Read(m', a) == Read(m, a)
    ensures FieldsAt(m', ns1[k], e)
  {
    hide Read;
    var n := ns1[k];
    forall a | a in {n + RANGE_START, n + RANGE_END, n + ALLOC_SIZE} ensures Read(m', a) == Read(m, a) {
      assert InInfo(n, a) && CellOf(h1, ns1, a);
      NotALink(h1, ns1, k, a);
      if !(h1 == h2 && ns1 == ns2) { LinksAreCells(h2, ns2, a); }
      assert NoNode(h1, ns1, h2, ns2, d, a);
    }
    assert Read(m', n + RANGE_START) == Read(m, n + RANGE_START);
  }

  lemma NotALink(head: int, ns: seq<int>, k: nat, a: int)
    requires Spread(head, ns) && k < |ns| && ns[k] + 8 <= a < ns[k] + INFO_SIZE
    ensures !OwnsCell(head, ns, a)
  {
    assert OffHead(head, ns[k]);
    if i :| 0 <= i < |ns| && (a == ns[i] || a == Pprev(ns[i])) {
      assert i == k || Apart20(ns[i], ns[k]);
    }
  }

  lemma OtherHead(h1: int, ns1: seq<int>, h2: int, ns2: seq<int>)
    requires CellsApart(h1, ns1, h2, ns2)
    ensures CellsApart(h2, ns2, h1, ns1)
  {}

  /** One list after the move: the entries of the stack record are at home, the others as before. */
  lemma {:induction false} MovedHolds(m: Memory, m': Memory, head: int, z: seq<Info>, t: int, d: nat, h2: int, ns2: seq<int>)
    requires Holds(m, head, z, t) && 0 < d && OffRecord(head, Nodes(z, t), d)
    requires Spread(head, Nodes(Retarget(z, d), t)) && IsList(m', head, Nodes(Retarget(z, d), t))
    requires (head == h2 && Nodes(z, t) == ns2) || CellsApart(head, Nodes(z, t), h2, ns2)
    requires forall k :: IsField(k) ==> Read(m', d + k) == Read(m, t + k)
    requires forall a :: NoNode(head, Nodes(z, t), h2, ns2, d, a) ==> Read(m', a) == Read(m, a)
    ensures Holds(m', head, Retarget(z, d), t)
  {
    hide IsList, Spread, OffRecord, CellsApart, NoNode;
    var z' := Retarget(z, d);
    forall k | 0 <= k < |z'| ensures FieldsAt(m', NodeOf(z'[k], t), z'[k]) {
      assert FieldsAt(m, NodeOf(z[k], t), z[k]);
      if z[k].rec == TEMP {
        var o := if z[k].kind == Data then DATA_NODE else 0;
        assert IsField(o + RANGE_START) && IsField(o + RANGE_END) && IsField(o + ALLOC_SIZE);
        assert Read(m', d + (o + RANGE_START)) == Read(m, t + (o + RANGE_START));
      } else {
        StaysPut(m, m', head, Nodes(z, t), h2, ns2, d, k, z[k]);
      }
    }
  }

  /** memcpy and hlist_replace twice on the nodes: every list becomes the one that Retarget gives.
      The record's own entry is in `z1`, that of its data in `z2`, which may be the same list. */
  method MoveHome(h: Machine, t: int, d: nat, ghost same: bool, ghost h1: int, ghost z1: seq<Info>, ghost i: nat,
                  ghost h2: int, ghost z2: seq<Info>, ghost j: nat)
    requires Holds(h.mem, h1, z1, t) && OnlyTemp(z1, i, Detail) && Holds(h.mem, h2, z2, t) && OnlyTemp(z2, j, Data)
    requires if same then h1 == h2 && z1 == z2
             else CellsApart(h1, Nodes(z1, t), h2, Nodes(z2, t)) && NoTemp(z1, Data) && NoTemp(z2, Detail)
    requires 0 < d && (d + 4 * RECORD_WORDS <= t || t + 4 * RECORD_WORDS <= d)
    requires OffRecord(h1, Nodes(z1, t), d) && OffRecord(h2, Nodes(z2, t), d)
    requires Spread(h1, Nodes(Retarget(z1, d), t)) && Spread(h2, Nodes(Retarget(z2, d), t))
    modifies h
    ensures Holds(h.mem, h1, Retarget(z1, d), t) && Holds(h.mem, h2, Retarget(z2, d), t)
    ensures forall a :: NoNode(h1, Nodes(z1, t), h2, Nodes(z2, t), d, a) ==> Read(h.mem, a) == old(Read(h.mem, a))
  {
    hide IsList, Spread, Read, OffRecord, CellsApart, NoNode, FieldsAt, HList.Disjoint, Clear, IsField;
    ghost var m, ns1, ns2 := h.mem, Nodes(z1, t), Nodes(z2, t);
    OffIsClear(h1, ns1, d);
    OffIsClear(h2, ns2, d);
    if !same {
      ApartIsDisjoint(h1, ns1, h2, ns2);
      OtherHead(h1, ns1, h2, ns2);
    }
    h.MoveRecord(t, d, same, h1, ns1, i, h2, ns2, j);
    MovedNodes(z1, t, d, i, same, j);
    MovedNodes2(z2, t, d, j, same, i);
    NoNodeSwaps(h1, ns1, h2, ns2, d);
    MovedHolds(m, h.mem, h1, z1, t, d, h2, ns2);
    MovedHolds(m, h.mem, h2, z2, t, d, h1, ns1);
  }

  lemma NoNodeSwaps(h1: int, ns1: seq<int>, h2: int, ns2: seq<int>, d: int)
    ensures forall a :: NoNode(h1, ns1, h2, ns2, d, a) <==> NoNode(h2, ns2, h1, ns1, d, a)
  {}

  lemma {:induction false} MovedNodes(z: seq<Info>, t: int, d: nat, i: nat, same: bool, j: nat)
    requires OnlyTemp(z, i, Detail) && 0 < d && if same then OnlyTemp(z, j, Data) else NoTemp(z, Data)
    ensures Nodes(Retarget(z, d), t) == if same then Nodes(z, t)[i := d][j := d + DATA_NODE] else Nodes(z, t)[i := d]
  {}

  lemma {:induction false} MovedNodes2(z: seq<Info>, t: int, d: nat, j: nat, same: bool, i: nat)
    requires OnlyTemp(z, j, Data) && 0 < d && if same then OnlyTemp(z, i, Detail) else NoTemp(z, Detail)
    ensures Nodes(Retarget(z, d), t) == if same then Nodes(z, t)[i := d][j := d + DATA_NODE] else Nodes(z, t)[j := d + DATA_NODE]
  {}
}
