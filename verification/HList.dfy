// The doubly linked lists of src/list.h: each node has a `next` and, in `pprev`, the address of the cell
// that leads to it; and what moving a node in memory does to the lists it is in.

module HList {

  /** The address of a node's `pprev` cell; its `next` is at the node itself. */
  function Pprev(n: int): int { n + 4 }

  type Memory = map<int, int>

  function Read(m: Memory, a: int): int { if a in m then m[a] else 0 }

  /** The cell that points to the i-th node: the list head or the previous node's `next`. */
  function Link(head: int, ns: seq<int>, i: nat): int
    requires i <= |ns|
  {
    if i == 0 then head else ns[i-1]
  }

  /** What that cell holds: the node, or NULL at the end. */
  function Target(ns: seq<int>, i: nat): int
    requires i <= |ns|
  {
    if i < |ns| then ns[i] else 0
  }

  /** The cells of the list do not overlap. */
  predicate Separate(head: int, ns: seq<int>) {
    && (forall i :: 0 <= i < |ns| ==> ns[i] != 0 && ns[i] != head && Pprev(ns[i]) != head)
    && (forall i, j :: 0 <= i < |ns| && 0 <= j < |ns| && i != j ==>
          ns[i] != ns[j] && Pprev(ns[i]) != ns[j] && Pprev(ns[i]) != Pprev(ns[j]))
  }

  /** The memory holds the list `ns` at `head`. */
  predicate IsList(m: Memory, head: int, ns: seq<int>) {
    && Separate(head, ns)
    && (forall i :: 0 <= i <= |ns| ==> Read(m, Link(head, ns, i)) == Target(ns, i))
    && (forall i :: 0 <= i < |ns| ==> Read(m, Pprev(ns[i])) == Link(head, ns, i))
  }

  predicate OwnsCell(head: int, ns: seq<int>, a: int) {
    a == head || exists i :: 0 <= i < |ns| && (a == ns[i] || a == Pprev(ns[i]))
  }

  /** A list only depends on its own cells. */
  lemma ListFrame(m: Memory, m': Memory, head: int, ns: seq<int>)
    requires IsList(m, head, ns)
    requires forall a :: OwnsCell(head, ns, a) ==> Read(m', a) == Read(m, a)
    ensures IsList(m', head, ns)
  {
    forall i | 0 <= i <= |ns| ensures Read(m', Link(head, ns, i)) == Target(ns, i) {
      assert OwnsCell(head, ns, Link(head, ns, i));
    }
    forall i | 0 <= i < |ns| ensures Read(m', Pprev(ns[i])) == Link(head, ns, i) {
      assert OwnsCell(head, ns, Pprev(ns[i]));
    }
  }

  function Without(ns: seq<int>, i: nat): seq<int>
    requires i < |ns|
  {
    ns[..i] + ns[i+1..]
  }

  function With(ns: seq<int>, i: nat, n: int): seq<int>
    requires i <= |ns|
  {
    ns[..i] + [n] + ns[i..]
  }

  /** A node elsewhere, with room for its two cells. */
  predicate Outside(head: int, ns: seq<int>, n: int) {
    && n != 0 && n != head && Pprev(n) != head && Pprev(n) != n
    && forall i :: 0 <= i < |ns| ==> n != ns[i] && Pprev(n) != ns[i] && n != Pprev(ns[i]) && Pprev(n) != Pprev(ns[i])
  }

  lemma WithoutAt(ns: seq<int>, i: nat, k: nat)
    requires i < |ns|
    ensures |Without(ns, i)| == |ns| - 1
    ensures k < |ns| - 1 ==> Without(ns, i)[k] == if k < i then ns[k] else ns[k+1]
  {}

  lemma WithAt(ns: seq<int>, i: nat, n: int, k: nat)
    requires i <= |ns|
    ensures |With(ns, i, n)| == |ns| + 1
    ensures k <= |ns| ==> With(ns, i, n)[k] == if k < i then ns[k] else if k == i then n else ns[k-1]
  {}

  lemma LinksDistinct(head: int, ns: seq<int>, i: nat, k: nat)
    requires Separate(head, ns) && i <= |ns| && k <= |ns| && i != k
    ensures Link(head, ns, i) != Link(head, ns, k)
  {}

  lemma LinkIsNotPprev(head: int, ns: seq<int>, i: nat, k: nat)
    requires Separate(head, ns) && i <= |ns| && k < |ns|
    ensures Link(head, ns, i) != Pprev(ns[k])
  {}

  /** Bridging the list over its i-th node: *pprev = next, next->pprev = pprev. */
  function Bridged(m: Memory, pprev: int, next: int): Memory {
    if next != 0 then m[pprev := next][Pprev(next) := pprev] else m[pprev := next]
  }

  lemma BridgedAt(m: Memory, pprev: int, next: int, a: int)
    ensures Read(Bridged(m, pprev, next), a) ==
            if next != 0 && a == Pprev(next) then pprev
            else if a == pprev then next
            else Read(m, a)
  {}

  lemma TargetIsNode(head: int, ns: seq<int>, i: nat)
    requires Separate(head, ns) && i <= |ns|
    ensures Target(ns, i) != 0 <==> i < |ns|
  {}

  lemma PprevsDistinct(head: int, ns: seq<int>, i: nat, k: nat)
    requires Separate(head, ns) && i < |ns| && k < |ns| && i != k
    ensures Pprev(ns[i]) != Pprev(ns[k])
  {}

  lemma {:induction false} DelLink(m: Memory, head: int, ns: seq<int>, i: nat, k: nat)
    requires IsList(m, head, ns) && i < |ns| && k <= |ns| - 1
    ensures var m' := Bridged(m, Link(head, ns, i), Target(ns, i + 1)); var t := Without(ns, i);
            Read(m', Link(head, t, k)) == Target(t, k)
  {
    hide Separate, Without, Pprev, Bridged, Read;
    var o := if k <= i then k else k + 1;
    WithoutAt(ns, i, k);
    if k > 0 { WithoutAt(ns, i, k - 1); }
    assert Link(head, Without(ns, i), k) == Link(head, ns, o);
    BridgedAt(m, Link(head, ns, i), Target(ns, i + 1), Link(head, ns, o));
    TargetIsNode(head, ns, i + 1);
    if i + 1 < |ns| { LinkIsNotPprev(head, ns, o, i + 1); }
    if o != i { LinksDistinct(head, ns, o, i); }
  }

  lemma {:induction false} DelPprev(m: Memory, head: int, ns: seq<int>, i: nat, k: nat)
    requires IsList(m, head, ns) && i < |ns| && k < |ns| - 1
    ensures var m' := Bridged(m, Link(head, ns, i), Target(ns, i + 1)); var t := Without(ns, i);
            Read(m', Pprev(t[k])) == Link(head, t, k)
  {
    hide Separate, Without, Pprev, Bridged, Read;
    var o := if k < i then k else k + 1;
    WithoutAt(ns, i, k);
    if k > 0 { WithoutAt(ns, i, k - 1); }
    assert Without(ns, i)[k] == ns[o];
    BridgedAt(m, Link(head, ns, i), Target(ns, i + 1), Pprev(ns[o]));
    TargetIsNode(head, ns, i + 1);
    LinkIsNotPprev(head, ns, i, o);
    if o != i + 1 && i + 1 < |ns| { PprevsDistinct(head, ns, o, i + 1); }
  }

  lemma {:induction false} DelSeparate(head: int, ns: seq<int>, i: nat)
    requires Separate(head, ns) && i < |ns|
    ensures Separate(head, Without(ns, i))
  {
    var t := Without(ns, i);
    assert forall k :: 0 <= k < |t| ==> t[k] == ns[if k < i then k else k + 1];
  }

  lemma {:induction false} DelIsList(m: Memory, head: int, ns: seq<int>, i: nat)
    requires IsList(m, head, ns) && i < |ns|
    ensures IsList(Bridged(m, Link(head, ns, i), Target(ns, i + 1)), head, Without(ns, i))
  {
    hide Separate, Bridged, Without;
    var m', t := Bridged(m, Link(head, ns, i), Target(ns, i + 1)), Without(ns, i);
    WithoutAt(ns, i, 0);
    DelSeparate(head, ns, i);
    forall k | 0 <= k <= |t| ensures Read(m', Link(head, t, k)) == Target(t, k) { DelLink(m, head, ns, i, k); }
    forall k | 0 <= k < |t| ensures Read(m', Pprev(t[k])) == Link(head, t, k) { DelPprev(m, head, ns, i, k); }
  }

  /** Linking `n` in where `pprev` points: n->pprev = pprev, n->next = next, next->pprev = &n->next,
      *pprev = n. */
  function Linked(m: Memory, n: int, pprev: int, next: int): Memory {
    var m1 := m[Pprev(n) := pprev][n := next];
    var m2 := if next != 0 then m1[Pprev(next) := n] else m1;
    m2[pprev := n]
  }

  lemma {:induction false} AddSeparate(head: int, ns: seq<int>, i: nat, n: int)
    requires Separate(head, ns) && i <= |ns| && Outside(head, ns, n)
    ensures Separate(head, With(ns, i, n))
  {
    var t := With(ns, i, n);
    assert forall k :: 0 <= k < |t| ==> t[k] == if k < i then ns[k] else if k == i then n else ns[k-1];
  }

  lemma LinkedAt(m: Memory, n: int, pprev: int, next: int, a: int)
    ensures Read(Linked(m, n, pprev, next), a) ==
            if a == pprev then n
            else if next != 0 && a == Pprev(next) then n
            else if a == n then next
            else if a == Pprev(n) then pprev
            else Read(m, a)
  {}

  lemma OutsideLink(head: int, ns: seq<int>, n: int, i: nat)
    requires Outside(head, ns, n) && i <= |ns|
    ensures Link(head, ns, i) != n && Link(head, ns, i) != Pprev(n)
  {}

  lemma OutsidePprev(head: int, ns: seq<int>, n: int, i: nat)
    requires Outside(head, ns, n) && i < |ns|
    ensures Pprev(ns[i]) != n && Pprev(ns[i]) != Pprev(n)
  {}

  lemma {:induction false} AddLink(m: Memory, head: int, ns: seq<int>, i: nat, n: int, k: nat)
    requires IsList(m, head, ns) && i <= |ns| && Outside(head, ns, n) && k <= |ns| + 1
    ensures var m' := Linked(m, n, Link(head, ns, i), Target(ns, i)); var t := With(ns, i, n);
            Read(m', Link(head, t, k)) == Target(t, k)
  {
    hide With, Pprev, Linked, Outside, Separate, Read;
    var t := With(ns, i, n);
    var pprev, next := Link(head, ns, i), Target(ns, i);
    WithAt(ns, i, n, k);
    if k > 0 { WithAt(ns, i, n, k - 1); }
    LinkedAt(m, n, pprev, next, Link(head, t, k));
    OutsideLink(head, ns, n, i);
    TargetIsNode(head, ns, i);
    if k == i + 1 {
      if i < |ns| { OutsidePprev(head, ns, n, i); }
    } else {
      var o := if k <= i then k else k - 1;
      assert Link(head, t, k) == Link(head, ns, o);
      OutsideLink(head, ns, n, o);
      if i < |ns| { LinkIsNotPprev(head, ns, o, i); }
      if o != i { LinksDistinct(head, ns, o, i); }
    }
  }

  lemma {:induction false} AddPprev(m: Memory, head: int, ns: seq<int>, i: nat, n: int, k: nat)
    requires IsList(m, head, ns) && i <= |ns| && Outside(head, ns, n) && k <= |ns|
    requires Pprev(n) != n
    ensures var m' := Linked(m, n, Link(head, ns, i), Target(ns, i)); var t := With(ns, i, n);
            Read(m', Pprev(t[k])) == Link(head, t, k)
  {
    WithAt(ns, i, n, k);
    hide With, Pprev, Linked, Outside, Separate, Read;
    var t := With(ns, i, n);
    var pprev, next := Link(head, ns, i), Target(ns, i);
    if k > 0 { WithAt(ns, i, n, k - 1); }
    LinkedAt(m, n, pprev, next, Pprev(t[k]));
    OutsideLink(head, ns, n, i);
    TargetIsNode(head, ns, i);
    if k == i {
      if i < |ns| { OutsidePprev(head, ns, n, i); }
    } else {
      var o := if k < i then k else k - 1;
      assert t[k] == ns[o];
      LinkIsNotPprev(head, ns, i, o);
      OutsidePprev(head, ns, n, o);
      if o != i && i < |ns| { PprevsDistinct(head, ns, o, i); }
    }
  }

  lemma {:induction false} AddIsList(m: Memory, head: int, ns: seq<int>, i: nat, n: int)
    requires IsList(m, head, ns) && i <= |ns| && Outside(head, ns, n)
    ensures IsList(Linked(m, n, Link(head, ns, i), Target(ns, i)), head, With(ns, i, n))
  {
    AddSeparate(head, ns, i, n);
    var m', t := Linked(m, n, Link(head, ns, i), Target(ns, i)), With(ns, i, n);
    assert |t| == |ns| + 1;
    hide Separate, Linked, With, Outside;
    forall k | 0 <= k <= |t| ensures Read(m', Link(head, t, k)) == Target(t, k) { AddLink(m, head, ns, i, n, k); }
    forall k | 0 <= k < |t| ensures Read(m', Pprev(t[k])) == Link(head, t, k) { AddPprev(m, head, ns, i, n, k); }
  }

  /** hlist_replace links the new node between the old one's neighbours. */
  lemma {:induction false} ReplaceLink(m: Memory, head: int, ns: seq<int>, i: nat, n: int, k: nat)
    requires IsList(m, head, ns) && i < |ns| && Outside(head, ns, n) && k <= |ns|
    ensures Read(Linked(m, n, Link(head, ns, i), Target(ns, i + 1)), Link(head, ns[i := n], k)) == Target(ns[i := n], k)
  {
    hide Pprev, Linked, Outside, Separate, Read;
    LinkedAt(m, n, Link(head, ns, i), Target(ns, i + 1), Link(head, ns[i := n], k));
    OutsideLink(head, ns, n, i);
    TargetIsNode(head, ns, i + 1);
    if k == i + 1 {
      if i + 1 < |ns| { OutsidePprev(head, ns, n, i + 1); }
    } else {
      assert Link(head, ns[i := n], k) == Link(head, ns, k);
      OutsideLink(head, ns, n, k);
      if i + 1 < |ns| { LinkIsNotPprev(head, ns, k, i + 1); }
      if k != i { LinksDistinct(head, ns, k, i); }
    }
  }

  lemma {:induction false} ReplacePprev(m: Memory, head: int, ns: seq<int>, i: nat, n: int, k: nat)
    requires IsList(m, head, ns) && i < |ns| && Outside(head, ns, n) && k < |ns| && Pprev(n) != n
    ensures Read(Linked(m, n, Link(head, ns, i), Target(ns, i + 1)), Pprev(ns[i := n][k])) == Link(head, ns[i := n], k)
  {
    hide Pprev, Linked, Outside, Separate, Read;
    LinkedAt(m, n, Link(head, ns, i), Target(ns, i + 1), Pprev(ns[i := n][k]));
    OutsideLink(head, ns, n, i);
    TargetIsNode(head, ns, i + 1);
    if k == i {
      if i + 1 < |ns| { OutsidePprev(head, ns, n, i + 1); }
    } else {
      LinkIsNotPprev(head, ns, i, k);
      OutsidePprev(head, ns, n, k);
      if k != i + 1 && i + 1 < |ns| { PprevsDistinct(head, ns, k, i + 1); }
    }
  }

  lemma {:induction false} ReplaceIsList(m: Memory, head: int, ns: seq<int>, i: nat, n: int)
    requires IsList(m, head, ns) && i < |ns| && Outside(head, ns, n)
    ensures IsList(Linked(m, n, Link(head, ns, i), Target(ns, i + 1)), head, ns[i := n])
  {
    var m', t := Linked(m, n, Link(head, ns, i), Target(ns, i + 1)), ns[i := n];
    assert Separate(head, t);
    hide Separate, Linked, Outside;
    forall k | 0 <= k <= |t| ensures Read(m', Link(head, t, k)) == Target(t, k) { ReplaceLink(m, head, ns, i, n, k); }
    forall k | 0 <= k < |t| ensures Read(m', Pprev(t[k])) == Link(head, t, k) { ReplacePprev(m, head, ns, i, n, k); }
  }

  /** What hlist_replace reads: neither the new node nor the first writes are in the way. */
  lemma {:induction false} ReplaceFacts(m: Memory, head: int, ns: seq<int>, i: nat, n: int)
    requires IsList(m, head, ns) && i < |ns| && Outside(head, ns, n)
    ensures Separate(head, ns)
    ensures Read(m, ns[i]) == Target(ns, i + 1) && Read(m, Pprev(ns[i])) == Link(head, ns, i)
    ensures Pprev(ns[i]) != n && Pprev(ns[i]) != Pprev(n) && Pprev(n) != n && Link(head, ns, i) != Pprev(n)
    ensures Target(ns, i + 1) != 0 ==> Pprev(Target(ns, i + 1)) != Pprev(n) && Pprev(Target(ns, i + 1)) != n
                                       && Pprev(Target(ns, i + 1)) != Pprev(ns[i])
  {
    assert Link(head, ns, i + 1) == ns[i];
    hide Separate, Outside, Pprev;
    OutsidePprev(head, ns, n, i);
    OutsideLink(head, ns, n, i);
    if i + 1 < |ns| {
      OutsidePprev(head, ns, n, i + 1);
      PprevsDistinct(head, ns, i, i + 1);
    }
  }

  /** Cells of neither the list nor the node keep their value. */
  ghost predicate Untouched(m: Memory, m': Memory, head: int, ns: seq<int>, n: int) {
    forall a :: !OwnsCell(head, ns, a) && a != n && a != Pprev(n) ==> Read(m', a) == Read(m, a)
  }

  lemma {:induction false} LinkedUntouched(m: Memory, head: int, ns: seq<int>, n: int, i: nat, k: nat)
    requires Separate(head, ns) && i <= |ns| && k <= |ns|
    ensures Untouched(m, Linked(m, n, Link(head, ns, i), Target(ns, k)), head, ns, n)
  {
    hide Separate, Linked, Pprev;
    forall a | !OwnsCell(head, ns, a) && a != n && a != Pprev(n)
      ensures Read(Linked(m, n, Link(head, ns, i), Target(ns, k)), a) == Read(m, a)
    {
      LinkedAt(m, n, Link(head, ns, i), Target(ns, k), a);
      assert Target(ns, k) != 0 ==> k < |ns|;
    }
  }

  lemma {:induction false} BridgedUntouched(m: Memory, head: int, ns: seq<int>, i: nat, n: int)
    requires Separate(head, ns) && i < |ns|
    ensures Untouched(m, Bridged(m, Link(head, ns, i), Target(ns, i + 1)), head, ns, n)
  {
    hide Separate, Pprev;
  }

  /** No cell of the list lies in [d, d + size). */
  ghost predicate Clear(head: int, ns: seq<int>, d: int, size: nat) {
    forall a :: OwnsCell(head, ns, a) ==> a < d || d + size <= a
  }

  /** No cell belongs to both lists. */
  ghost predicate Disjoint(h1: int, ns1: seq<int>, h2: int, ns2: seq<int>) {
    forall a :: OwnsCell(h1, ns1, a) ==> !OwnsCell(h2, ns2, a)
  }

  /** struct allocdetail_s: eleven words, the node of its own allocation at its start and
      that of the tracked data at offset 20. */
  const RECORD_WORDS := 11
  const DATA_NODE := 20

  lemma {:induction false} ClearIsOutside(head: int, ns: seq<int>, d: int, size: nat, n: int)
    requires Clear(head, ns, d, size) && d <= n && n + 8 <= d + size && 0 < d
    ensures Outside(head, ns, n)
  {
    assert OwnsCell(head, ns, head);
    forall i | 0 <= i < |ns|
      ensures n != ns[i] && Pprev(n) != ns[i] && n != Pprev(ns[i]) && Pprev(n) != Pprev(ns[i])
    {
      assert OwnsCell(head, ns, ns[i]) && OwnsCell(head, ns, Pprev(ns[i]));
    }
  }

  /** One list after one of its nodes moved to `d`: the data node's home is still clear. */
  lemma {:induction false} OtherHalfOutside(head: int, ns: seq<int>, i: nat, d: int)
    requires Clear(head, ns, d, 4 * RECORD_WORDS) && i < |ns| && 0 < d
    ensures Outside(head, ns[i := d], d + DATA_NODE)
  {
    ClearIsOutside(head, ns, d, 4 * RECORD_WORDS, d + DATA_NODE);
  }

  /** What hlist_replace writes, in its order. */
  function Replaced(m: Memory, n: int, pprev: int, next: int): Memory {
    var m1 := m[n := next];
    var m2 := if next != 0 then m1[Pprev(next) := n] else m1;
    m2[Pprev(n) := pprev][pprev := n]
  }

  lemma ReplaceOrder(m: Memory, n: int, pprev: int, next: int)
    requires next != 0 ==> Pprev(next) != Pprev(n)
    ensures Replaced(m, n, pprev, next) == Linked(m, n, pprev, next)
  {}

  lemma ReplacedOwns(head: int, ns: seq<int>, i: nat, d: int)
    requires i < |ns|
    ensures forall a :: OwnsCell(head, ns[i := d], a) ==> OwnsCell(head, ns, a) || a == d || a == Pprev(d)
  {}

  /** Bytes of the record that are not list nodes. */
  predicate IsField(k: int) { k in {8, 12, 16, 28, 32, 36, 40} }

  /** Only the record's new home changed. */
  ghost predicate OnlyAt(m: Memory, m': Memory, d: int) {
    forall a :: !(d <= a < d + 4 * RECORD_WORDS) ==> Read(m', a) == Read(m, a)
  }

  ghost predicate RecordAt(m: Memory, t: int, m': Memory, d: int, words: nat) {
    forall k :: 0 <= k < words ==> Read(m', d + 4 * k) == Read(m, t + 4 * k)
  }

  lemma CopyKeepsList(m: Memory, m': Memory, head: int, ns: seq<int>, d: int)
    requires IsList(m, head, ns) && Clear(head, ns, d, 4 * RECORD_WORDS) && OnlyAt(m, m', d)
    ensures IsList(m', head, ns)
  {
    hide IsList, Read;
    ListFrame(m, m', head, ns);
  }

  lemma OtherListKept(m: Memory, m': Memory, h1: int, ns1: seq<int>, h2: int, ns2: seq<int>, d: int)
    requires Untouched(m, m', h1, ns1, d) && Disjoint(h1, ns1, h2, ns2) && Clear(h2, ns2, d, 4 * RECORD_WORDS)
    requires IsList(m, h2, ns2)
    ensures IsList(m', h2, ns2)
  {
    hide IsList, Read, OwnsCell;
    ListFrame(m, m', h2, ns2);
  }

  lemma FirstListKept(m: Memory, m': Memory, h1: int, ns1: seq<int>, i: nat, h2: int, ns2: seq<int>, d: int)
    requires i < |ns1| && Untouched(m, m', h2, ns2, d + DATA_NODE)
    requires Disjoint(h1, ns1, h2, ns2) && Clear(h1, ns1, d, 4 * RECORD_WORDS) && Clear(h2, ns2, d, 4 * RECORD_WORDS)
    requires IsList(m, h1, ns1[i := d])
    ensures IsList(m', h1, ns1[i := d])
  {
    hide IsList, Read, OwnsCell;
    ReplacedOwns(h1, ns1, i, d);
    forall a | OwnsCell(h1, ns1[i := d], a) ensures Read(m', a) == Read(m, a) {
      assert a == d || a == Pprev(d) || OwnsCell(h1, ns1, a);
      assert !OwnsCell(h2, ns2, a) && a != d + DATA_NODE && a != Pprev(d + DATA_NODE);
    }
    ListFrame(m, m', h1, ns1[i := d]);
  }

  /** The two lists a record's nodes are in: one list, or two without common cells. */
  ghost predicate OneOrTwo(same: bool, h1: int, ns1: seq<int>, h2: int, ns2: seq<int>) {
    if same then h1 == h2 && ns1 == ns2 else Disjoint(h1, ns1, h2, ns2)
  }

  /** The second list when the record's first node has moved. */
  function Rest(same: bool, ns1: seq<int>, i: nat, ns2: seq<int>, d: int): seq<int>
    requires i < |ns1|
  {
    if same then ns1[i := d] else ns2
  }

  ghost predicate NoNode(h1: int, ns1: seq<int>, h2: int, ns2: seq<int>, d: int, a: int) {
    !OwnsCell(h1, ns1, a) && !OwnsCell(h2, ns2, a) && !(d <= a < d + 4 * RECORD_WORDS)
  }

  lemma {:induction false} MoveKeeps(m: Memory, m1: Memory, m2: Memory, m3: Memory, t: int, d: int, same: bool,
                                     h1: int, ns1: seq<int>, i: nat, h2: int, ns2: seq<int>)
    requires OneOrTwo(same, h1, ns1, h2, ns2) && i < |ns1|
    requires Clear(h1, ns1, d, 4 * RECORD_WORDS) && Clear(h2, ns2, d, 4 * RECORD_WORDS)
    requires OnlyAt(m, m1, d) && RecordAt(m, t, m1, d, RECORD_WORDS)
    requires Untouched(m1, m2, h1, ns1, d) && Untouched(m2, m3, h2, Rest(same, ns1, i, ns2, d), d + DATA_NODE)
    ensures forall k :: IsField(k) ==> Read(m3, d + k) == Read(m, t + k)
    ensures forall a :: NoNode(h1, ns1, h2, ns2, d, a) ==> Read(m3, a) == Read(m, a)
  {
    hide Read, OwnsCell;
    if same { ReplacedOwns(h1, ns1, i, d); }
    forall k | IsField(k) ensures Read(m3, d + k) == Read(m, t + k) {
      var w := k / 4;
      assert k == 4 * w && 0 <= w < RECORD_WORDS;
      assert Read(m1, d + 4 * w) == Read(m, t + 4 * w);
      assert !OwnsCell(h1, ns1, d + k) && !OwnsCell(h2, ns2, d + k);
      assert !OwnsCell(h2, Rest(same, ns1, i, ns2, d), d + k);
    }
    forall a | NoNode(h1, ns1, h2, ns2, d, a) ensures Read(m3, a) == Read(m, a) {}
  }

  class Machine {
    var mem: Memory

    method Del(n: int, ghost head: int, ghost ns: seq<int>, ghost i: nat)
      requires IsList(mem, head, ns) && i < |ns| && ns[i] == n
      modifies this
      ensures IsList(mem, head, Without(ns, i))
      ensures Untouched(old(mem), mem, head, ns, n)
    {
      hide Separate;
      DelIsList(mem, head, ns, i);
      BridgedUntouched(mem, head, ns, i, n);
      assert Link(head, ns, i + 1) == n;
      assert (Target(ns, i + 1) != 0) <==> i + 1 < |ns| by { TargetIsNode(head, ns, i + 1); }
      var next := Read(mem, n);
      var pprev := Read(mem, Pprev(n));
      mem := mem[pprev := next];
      if next != 0 {
        mem := mem[Pprev(next) := pprev];
      }
    }

    method Add(n: int, pprev: int, ghost head: int, ghost ns: seq<int>, ghost i: nat)
      requires IsList(mem, head, ns) && i <= |ns| && pprev == Link(head, ns, i) && Outside(head, ns, n)
      modifies this
      ensures IsList(mem, head, With(ns, i, n))
      ensures Untouched(old(mem), mem, head, ns, n)
    {
      AddIsList(mem, head, ns, i, n);
      LinkedUntouched(mem, head, ns, n, i, i);
      var next := Read(mem, pprev);
      mem := mem[Pprev(n) := pprev];
      mem := mem[n := next];
      if next != 0 {
        mem := mem[Pprev(next) := n];
      }
      mem := mem[pprev := n];
    }

    method AddBefore(n: int, next: int, ghost head: int, ghost ns: seq<int>, ghost i: nat)
      requires IsList(mem, head, ns) && i < |ns| && next == ns[i] && Outside(head, ns, n)
      modifies this
      ensures IsList(mem, head, ns[..i] + [n] + ns[i..])
      ensures Untouched(old(mem), mem, head, ns, n)
    {
      Add(n, Read(mem, Pprev(next)), head, ns, i);
    }

    method AddAfter(n: int, prev: int, ghost head: int, ghost ns: seq<int>, ghost i: nat)
      requires IsList(mem, head, ns) && i < |ns| && prev == ns[i] && Outside(head, ns, n)
      modifies this
      ensures IsList(mem, head, ns[..i+1] + [n] + ns[i+1..])
      ensures Untouched(old(mem), mem, head, ns, n)
    {
      Add(n, prev, head, ns, i + 1);
    }

    method Replace(o: int, n: int, ghost head: int, ghost ns: seq<int>, ghost i: nat)
      requires IsList(mem, head, ns) && i < |ns| && o == ns[i] && Outside(head, ns, n)
      modifies this
      ensures IsList(mem, head, ns[i := n])
      ensures Untouched(old(mem), mem, head, ns, n)
    {
      hide IsList, Pprev, Outside, Linked, Untouched, Link, Target;
      ghost var pprev, next := Link(head, ns, i), Target(ns, i + 1);
      ReplaceFacts(mem, head, ns, i, n);
      ReplaceOrder(mem, n, pprev, next);
      ReplaceIsList(mem, head, ns, i, n);
      LinkedUntouched(mem, head, ns, n, i, i + 1);
      mem := mem[n := Read(mem, o)];
      if Read(mem, n) != 0 {
        mem := mem[Pprev(Read(mem, n)) := n];
      }
      assert Read(mem, Pprev(o)) == pprev;
      mem := mem[Pprev(n) := Read(mem, Pprev(o))];
      mem := mem[Read(mem, Pprev(n)) := n];
    }

    /** memcpy of one record */
    method CopyRecord(t: int, d: int)
      requires d + 4 * RECORD_WORDS <= t || t + 4 * RECORD_WORDS <= d
      modifies this
      ensures OnlyAt(old(mem), mem, d)
      ensures RecordAt(old(mem), t, mem, d, RECORD_WORDS)
    {
      for w := 0 to RECORD_WORDS
        invariant OnlyAt(old(mem), mem, d)
        invariant RecordAt(old(mem), t, mem, d, w)
      {
        mem := mem[d + 4 * w := Read(mem, t + 4 * w)];
      }
    }

    /** The end of alloc_new_detail: the record at `t`, whose two nodes are linked in `ns1` and
        `ns2`, moves to `d`. The two lists may be one list and the nodes may be neighbours
        in it: the links that the copy took are then stale, but are not used. */
    method MoveRecord(t: int, d: int, ghost same: bool, ghost h1: int, ghost ns1: seq<int>, ghost i: nat,
                      ghost h2: int, ghost ns2: seq<int>, ghost j: nat)
      requires IsList(mem, h1, ns1) && i < |ns1| && ns1[i] == t
      requires IsList(mem, h2, ns2) && j < |ns2| && ns2[j] == t + DATA_NODE
      requires OneOrTwo(same, h1, ns1, h2, ns2)
      requires 0 < d && (d + 4 * RECORD_WORDS <= t || t + 4 * RECORD_WORDS <= d)
      requires Clear(h1, ns1, d, 4 * RECORD_WORDS) && Clear(h2, ns2, d, 4 * RECORD_WORDS)
      modifies this
      ensures same ==> IsList(mem, h1, ns1[i := d][j := d + DATA_NODE])
      ensures !same ==> IsList(mem, h1, ns1[i := d]) && IsList(mem, h2, ns2[j := d + DATA_NODE])
      ensures forall k :: IsField(k) ==> Read(mem, d + k) == old(Read(mem, t + k))
      ensures forall a :: NoNode(h1, ns1, h2, ns2, d, a) ==> Read(mem, a) == old(Read(mem, a))
    {
      hide IsList, Outside, Clear, Untouched, Disjoint, OnlyAt, RecordAt, NoNode, Read;
      CopyRecord(t, d);
      ghost var m1 := mem;
      CopyKeepsList(old(mem), mem, h1, ns1, d);
      CopyKeepsList(old(mem), mem, h2, ns2, d);
      ClearIsOutside(h1, ns1, d, 4 * RECORD_WORDS, d);
      Replace(t, d, h1, ns1, i);
      ghost var m2 := mem;
      ghost var rest := Rest(same, ns1, i, ns2, d);
      if same {
        OtherHalfOutside(h1, ns1, i, d);
      } else {
        OtherListKept(m1, mem, h1, ns1, h2, ns2, d);
        ClearIsOutside(h2, ns2, d, 4 * RECORD_WORDS, d + DATA_NODE);
      }
      assert rest[j] == t + DATA_NODE;
      Replace(t + DATA_NODE, d + DATA_NODE, h2, rest, j);
      if !same { FirstListKept(m2, mem, h1, ns1, i, h2, ns2, d); }
      MoveKeeps(old(mem), m1, m2, mem, t, d, same, h1, ns1, i, h2, ns2);
    }
  }
}
