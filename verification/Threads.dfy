// The cooperative threads of src/stacks.c: the ring of thread nodes, run_thread, switch_next
// and __end_thread, and mutexes.

module Threads {
  import opened HList

  /** Room for the two registers that a paused thread keeps on its stack. */
  const FRAME := 8
  const THREADSTACKSIZE := 4096

  // ---- The ring as linked nodes ----

  function Succ(ns: seq<int>, i: nat): int
    requires i < |ns|
  {
    if i + 1 < |ns| then ns[i+1] else ns[0]
  }

  function Pred(ns: seq<int>, i: nat): int
    requires i < |ns|
  {
    if i > 0 then ns[i-1] else ns[|ns|-1]
  }

  predicate Apart(ns: seq<int>) {
    && (forall i :: 0 <= i < |ns| ==> ns[i] != 0)
    && (forall i, j :: 0 <= i < |ns| && 0 <= j < |ns| ==> Pprev(ns[i]) != ns[j] && (i != j ==> ns[i] != ns[j]))
  }

  /** The nodes `ns` form a ring: each `next` leads to the node behind it, each `pprev` to the
      `next` of the one before. */
  predicate IsRing(m: Memory, ns: seq<int>) {
    && Apart(ns)
    && (forall i :: 0 <= i < |ns| ==> Read(m, ns[i]) == Succ(ns, i) && Read(m, Pprev(ns[i])) == Pred(ns, i))
  }

  function Rotated(ns: seq<int>): (t: seq<int>)
    requires ns != []
    ensures |t| == |ns|
  {
    ns[1..] + [ns[0]]
  }

  lemma RotatedAt(ns: seq<int>, i: nat)
    requires i < |ns|
    ensures Rotated(ns)[i] == Succ(ns, i) && Succ(Rotated(ns), i) == Succ(ns, if i + 1 < |ns| then i + 1 else 0)
    ensures Pred(Rotated(ns), i) == ns[i]
  {}

  lemma RotatedApart(ns: seq<int>)
    requires Apart(ns) && ns != []
    ensures Apart(Rotated(ns))
  {
    assert forall i :: 0 <= i < |ns| ==> Rotated(ns)[i] == if i + 1 < |ns| then ns[i+1] else ns[0];
  }

  lemma {:induction false} Rotate(m: Memory, ns: seq<int>)
    requires IsRing(m, ns) && ns != []
    ensures IsRing(m, Rotated(ns))
  {
    var t := Rotated(ns);
    RotatedApart(ns);
    hide Rotated, Apart, Read, Pprev;
    forall i | 0 <= i < |t| ensures Read(m, t[i]) == Succ(t, i) && Read(m, Pprev(t[i])) == Pred(t, i) {
      RotatedAt(ns, i);
      var j := if i + 1 < |ns| then i + 1 else 0;
      assert Read(m, ns[j]) == Succ(ns, j) && Read(m, Pprev(ns[j])) == Pred(ns, j);
    }
  }

  /** What the current node's links say. */
  lemma Neighbours(m: Memory, ns: seq<int>)
    requires IsRing(m, ns) && ns != []
    ensures Read(m, ns[0]) == Succ(ns, 0) && Read(m, Pprev(ns[0])) == Pred(ns, 0) && Succ(ns, 0) != 0 && ns[0] != 0
    ensures Succ(ns, 0) == ns[0] <==> |ns| == 1
  {
    if |ns| > 1 { ApartAt(ns, 1, 0); }
  }

  predicate Fresh(ns: seq<int>, n: int) {
    n != 0 && Pprev(n) != n && forall i :: 0 <= i < |ns| ==> n != ns[i] && Pprev(n) != ns[i] && n != Pprev(ns[i])
  }

  lemma ApartAt(ns: seq<int>, i: nat, j: nat)
    requires Apart(ns) && i < |ns| && j < |ns|
    ensures ns[i] != 0 && Pprev(ns[i]) != ns[j]
    ensures i != j ==> ns[i] != ns[j] && Pprev(ns[i]) != Pprev(ns[j])
  {}

  lemma FreshAt(ns: seq<int>, n: int, i: nat)
    requires Fresh(ns, n) && i < |ns|
    ensures n != 0 && Pprev(n) != n && n != ns[i] && Pprev(n) != ns[i] && n != Pprev(ns[i]) && Pprev(n) != Pprev(ns[i])
  {}

  function Added(ns: seq<int>, n: int): seq<int>
    requires ns != []
  {
    [ns[0], n] + ns[1..]
  }

  lemma {:induction false} RingAddAt(m: Memory, ns: seq<int>, n: int, i: nat)
    requires IsRing(m, ns) && ns != [] && Fresh(ns, n) && i <= |ns|
    ensures var m' := Linked(m, n, ns[0], Succ(ns, 0)); var t := Added(ns, n);
            Read(m', t[i]) == Succ(t, i) && Read(m', Pprev(t[i])) == Pred(t, i)
  {
    hide Linked, Pprev, Read, Apart, Fresh;
    var t := Added(ns, n);
    var s := if |ns| == 1 then 0 else 1;
    assert Succ(ns, 0) == ns[s];
    LinkedAt(m, n, ns[0], ns[s], t[i]);
    LinkedAt(m, n, ns[0], ns[s], Pprev(t[i]));
    FreshAt(ns, n, 0);
    FreshAt(ns, n, s);
    ApartAt(ns, s, 0);
    var o := if i < 2 then 0 else i - 1;
    assert i != 1 ==> t[i] == ns[o];
    ApartAt(ns, o, s);
    ApartAt(ns, s, o);
    ApartAt(ns, o, 0);
    FreshAt(ns, n, o);
  }

  /** hlist_add_after on the current node */
  lemma {:induction false} RingAdd(m: Memory, ns: seq<int>, n: int)
    requires IsRing(m, ns) && ns != [] && Fresh(ns, n)
    ensures IsRing(Linked(m, n, ns[0], Succ(ns, 0)), Added(ns, n))
  {
    var t := Added(ns, n);
    var m' := Linked(m, n, ns[0], Succ(ns, 0));
    AddedApart(ns, n);
    hide Linked, Read, Apart, Added;
    forall i | 0 <= i < |t| ensures Read(m', t[i]) == Succ(t, i) && Read(m', Pprev(t[i])) == Pred(t, i) {
      RingAddAt(m, ns, n, i);
    }
  }

  lemma AddedApart(ns: seq<int>, n: int)
    requires Apart(ns) && ns != [] && Fresh(ns, n)
    ensures Apart(Added(ns, n)) && |Added(ns, n)| == |ns| + 1
  {
    var t := Added(ns, n);
    assert forall i :: 0 <= i < |t| ==> t[i] == if i == 0 then ns[0] else if i == 1 then n else ns[i-1];
  }

  lemma {:induction false} RingDelAt(m: Memory, ns: seq<int>, i: nat)
    requires IsRing(m, ns) && i + 1 < |ns|
    ensures var m' := Bridged(m, Pred(ns, 0), Succ(ns, 0)); var t := ns[1..];
            Read(m', t[i]) == Succ(t, i) && Read(m', Pprev(t[i])) == Pred(t, i)
  {
    hide Bridged, Pprev, Read, Apart;
    var t, z := ns[1..], |ns| - 1;
    BridgedAt(m, ns[z], ns[1], t[i]);
    BridgedAt(m, ns[z], ns[1], Pprev(t[i]));
    assert t[i] == ns[i+1];
    ApartAt(ns, 1, i + 1);
    ApartAt(ns, i + 1, 1);
    ApartAt(ns, i + 1, z);
    ApartAt(ns, z, i + 1);
  }

  lemma TailApart(ns: seq<int>)
    requires Apart(ns) && ns != []
    ensures Apart(ns[1..])
  {}

  /** hlist_del on the current node */
  lemma {:induction false} RingDel(m: Memory, ns: seq<int>)
    requires IsRing(m, ns) && |ns| >= 2
    ensures IsRing(Bridged(m, Pred(ns, 0), Succ(ns, 0)), ns[1..])
  {
    hide Bridged, Read, Apart;
    var t := ns[1..];
    var m' := Bridged(m, Pred(ns, 0), Succ(ns, 0));
    TailApart(ns);
    forall i | 0 <= i < |t| ensures Read(m', t[i]) == Succ(t, i) && Read(m', Pprev(t[i])) == Pred(t, i) {
      RingDelAt(m, ns, i);
    }
  }

  // ---- Scheduling, with the running thread at the head of the ring ----

  /** The ring, the stack positions of the paused threads and the stack pointer. */
  datatype State = State(ring: seq<int>, saved: map<int, int>, esp: int)

  /** switch_next: the running thread pauses behind all others. */
  function AfterYield(s: State): State
    requires s.ring != []
  {
    if |s.ring| == 1 then s
    else State(s.ring[1..] + [s.ring[0]], s.saved[s.ring[0] := s.esp - FRAME], Read(s.saved, s.ring[1]) + FRAME)
  }

  /** The stack of a new thread starts empty above its thread_info. */
  function StackTop(n: int): int { n - 4 + THREADSTACKSIZE }

  /** run_thread: the new thread runs at once, its creator pauses behind all others. */
  function AfterStart(s: State, n: int): State
    requires s.ring != []
  {
    State([n] + s.ring[1..] + [s.ring[0]], s.saved[n := StackTop(n)][s.ring[0] := s.esp - FRAME], StackTop(n))
  }

  /** The end of a thread: the next one resumes. */
  function AfterEnd(s: State): State
    requires |s.ring| >= 2
  {
    State(s.ring[1..], s.saved, Read(s.saved, s.ring[1]) + FRAME)
  }

  class Threads {
    const main: int
    var mem: Memory
    var stackpos: map<int, int>
    var esp: int
    /** the node that getCurThread finds */
    var current: int
    ghost var ring: seq<int>

    ghost predicate Valid()
      reads this
    {
      IsRing(mem, ring) && ring != [] && ring[0] == current && main in ring
    }

    ghost function Model(): State
      reads this
    {
      State(ring, stackpos, esp)
    }

    constructor (mainNode: int, sp: int)
      requires mainNode != 0
      ensures Valid() && main == mainNode && Model() == State([mainNode], map[], sp)
    {
      main := mainNode;
      mem := map[mainNode := mainNode, Pprev(mainNode) := mainNode];
      stackpos, esp, current := map[], sp, mainNode;
      ring := [mainNode];
    }

    method HaveThreads() returns (b: bool)
      requires Valid()
      ensures b <==> exists t :: t in ring && t != main
    {
      ghost var i :| 0 <= i < |ring| && ring[i] == main;
      assert Read(mem, main) == Succ(ring, i);
      b := Read(mem, main) != main;
      if b {
        assert Succ(ring, i) in ring;
      } else {
        MainAlone(ring, i);
      }
    }

    method SwitchNext()
      requires Valid()
      modifies this
      ensures Valid() && Model() == AfterYield(old(Model()))
    {
      hide IsRing, Read;
      Neighbours(mem, ring);
      var next := Read(mem, current);
      if current == next {
        return;
      }
      Rotate(mem, ring);
      KeepsMember(ring, main);
      stackpos := stackpos[current := esp - FRAME];
      esp := Read(stackpos, next) + FRAME;
      current := next;
      ring := Rotated(ring);
      OtherKey(old(stackpos), old(ring)[0], old(esp) - FRAME, next);
    }

    /** run_thread up to the call of `func`: `n` is the node in the memory for the new thread, or 0
        if there is none; then `func` runs at once as part of the current thread. */
    method RunThread(n: int) returns (started: bool)
      requires Valid() && (n != 0 ==> Fresh(ring, n))
      modifies this
      ensures Valid() && started == (n != 0)
      ensures Model() == if started then AfterStart(old(Model()), n) else old(Model())
    {
      hide IsRing, Fresh, Pprev;
      if n == 0 {
        return false;
      }
      RingAdd(mem, ring, n);
      Neighbours(mem, ring);
      FreshAt(ring, n, 0);
      Insert(n);
      ghost var added := Added(ring, n);
      Rotate(mem, added);
      KeepsMember(added, main);
      stackpos := stackpos[n := n - 4 + THREADSTACKSIZE];
      stackpos := stackpos[current := esp - FRAME];
      esp := Read(stackpos, n);
      current := n;
      ring := Rotated(added);
      return true;
    }

    /** hlist_add_after(n, current) */
    method Insert(n: int)
      requires IsRing(mem, ring) && ring != [] && ring[0] == current && Fresh(ring, n)
      modifies this`mem
      ensures mem == Linked(old(mem), n, ring[0], Succ(ring, 0))
    {
      hide IsRing, Fresh;
      Neighbours(mem, ring);
      var pprev := current;
      var next := Read(mem, pprev);
      mem := mem[Pprev(n) := pprev];
      mem := mem[n := next];
      if next != 0 {
        mem := mem[Pprev(next) := n];
      }
      mem := mem[pprev := n];
    }

    /** The end of run_thread, after `func` returned in the new thread, with __end_thread. */
    method EndThread()
      requires Valid() && current != main
      modifies this
      ensures Valid() && Model() == AfterEnd(old(Model()))
    {
      hide IsRing;
      OthersThanCurrent(ring, main);
      RingDel(mem, ring);
      Neighbours(mem, ring);
      var following := Read(mem, current);
      var next := Read(mem, current);
      var pprev := Read(mem, Pprev(current));
      mem := mem[pprev := next];
      if next != 0 {
        mem := mem[Pprev(next) := pprev];
      }
      hide Read;
      ring := ring[1..];
      esp := Read(stackpos, following) + FRAME;
      current := following;
    }

    /** What the running thread does next. */
    method Perform(e: Event)
      requires Valid() && (e.Ended? ==> current != main) && (e.Started? ==> Fresh(ring, e.n))
      modifies this
      ensures Valid() && Can(old(Model()), main, e) && Model() == Apply(old(Model()), e)
    {
      hide IsRing, Fresh;
      match e {
        case Yielded => SwitchNext();
        case Ended =>
          OthersThanCurrent(ring, main);
          EndThread();
        case Started(n) =>
          FreshNotNull(ring, n);
          var started := RunThread(n);
      }
    }

    /** wait_threads in the main thread, while the other threads do what `schedule` says: it
        returns when all of them have ended; otherwise the whole schedule has happened. */
    method WaitThreads(schedule: seq<Event>) returns (done: bool, ghost run: seq<Event>, used: nat)
      requires Valid() && current == main && StartsFresh(ring, schedule)
      modifies this
      ensures Valid() && used <= |schedule| && Woven(old(Model()), main, schedule, run, Model(), schedule[used..])
      ensures Legal(old(Model()), main, run) && Model() == Run(old(Model()), main, run)
      ensures done <==> ring == [main]
      ensures !done ==> used == |schedule|
    {
      hide IsRing, Fresh, AfterYield, AfterEnd, AfterStart, StartsFresh, Woven;
      run, used := [], 0;
      WovenNone(Model(), main, schedule);
      assert schedule[0..] == schedule;
      var waiting := HaveThreads();
      while waiting && used < |schedule|
        invariant Valid() && used <= |schedule| && StartsFresh(ring, schedule[used..])
        invariant Legal(old(Model()), main, run) && Model() == Run(old(Model()), main, run)
        invariant Woven(old(Model()), main, schedule, run, Model(), schedule[used..])
        invariant waiting <==> exists t :: t in ring && t != main
        invariant waiting && used < |schedule| ==> current == main
        decreases |schedule| - used
      {
        YieldsToOther(mem, ring, Model(), main);
        ghost var before := used;
        run := DoAlso(Yielded, old(Model()), run, schedule, schedule[used..]);
        while current != main && used < |schedule|
          invariant Valid() && before <= used <= |schedule| && StartsFresh(ring, schedule[used..])
          invariant used == before ==> current != main
          invariant Legal(old(Model()), main, run) && Model() == Run(old(Model()), main, run)
          invariant Woven(old(Model()), main, schedule, run, Model(), schedule[used..])
          decreases |schedule| - used
        {
          assert schedule[used..][0] == schedule[used] && schedule[used..][1..] == schedule[used+1..];
          StartsNow(ring, schedule[used..]);
          run := DoAlso(schedule[used], old(Model()), run, schedule, schedule[used..]);
          used := used + 1;
        }
        waiting := HaveThreads();
      }
      done := !waiting;
      if done { OnlyMain(mem, ring, main); }
    }

    /** One more event of a run. */
    method DoAlso(e: Event, ghost s0: State, ghost run0: seq<Event>, ghost es: seq<Event>, ghost rest: seq<Event>)
      returns (ghost run: seq<Event>)
      requires Valid() && Next(Model(), main, rest, e) && (e.Started? ==> Fresh(ring, e.n))
      requires Legal(s0, main, run0) && Model() == Run(s0, main, run0) && Woven(s0, main, es, run0, Model(), rest)
      requires StartsFresh(ring, rest) && (e.Started? ==> StartsFresh([e.n], Later(Model(), main, rest)))
      modifies this
      ensures Valid() && Model() == Apply(old(Model()), e) && run == run0 + [e]
      ensures Legal(s0, main, run) && Model() == Run(s0, main, run)
      ensures Woven(s0, main, es, run, Model(), old(Later(Model(), main, rest)))
      ensures StartsFresh(ring, old(Later(Model(), main, rest)))
    {
      hide IsRing, Fresh, StartsFresh, Woven;
      ghost var before, later := Model(), Later(Model(), main, rest);
      StartsLater(ring, before, main, rest);
      Perform(e);
      run := run0 + [e];
      RunAppend(s0, main, run0, e);
      WovenAppend(s0, main, es, run0, before, rest, e);
      StaysFresh(before, main, e, later);
    }
  }

  lemma KeepsMember(ns: seq<int>, t: int)
    requires t in ns
    ensures t in Rotated(ns)
  {
    var i :| 0 <= i < |ns| && ns[i] == t;
    if i > 0 { assert Rotated(ns)[i-1] == t; } else { assert Rotated(ns)[|ns|-1] == t; }
  }

  lemma OtherKey(m: map<int, int>, k: int, v: int, a: int)
    requires a != k
    ensures Read(m[k := v], a) == Read(m, a)
  {}

  lemma MainAlone(ns: seq<int>, i: nat)
    requires Apart(ns) && i < |ns| && Succ(ns, i) == ns[i]
    ensures ns == [ns[i]]
  {
    ApartAt(ns, i, if i + 1 < |ns| then i + 1 else 0);
  }

  lemma OthersThanCurrent(ns: seq<int>, main: int)
    requires main in ns && ns[0] != main
    ensures |ns| >= 2 && main in ns[1..]
  {
    var i :| 0 <= i < |ns| && ns[i] == main;
    assert ns[1..][i-1] == main;
  }

  // ---- Runs ----

  datatype Event = Yielded | Ended | Started(n: int)

  /** What the running thread can do; the main thread never ends. */
  predicate Can(s: State, main: int, e: Event) {
    match e
    case Yielded => s.ring != []
    case Ended => |s.ring| >= 2 && s.ring[0] != main
    case Started(n) => s.ring != [] && Fresh(s.ring, n)
  }

  function Apply(s: State, e: Event): State
    requires s.ring != [] && (e.Ended? ==> |s.ring| >= 2)
  {
    match e
    case Yielded => AfterYield(s)
    case Ended => AfterEnd(s)
    case Started(n) => AfterStart(s, n)
  }

  /** A run from `s`: each event is possible where it happens. */
  predicate Legal(s: State, main: int, es: seq<Event>)
    decreases |es|
  {
    es == [] || (Can(s, main, es[0]) && Legal(Apply(s, es[0]), main, es[1..]))
  }

  function Run(s: State, main: int, es: seq<Event>): State
    requires Legal(s, main, es)
    decreases |es|
  {
    if es == [] then s else Run(Apply(s, es[0]), main, es[1..])
  }

  /** With another thread in the ring the main thread's yield leads to another. */
  lemma YieldsToOther(m: Memory, ns: seq<int>, s: State, main: int)
    requires IsRing(m, ns) && s.ring == ns && ns != [] && ns[0] == main && exists t :: t in ns && t != main
    ensures AfterYield(s).ring != [] && AfterYield(s).ring[0] != main
  {
    hide Read, Pprev;
    if |ns| > 1 { ApartAt(ns, 1, 0); }
  }

  lemma OnlyMain(m: Memory, ns: seq<int>, main: int)
    requires IsRing(m, ns) && main in ns && forall t :: t in ns ==> t == main
    ensures ns == [main]
  {
    hide Read, Pprev;
    assert forall i :: 0 <= i < |ns| ==> ns[i] in ns;
    if |ns| > 1 { ApartAt(ns, 1, 0); }
  }

  lemma {:induction false} RunAppend(s: State, main: int, es: seq<Event>, e: Event)
    requires Legal(s, main, es) && Can(Run(s, main, es), main, e)
    ensures Legal(s, main, es + [e]) && Run(s, main, es + [e]) == Apply(Run(s, main, es), e)
    decreases |es|
  {
    hide Fresh, Read;
    if es == [] {
      assert es + [e] == [e] && [e][1..] == [];
    } else {
      assert (es + [e])[1..] == es[1..] + [e];
      RunAppend(Apply(s, es[0]), main, es[1..], e);
    }
  }

  // ---- Runs in which the main thread only waits ----

  /** What happens next: the main thread yields if there are others, these go on with `es`. */
  predicate Next(s: State, main: int, es: seq<Event>, e: Event) {
    Can(s, main, e) && es != [] && if s.ring[0] == main then s.ring != [main] && e == Yielded else e == es[0]
  }

  function Later(s: State, main: int, es: seq<Event>): seq<Event>
    requires s.ring != [] && es != []
  {
    if s.ring[0] == main then es else es[1..]
  }

  /** `run` leads from `s` to `t`: the events of `es`, of which `rest` is left, with a yield of the
      main thread wherever that is on. */
  predicate Woven(s: State, main: int, es: seq<Event>, run: seq<Event>, t: State, rest: seq<Event>)
    decreases |run|
  {
    if run == [] then t == s && rest == es
    else Next(s, main, es, run[0]) && Woven(Apply(s, run[0]), main, Later(s, main, es), run[1..], t, rest)
  }

  lemma WovenNone(s: State, main: int, es: seq<Event>)
    ensures Woven(s, main, es, [], s, es)
  {}

  lemma {:induction false} WovenAppend(s: State, main: int, es: seq<Event>, run: seq<Event>, t: State, rest: seq<Event>, e: Event)
    requires Woven(s, main, es, run, t, rest) && Next(t, main, rest, e)
    ensures Woven(s, main, es, run + [e], Apply(t, e), Later(t, main, rest))
    decreases |run|
  {
    hide Fresh, Read;
    if run == [] {
      assert run + [e] == [e] && [e][1..] == [];
    } else {
      assert (run + [e])[1..] == run[1..] + [e];
      WovenAppend(Apply(s, run[0]), main, Later(s, main, es), run[1..], t, rest, e);
    }
  }

  lemma StartsLater(ring: seq<int>, s: State, main: int, es: seq<Event>)
    requires StartsFresh(ring, es) && s.ring != [] && es != []
    ensures StartsFresh(ring, Later(s, main, es))
  {
    hide Fresh;
  }

  /** The threads that are started get nodes apart from the ring and from each other. */
  predicate StartsFresh(ring: seq<int>, es: seq<Event>) {
    && (forall i :: 0 <= i < |es| && es[i].Started? ==> Fresh(ring, es[i].n))
    && (forall i, j :: 0 <= i < j < |es| && es[i].Started? && es[j].Started? ==> Fresh([es[i].n], es[j].n))
  }

  lemma StartsNow(ring: seq<int>, es: seq<Event>)
    requires StartsFresh(ring, es) && es != []
    ensures StartsFresh(ring, es[1..]) && (es[0].Started? ==> Fresh(ring, es[0].n) && StartsFresh([es[0].n], es[1..]))
  {
    hide Fresh;
  }

  lemma FreshNotNull(ring: seq<int>, n: int)
    requires Fresh(ring, n)
    ensures n != 0
  {}

  lemma StaysFresh(s: State, main: int, e: Event, later: seq<Event>)
    requires Can(s, main, e) && StartsFresh(s.ring, later) && (e.Started? ==> StartsFresh([e.n], later))
    ensures StartsFresh(Apply(s, e).ring, later)
  {
    var t := Apply(s, e).ring;
    forall i | 0 <= i < |later| && later[i].Started? ensures Fresh(t, later[i].n) {
      assert Fresh(s.ring, later[i].n);
      assert e.Started? ==> Fresh([e.n], later[i].n);
      StillFresh(s, main, e, later[i].n);
    }
  }

  lemma StillFresh(s: State, main: int, e: Event, n: int)
    requires Can(s, main, e) && Fresh(s.ring, n) && (e.Started? ==> Fresh([e.n], n))
    ensures Fresh(Apply(s, e).ring, n)
  {
    var t := Apply(s, e).ring;
    forall i | 0 <= i < |t| ensures t[i] in s.ring || (e.Started? && t[i] == e.n) {}
    if e.Started? { assert [e.n][0] == e.n; }
  }

  /** How often a thread gave up the processor for good or for now, other than to one it started. */
  function Turns(es: seq<Event>): nat {
    if es == [] then 0 else (if es[0].Started? then 0 else 1) + Turns(es[1..])
  }

  /** `p` turns have not passed before the last event. */
  predicate Within(es: seq<Event>, p: nat) {
    es == [] || (Turns(es[..|es|-1]) < p && Turns(es) <= p)
  }

  lemma WithinTail(es: seq<Event>, p: nat)
    requires es != [] && Within(es, p)
    ensures p > 0 && Within(es[1..], p - if es[0].Started? then 0 else 1)
  {
    if |es| > 1 {
      assert es[..|es|-1][0] == es[0] && es[..|es|-1][1..] == es[1..][..|es|-2];
    }
  }

  /** A thread that waits at position p gets the processor after p turns, however many threads
      are started meanwhile, with the stack pointer it had when it paused. */
  lemma {:induction false} Resumes(s: State, main: int, es: seq<Event>, p: nat)
    requires Legal(s, main, es) && 0 < p < |s.ring| && Apart(s.ring) && Within(es, p)
    ensures var r := Run(s, main, es); var q := p - Turns(es);
            && 0 <= q < |r.ring| && r.ring[q] == s.ring[p]
            && (q == 0 ==> r.esp == Read(s.saved, s.ring[p]) + FRAME)
            && (q > 0 ==> Read(r.saved, s.ring[p]) == Read(s.saved, s.ring[p]))
    decreases |es|
  {
    if es != [] {
      hide Read, Fresh;
      WithinTail(es, p);
      var t := Apply(s, es[0]);
      var q := if es[0].Started? then p else p - 1;
      StepPosition(s, main, es[0], p);
      if q > 0 {
        Resumes(t, main, es[1..], q);
      } else {
        NoTurnsLeft(es[1..]);
      }
    }
  }

  lemma NoTurnsLeft(es: seq<Event>)
    requires Within(es, 0)
    ensures es == []
  {}

  /** One event: a waiting thread moves up one place, unless a thread is started. */
  lemma StepPosition(s: State, main: int, e: Event, p: nat)
    requires Can(s, main, e) && 0 < p < |s.ring| && Apart(s.ring)
    ensures var t := Apply(s, e); var q := if e.Started? then p else p - 1;
            && q < |t.ring| && t.ring[q] == s.ring[p] && Apart(t.ring)
            && (q == 0 ==> t.esp == Read(s.saved, s.ring[p]) + FRAME)
            && (q > 0 ==> Read(t.saved, s.ring[p]) == Read(s.saved, s.ring[p]))
  {}

  predicate NotStarted(es: seq<Event>, t: int) { forall i :: 0 <= i < |es| ==> es[i] != Started(t) }

  /** A thread that is not before the waiting one does not get the processor before it. */
  lemma {:induction false} NotBefore(s: State, main: int, es: seq<Event>, p: nat, t: int)
    requires Legal(s, main, es) && 0 < p < |s.ring| && Apart(s.ring) && Within(es, p)
    requires t !in s.ring[..p+1] && NotStarted(es, t)
    ensures Run(s, main, es).ring != [] && Run(s, main, es).ring[0] != t
    decreases |es|
  {
    if es == [] {
      assert s.ring[0] in s.ring[..p+1];
    } else {
      hide Read, Fresh;
      WithinTail(es, p);
      var u := Apply(s, es[0]);
      var q := if es[0].Started? then p else p - 1;
      StepPosition(s, main, es[0], p);
      StepBefore(s, main, es[0], p, t);
      if q > 0 {
        NotBefore(u, main, es[1..], q, t);
      } else {
        NoTurnsLeft(es[1..]);
        assert u.ring[0] in u.ring[..q+1];
      }
    }
  }

  /** The threads up to the waiting one are those that were before, and a new one. */
  lemma StepBefore(s: State, main: int, e: Event, p: nat, t: int)
    requires Can(s, main, e) && 0 < p < |s.ring| && Apart(s.ring) && e != Started(t)
    requires t !in s.ring[..p+1] || t == s.ring[0]
    ensures var u := Apply(s, e); var q := if e.Started? then p else p - 1;
            q < |u.ring| && t !in u.ring[..q+1]
  {
    var u := Apply(s, e);
    var q := if e.Started? then p else p - 1;
    forall i | 0 <= i <= q ensures u.ring[i] != t {
      var j := if e.Started? then i else i + 1;
      if 0 < j {
        assert u.ring[i] == s.ring[j] && s.ring[j] in s.ring[..p+1];
        ApartAt(s.ring, j, 0);
      }
    }
  }

  /** While a thread waits, every other one gets at most one turn: whichever runs now does not
      run again before it. */
  lemma {:induction false} OneTurnEach(s: State, main: int, es: seq<Event>, p: nat)
    requires Legal(s, main, es) && 0 < p < |s.ring| && Apart(s.ring) && Within(es, p) && es != []
    requires NotStarted(es, s.ring[0])
    ensures Run(s, main, es).ring != [] && Run(s, main, es).ring[0] != s.ring[0]
  {
    hide Read, Fresh;
    WithinTail(es, p);
    var u := Apply(s, es[0]);
    var q := if es[0].Started? then p else p - 1;
    StepPosition(s, main, es[0], p);
    StepBefore(s, main, es[0], p, s.ring[0]);
    if q > 0 {
      NotBefore(u, main, es[1..], q, s.ring[0]);
    } else {
      NoTurnsLeft(es[1..]);
      assert u.ring[0] in u.ring[..q+1];
    }
  }

  // ---- Stack pointers ----

  /** Thread `t`, if it is in the ring, runs with the stack pointer `sp` or will resume with it. */
  predicate HasStack(s: State, t: int, sp: int) {
    forall i :: 0 <= i < |s.ring| && s.ring[i] == t ==> sp == if i == 0 then s.esp else Read(s.saved, t) + FRAME
  }

  lemma StepStack(s: State, main: int, e: Event, t: int, sp: int)
    requires Can(s, main, e) && Apart(s.ring) && HasStack(s, t, sp) && e != Started(t)
    ensures HasStack(Apply(s, e), t, sp)
  {
    var u := Apply(s, e);
    forall i | 0 <= i < |u.ring| && u.ring[i] == t ensures sp == if i == 0 then u.esp else Read(u.saved, t) + FRAME {
      if s.ring[0] != t {
        var j := if e.Started? then i else if |s.ring| == 1 then 0 else i + 1;
        assert s.ring[j] == t;
      } else if e.Ended? {
        HeadOnce(s.ring);
        assert false;
      }
    }
  }

  lemma {:induction false} RunStack(s: State, main: int, es: seq<Event>, t: int, sp: int)
    requires Legal(s, main, es) && Apart(s.ring) && HasStack(s, t, sp) && NotStarted(es, t)
    ensures HasStack(Run(s, main, es), t, sp)
    decreases |es|
  {
    if es != [] {
      hide Read, Fresh, HasStack, Apart;
      StepStack(s, main, es[0], t, sp);
      StepApart(s, main, es[0]);
      RunStack(Apply(s, es[0]), main, es[1..], t, sp);
    }
  }

  /** Whatever happened since a thread had the processor, it has it again with the same stack
      pointer, unless its node was made a new thread meanwhile. */
  lemma {:induction false} ResumesWithStack(s: State, main: int, es: seq<Event>)
    requires Legal(s, main, es) && Apart(s.ring) && s.ring != [] && NotStarted(es, s.ring[0])
    requires Run(s, main, es).ring != [] && Run(s, main, es).ring[0] == s.ring[0]
    ensures Run(s, main, es).esp == s.esp
  {
    assert HasStack(s, s.ring[0], s.esp) by {
      forall i | 0 <= i < |s.ring| && s.ring[i] == s.ring[0] ensures i == 0 { ApartAt(s.ring, i, 0); }
    }
    RunStack(s, main, es, s.ring[0], s.esp);
  }

  /** A new thread has its own stack whenever it runs: it begins 4 bytes below the end of the
      4096 bytes at `n`. */
  lemma {:induction false} NewThreadsStack(s: State, main: int, n: int, es: seq<Event>)
    requires Legal(s, main, [Started(n)] + es) && Apart(s.ring) && NotStarted(es, n)
    ensures var r := Run(s, main, [Started(n)] + es); r.ring != [] && r.ring[0] == n ==> r.esp == n + 4092
  {
    var all := [Started(n)] + es;
    assert all[0] == Started(n) && all[1..] == es;
    StepApart(s, main, all[0]);
    ResumesIfFirst(Apply(s, all[0]), main, es, n);
  }

  lemma ResumesIfFirst(s: State, main: int, es: seq<Event>, t: int)
    requires Legal(s, main, es) && Apart(s.ring) && s.ring != [] && s.ring[0] == t && NotStarted(es, t)
    ensures var r := Run(s, main, es); r.ring != [] && r.ring[0] == t ==> r.esp == s.esp
  {
    var r := Run(s, main, es);
    if r.ring != [] && r.ring[0] == t { ResumesWithStack(s, main, es); }
  }

  function Yields(n: nat): (es: seq<Event>)
    ensures |es| == n
  {
    seq(n, _ => Yielded)
  }

  lemma {:induction false} YieldsRotate(s: State, main: int, n: nat)
    requires n <= |s.ring| && s.ring != []
    ensures Legal(s, main, Yields(n)) && Run(s, main, Yields(n)).ring == s.ring[n..] + s.ring[..n]
  {
    hide Read;
    if n > 0 {
      YieldsRotate(s, main, n - 1);
      RunAppend(s, main, Yields(n - 1), Yielded);
      assert Yields(n) == Yields(n - 1) + [Yielded];
      var r := Run(s, main, Yields(n - 1)).ring;
      assert r[0] == s.ring[n-1];
      assert r[1..] + [r[0]] == s.ring[n..] + s.ring[..n];
    }
  }

  /** When every thread has yielded once, the first one runs on as it paused. */
  lemma {:induction false} RoundOfYields(s: State, main: int)
    requires Apart(s.ring) && s.ring != []
    ensures var es := Yields(|s.ring|);
            Legal(s, main, es) && Run(s, main, es).ring == s.ring && Run(s, main, es).esp == s.esp
  {
    YieldsRotate(s, main, |s.ring|);
    ResumesWithStack(s, main, Yields(|s.ring|));
  }

  // ---- The members of the ring ----

  function Members(ring: seq<int>): set<int> { set t | t in ring }

  /** The threads started and not yet ended. */
  function Live(s: State, main: int, live: set<int>, es: seq<Event>): set<int>
    requires Legal(s, main, es)
    decreases |es|
  {
    if es == [] then live
    else
      var now := match es[0]
                 case Yielded => live
                 case Ended => live - {s.ring[0]}
                 case Started(n) => live + {n};
      Live(Apply(s, es[0]), main, now, es[1..])
  }

  /** In every run the ring has the main thread and the live threads, each once. */
  lemma {:induction false} RingIsLive(s: State, main: int, live: set<int>, es: seq<Event>)
    requires Legal(s, main, es) && Apart(s.ring) && Members(s.ring) == {main} + live && main !in live
    ensures var r := Run(s, main, es);
            Apart(r.ring) && Members(r.ring) == {main} + Live(s, main, live, es) && main !in Live(s, main, live, es)
    decreases |es|
  {
    if es != [] {
      hide Read;
      var e, u := es[0], Apply(s, es[0]);
      assert s.ring != [];
      assert s.ring == [s.ring[0]] + s.ring[1..];
      assert Apart(u.ring) by { StepApart(s, main, e); }
      match e
      case Yielded =>
        assert Members(u.ring) == Members(s.ring);
        RingIsLive(u, main, live, es[1..]);
      case Ended =>
        HeadOnce(s.ring);
        assert Members(u.ring) == Members(s.ring) - {s.ring[0]};
        assert s.ring[0] in Members(s.ring);
        RingIsLive(u, main, live - {s.ring[0]}, es[1..]);
      case Started(n) =>
        assert Members(u.ring) == Members(s.ring) + {n};
        assert main in Members(s.ring);
        NotMember(s.ring, n, main);
        RingIsLive(u, main, live + {n}, es[1..]);
    }
  }

  lemma NotMember(ns: seq<int>, n: int, t: int)
    requires Fresh(ns, n) && t in ns
    ensures t != n
  {}

  lemma HeadOnce(ns: seq<int>)
    requires Apart(ns) && ns != []
    ensures ns[0] !in ns[1..]
  {
    forall i | 1 <= i < |ns| ensures ns[i] != ns[0] { ApartAt(ns, i, 0); }
  }

  lemma StepApart(s: State, main: int, e: Event)
    requires Can(s, main, e) && Apart(s.ring)
    ensures Apart(Apply(s, e).ring)
  {
    match e
    case Yielded => RotatedApart(s.ring);
    case Ended =>
    case Started(n) =>
      AddedApart(s.ring, n);
      RotatedApart(Added(s.ring, n));
      assert Rotated(Added(s.ring, n)) == Apply(s, e).ring;
  }

  // ---- Mutexes ----

  /** The flag and the threads that passed mutex_lock but not yet mutex_unlock. */
  datatype Lock = Lock(isLocked: bool, holders: set<int>)

  /** One test in mutex_lock by thread `t`, and mutex_unlock. */
  function Tested(lock: Lock, t: int): Lock { if lock.isLocked then lock else Lock(true, lock.holders + {t}) }

  function Given(lock: Lock, t: int): Lock { Lock(false, lock.holders - {t}) }

  ghost predicate Exclusive(lock: Lock) {
    && (lock.isLocked <==> lock.holders != {})
    && (forall a, b :: a in lock.holders && b in lock.holders ==> a == b)
  }

  class Mutex {
    var isLocked: bool
    ghost var holders: set<int>

    /** At most one thread holds the mutex, and the flag says whether one does. */
    ghost predicate Valid()
      reads this
    {
      Exclusive(Model())
    }

    ghost function Model(): Lock
      reads this
    {
      Lock(isLocked, holders)
    }

    constructor ()
      ensures Valid() && Model() == Lock(false, {})
    {
      isLocked, holders := false, {};
    }

    /** One test in mutex_lock: the thread gets the mutex, alone, if nobody holds it; else
        everything stays as it is. */
    method TryLock(t: int) returns (locked: bool)
      requires Valid()
      modifies this
      ensures Valid() && Model() == Tested(old(Model()), t)
      ensures locked <==> old(holders) == {}
      ensures if locked then holders == {t} else holders == old(holders)
    {
      locked := !isLocked;
      if locked {
        isLocked := true;
        holders := holders + {t};
      }
    }

    /** yield() in mutex_lock: other threads may take and release the mutex, each for itself. */
    method Yield(t: int)
      requires Valid() && t !in holders
      modifies this
      ensures Valid() && t !in holders
    {
      var taken: bool := *;
      var other: int := *;
      isLocked := taken && other != t;
      holders := if isLocked then {other} else {};
    }

    /** mutex_lock, watched for some number of turns: the thread comes out as the only holder,
        or the mutex is held by another one still. */
    method Acquire(t: int, turns: nat) returns (locked: bool)
      requires Valid() && t !in holders
      modifies this
      ensures Valid() && if locked then holders == {t} else t !in holders && holders != {}
    {
      var left := turns;
      while isLocked && left > 0
        invariant Valid() && t !in holders
      {
        Yield(t);
        left := left - 1;
      }
      locked := TryLock(t);
    }

    /** mutex_unlock by the holder frees the mutex. */
    method Unlock(t: int)
      requires Valid() && t in holders
      modifies this
      ensures Valid() && Model() == Given(old(Model()), t) && holders == {}
    {
      assert forall a :: a in holders ==> a == t;
      isLocked := false;
      holders := holders - {t};
    }
  }

  /** What the running thread does to the mutex or to the ring. */
  datatype Action = Locks | Unlocks | Other(e: Event)

  datatype System = System(s: State, lock: Lock)

  /** Only a holder unlocks. */
  predicate MayAct(y: System, main: int, a: Action) {
    match a
    case Locks => y.s.ring != []
    case Unlocks => y.s.ring != [] && y.s.ring[0] in y.lock.holders
    case Other(e) => Can(y.s, main, e)
  }

  function Act(y: System, main: int, a: Action): System
    requires MayAct(y, main, a)
  {
    match a
    case Locks =>
      System(if y.lock.isLocked then AfterYield(y.s) else y.s, Tested(y.lock, y.s.ring[0]))
    case Unlocks => System(y.s, Given(y.lock, y.s.ring[0]))
    case Other(e) => System(Apply(y.s, e), y.lock)
  }

  predicate MayRun(y: System, main: int, actions: seq<Action>)
    decreases |actions|
  {
    actions == [] || (MayAct(y, main, actions[0]) && MayRun(Act(y, main, actions[0]), main, actions[1..]))
  }

  function RunAll(y: System, main: int, actions: seq<Action>): System
    requires MayRun(y, main, actions)
    decreases |actions|
  {
    if actions == [] then y else RunAll(Act(y, main, actions[0]), main, actions[1..])
  }

  /** In every run at most one thread holds the mutex, and the flag says whether one does. */
  lemma {:induction false} MutualExclusion(y: System, main: int, actions: seq<Action>)
    requires MayRun(y, main, actions) && Exclusive(y.lock)
    ensures Exclusive(RunAll(y, main, actions).lock)
    decreases |actions|
  {
    if actions != [] {
      hide AfterYield, Apply, Can;
      var holders := y.lock.holders;
      if actions[0].Unlocks? {
        assert forall a :: a in holders ==> a == y.s.ring[0];
        assert holders - {y.s.ring[0]} == {};
      }
      MutualExclusion(Act(y, main, actions[0]), main, actions[1..]);
    }
  }
}
