// Which sections are kept, and which of them are needed at run time: the worklist of
// findReachable in scripts/layoutrom.py.

module Reachable {

  /** A reference from one section; its target is a section or nothing. */
  datatype Reloc = Reloc(id: nat, target: int)

  /** The references of each section, and the test that decides which of them count. */
  datatype Graph = Graph(relocs: seq<seq<Reloc>>, check: (nat, Reloc) -> bool)

  /** The k-th reference of `p` counts and leads to `s`. */
  predicate Edge(g: Graph, p: nat, k: nat, s: int) {
    p < |g.relocs| && k < |g.relocs[p]| && g.check(p, g.relocs[p][k]) && g.relocs[p][k].target == s
  }

  ghost predicate WellFormed(g: Graph) {
    forall p: nat, k: nat, s :: Edge(g, p, k, s) ==> 0 <= s < |g.relocs|
  }

  /** The first n references of `p` that count lead into `found`. */
  ghost predicate Covered(g: Graph, p: nat, n: nat, found: set<nat>) {
    forall k: nat, s: nat :: k < n && Edge(g, p, k, s) ==> s in found
  }

  function Degree(g: Graph, p: nat): nat { if p < |g.relocs| then |g.relocs[p]| else 0 }

  /** Sections reached along a path of at most n references that count. */
  ghost predicate Reaches(g: Graph, anchors: set<nat>, s: nat, n: nat)
    decreases n
  {
    s in anchors || (n > 0 && exists p: nat, k: nat :: Edge(g, p, k, s) && Reaches(g, anchors, p, n - 1))
  }

  ghost predicate Reached(g: Graph, anchors: set<nat>, s: nat) { exists n: nat :: Reaches(g, anchors, s, n) }

  /** A set that has the anchors and is closed under references has all that is reached. */
  lemma {:induction false} ClosedHasReached(g: Graph, anchors: set<nat>, found: set<nat>, s: nat, n: nat)
    requires anchors <= found && (forall p :: p in found ==> Covered(g, p, Degree(g, p), found)) && Reaches(g, anchors, s, n)
    ensures s in found
    decreases n
  {
    if s !in anchors {
      var p: nat, k: nat :| Edge(g, p, k, s) && Reaches(g, anchors, p, n - 1);
      ClosedHasReached(g, anchors, found, p, n - 1);
      assert Covered(g, p, Degree(g, p), found);
    }
  }

  function Elements(ss: seq<nat>): set<nat> { set s | s in ss }

  method FindReachable(g: Graph, anchorsections: seq<nat>) returns (found: set<nat>)
    requires WellFormed(g) && forall s :: s in anchorsections ==> s < |g.relocs|
    ensures forall s: nat :: s in found <==> Reached(g, Elements(anchorsections), s)
  {
    hide Reached, Edge, Covered;
    ghost var anchors := Elements(anchorsections);
    ghost var all := Below(|g.relocs|);
    found := Elements(anchorsections);
    var pending := anchorsections;
    forall s | s in found ensures Reached(g, anchors, s) { AnchorReached(g, anchors, s); }
    while pending != []
      invariant anchors <= found <= all && forall s :: s in pending ==> s in found
      invariant forall s :: s in found ==> s < |g.relocs| && Reached(g, anchors, s)
      invariant forall p :: p in found && p !in pending ==> Covered(g, p, Degree(g, p), found)
      decreases all - found, |pending|
    {
      var section := pending[|pending|-1];
      assert section in pending;
      Popped(pending);
      pending := pending[..|pending|-1];
      found, pending := Visit(g, anchors, section, found, pending);
    }
    forall s: nat | Reached(g, anchors, s) ensures s in found { ClosedHasAll(g, anchors, found, s); }
  }

  ghost function Below(n: nat): (r: set<nat>)
    ensures forall s: nat :: s in r <==> s < n
  {
    if n == 0 then {} else Below(n - 1) + {n - 1}
  }

  lemma ClosedHasAll(g: Graph, anchors: set<nat>, found: set<nat>, s: nat)
    requires anchors <= found && (forall p :: p in found ==> Covered(g, p, Degree(g, p), found)) && Reached(g, anchors, s)
    ensures s in found
  {
    var n: nat :| Reaches(g, anchors, s, n);
    ClosedHasReached(g, anchors, found, s, n);
  }

  lemma AnchorReached(g: Graph, anchors: set<nat>, s: nat)
    requires s in anchors
    ensures Reached(g, anchors, s)
  {
    assert Reaches(g, anchors, s, 0);
  }

  lemma EdgeReached(g: Graph, anchors: set<nat>, p: nat, k: nat, s: nat)
    requires Reached(g, anchors, p) && Edge(g, p, k, s)
    ensures Reached(g, anchors, s)
  {
    var n: nat :| Reaches(g, anchors, p, n);
    assert Reaches(g, anchors, s, n + 1);
  }

  lemma CoveredMore(g: Graph, p: nat, n: nat, found: set<nat>, found': set<nat>)
    requires Covered(g, p, n, found) && found <= found'
    ensures Covered(g, p, n, found')
  {}

  lemma Popped(l: seq<nat>)
    requires l != []
    ensures forall s :: s in l <==> s in l[..|l|-1] || s == l[|l|-1]
  {
    assert l == l[..|l|-1] + [l[|l|-1]];
  }

  /** The loop over one section's references. */
  method Visit(g: Graph, ghost anchors: set<nat>, section: nat, found0: set<nat>, pending0: seq<nat>)
    returns (found: set<nat>, pending: seq<nat>)
    requires WellFormed(g) && section < |g.relocs| && section in found0
    requires (forall s :: s in found0 ==> s < |g.relocs|) && forall s :: s in pending0 ==> s in found0
    requires forall s :: s in found0 ==> Reached(g, anchors, s)
    requires forall p :: p in found0 && p !in pending0 && p != section ==> Covered(g, p, Degree(g, p), found0)
    ensures found0 <= found && (forall s :: s in found ==> s < |g.relocs|) && forall s :: s in pending ==> s in found
    ensures forall s :: s in found ==> Reached(g, anchors, s)
    ensures forall p :: p in found && p !in pending ==> Covered(g, p, Degree(g, p), found)
    ensures found == found0 ==> pending == pending0
  {
    hide Reached;
    found, pending := found0, pending0;
    for k := 0 to |g.relocs[section]|
      invariant found0 <= found && (forall s :: s in found ==> s < |g.relocs|) && forall s :: s in pending ==> s in found
      invariant forall s :: s in found ==> Reached(g, anchors, s)
      invariant Covered(g, section, k, found)
      invariant forall p :: p in found && p !in pending && p != section ==> Covered(g, p, Degree(g, p), found)
      invariant found == found0 ==> pending == pending0
    {
      var reloc := g.relocs[section][k];
      if g.check(section, reloc) {
        assert Edge(g, section, k, reloc.target);
        if reloc.target !in found {
          EdgeReached(g, anchors, section, k, reloc.target);
          ghost var was, before := found, pending;
          found := found + {reloc.target};
          pending := pending + [reloc.target];
          assert forall s :: s in pending <==> s in before || s == reloc.target;
          CoveredMore(g, section, k, was, found);
          forall p | p in found && p !in pending && p != section ensures Covered(g, p, Degree(g, p), found) {
            CoveredMore(g, p, Degree(g, p), was, found);
          }
        }
      }
    }
  }
}
