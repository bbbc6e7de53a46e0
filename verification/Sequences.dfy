// Elements of sequences and of their permutations.

module Sequences {

  lemma SameElements<T>(xs: seq<T>, ys: seq<T>)
    requires multiset(xs) == multiset(ys)
    ensures |xs| == |ys| && forall x :: x in xs <==> x in ys
  {
    assert |multiset(xs)| == |xs| && |multiset(ys)| == |ys|;
    forall x ensures x in xs <==> x in ys {
      assert x in xs <==> x in multiset(xs);
      assert x in ys <==> x in multiset(ys);
    }
  }

  predicate NoRepeats<T(==)>(xs: seq<T>) { forall i, j :: 0 <= i < j < |xs| ==> xs[i] != xs[j] }

  lemma CountedTwice<T>(xs: seq<T>, i: nat, j: nat)
    requires i < j < |xs| && xs[i] == xs[j]
    ensures multiset(xs)[xs[i]] >= 2
  {
    assert xs == xs[..j] + xs[j..];
    assert xs[i] in multiset(xs[..j]) by { assert xs[..j][i] == xs[i]; }
    assert xs[j] in multiset(xs[j..]) by { assert xs[j..][0] == xs[j]; }
  }

  lemma {:induction false} CountedOnce<T>(xs: seq<T>, x: T)
    requires NoRepeats(xs)
    ensures multiset(xs)[x] <= 1
  {
    if xs != [] {
      var p := xs[..|xs|-1];
      CountedOnce(p, x);
      assert xs == p + [xs[|xs|-1]];
      if xs[|xs|-1] == x {
        assert forall i :: 0 <= i < |p| ==> p[i] == xs[i];
        assert x !in multiset(p);
      }
    }
  }

  /** A permutation of distinct elements has distinct elements. */
  lemma {:induction false} PermutationNoRepeats<T>(xs: seq<T>, ys: seq<T>)
    requires multiset(xs) == multiset(ys) && NoRepeats(xs)
    ensures NoRepeats(ys)
  {
    forall i, j | 0 <= i < j < |ys| ensures ys[i] != ys[j] {
      CountedOnce(xs, ys[i]);
      if ys[i] == ys[j] { CountedTwice(ys, i, j); }
    }
  }
}
