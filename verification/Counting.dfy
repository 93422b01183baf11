/** Cardinality facts about finite sets that the counting arguments use. */
module Counting {

  /** A subset is no larger, and as large only when it is the whole. */
  lemma SubsetSize<T>(small: set<T>, large: set<T>)
    requires small <= large
    ensures |small| <= |large| && (|small| == |large| <==> small == large)
  {
    assert large == small + (large - small);
  }

  /** A set of naturals below `n` has at most `n` members. */
  lemma {:induction false} BoundedSize(s: set<nat>, n: nat)
    requires forall x :: x in s ==> x < n
    ensures |s| <= n
  {
    if n == 0 {
      assert s == {};
    } else {
      var rest := s - {n - 1};
      BoundedSize(rest, n - 1);
      assert s <= rest + {n - 1};
      SubsetSize(s, rest + {n - 1});
    }
  }

  /** A map that is injective on `xs` carries it into a set at least as large. */
  lemma {:induction false} InjectionSize<X, Y>(xs: set<X>, ys: set<Y>, f: map<X, Y>)
    requires xs <= f.Keys
    requires forall x :: x in xs ==> f[x] in ys
    requires forall a, b :: a in xs && b in xs && f[a] == f[b] ==> a == b
    ensures |xs| <= |ys|
  {
    if xs != {} {
      var x :| x in xs;
      InjectionSize(xs - {x}, ys - {f[x]}, f);
    }
  }
}
