/** Small facts about sizes that several components share. */
module Counting {

  lemma {:induction false} SubsetSize<T>(a: set<T>, b: set<T>)
    requires a <= b
    ensures |a| <= |b|
  {
    if a != {} {
      var x :| x in a;
      SubsetSize(a - {x}, b - {x});
    }
  }

  ghost predicate Distinct(s: seq<nat>) { forall p, q :: 0 <= p < q < |s| ==> s[p] != s[q] }

  /** Distinct numbers below n are at most n. */
  lemma {:induction false} DistinctBelow(s: seq<nat>, n: nat)
    requires Distinct(s) && forall p :: 0 <= p < |s| ==> s[p] < n
    ensures |s| <= n
    decreases n
  {
    assert s != [] ==> s[0] < n;
    if p :| 0 <= p < |s| && s[p] == n - 1 {
      DistinctBelow(s[..p] + s[p + 1..], n - 1);
    } else if n > 0 {
      DistinctBelow(s, n - 1);
    }
  }

  /** If they also miss some number below n, they are fewer than n. */
  lemma DistinctWithGap(s: seq<nat>, n: nat, gap: nat)
    requires Distinct(s) && gap < n
    requires forall p :: 0 <= p < |s| ==> s[p] < n && s[p] != gap
    ensures |s| < n
  {
    DistinctBelow(s + [gap], n);
  }

  function Elements<T(==)>(s: seq<T>): set<T> { set x | x in s }

  lemma {:induction false} DistinctSize<T>(s: seq<T>)
    requires forall p, q :: 0 <= p < q < |s| ==> s[p] != s[q]
    ensures |Elements(s)| == |s|
  {
    if s != [] {
      var n := |s| - 1;
      DistinctSize(s[..n]);
      assert s == s[..n] + [s[n]];
      assert Elements(s) == Elements(s[..n]) + {s[n]};
    } else {
      assert Elements(s) == {};
    }
  }

  /** A subset as large as the whole is the whole. */
  lemma SubsetIsWhole<T>(a: set<T>, b: set<T>)
    requires a <= b && |a| == |b|
    ensures a == b
  {
    if x :| x in b && x !in a {
      SubsetSize(a, b - {x});
    }
  }

  lemma MulMono(x: nat, y: nat, k: nat)
    requires x <= y
    ensures x * k <= y * k
  {
  }
}
