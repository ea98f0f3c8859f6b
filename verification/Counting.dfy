/** Sequences without repetition and rounded-down quotients. */
module Counting {

  ghost predicate Distinct<T(!new)>(s: seq<T>) {
    forall i, j :: 0 <= i < j < |s| ==> s[i] != s[j]
  }

  function Below(n: nat): (r: set<nat>)
    ensures |r| == n && forall x: nat :: x in r <==> x < n
  {
    if n == 0 then {} else Below(n - 1) + {n - 1}
  }

  lemma {:induction false} DistinctInSet<T(!new)>(s: seq<T>, t: set<T>)
    requires Distinct(s) && forall i :: 0 <= i < |s| ==> s[i] in t
    ensures |s| <= |t|
  {
    if s == [] {
    } else {
      DistinctInSet(s[..|s| - 1], t - {s[|s| - 1]});
    }
  }

  /** Distinct numbers below a bound are at most as many as the bound. */
  lemma DistinctBelow(s: seq<nat>, n: nat)
    requires Distinct(s) && forall i :: 0 <= i < |s| ==> s[i] < n
    ensures |s| <= n
  {
    DistinctInSet(s, Below(n));
  }

  lemma QuotientAtLeast(x: nat, d: nat, q: nat)
    requires d > 0 && q * d <= x
    ensures x / d >= q
  {
    var r := x / d;
    assert x == r * d + x % d;
    assert r < q ==> q * d >= (r + 1) * d == r * d + d;
  }

  lemma QuotientAtMost(x: nat, d: nat, q: nat)
    requires d > 0 && x < q * d + d
    ensures x / d <= q
  {
    var r := x / d;
    assert x == r * d + x % d;
    assert r > q ==> r * d >= (q + 1) * d == q * d + d;
  }

  lemma QuotientIs(x: nat, d: nat, q: nat)
    requires d > 0 && q * d <= x < q * d + d
    ensures x / d == q
  {
    QuotientAtLeast(x, d, q);
    QuotientAtMost(x, d, q);
  }
}
