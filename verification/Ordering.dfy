/** Sorting by an integer key (the library sort), sums, and their invariance under permutation. */
module Ordering {

  ghost predicate Sorted<T>(s: seq<T>, key: T -> int) {
    forall i, j :: 0 <= i < j < |s| ==> key(s[i]) <= key(s[j])
  }

  /** Different positions hold different keys. */
  ghost predicate DistinctKeys<T(!new)>(s: seq<T>, key: T -> int) {
    forall i, j :: 0 <= i < j < |s| ==> key(s[i]) != key(s[j])
  }

  function Insert<T>(s: seq<T>, x: T, key: T -> int): (r: seq<T>)
    ensures |r| == |s| + 1
  {
    if s == [] || key(x) <= key(s[0]) then [x] + s else [s[0]] + Insert(s[1..], x, key)
  }

  function SortBy<T>(s: seq<T>, key: T -> int): (r: seq<T>)
    ensures |r| == |s|
  {
    if s == [] then [] else Insert(SortBy(s[1..], key), s[0], key)
  }

  lemma {:induction false} InsertKeeps<T>(s: seq<T>, x: T, key: T -> int)
    ensures multiset(Insert(s, x, key)) == multiset(s) + multiset{x}
  {
    if s == [] {
    } else {
      assert s == [s[0]] + s[1..];
      InsertKeeps(s[1..], x, key);
    }
  }

  lemma {:induction false} InsertSorts<T>(s: seq<T>, x: T, key: T -> int)
    requires Sorted(s, key)
    ensures Sorted(Insert(s, x, key), key)
  {
    if s == [] {
    } else if key(x) > key(s[0]) {
      InsertSorts(s[1..], x, key);
      InsertKeeps(s[1..], x, key);
      SortedCons(s[0], Insert(s[1..], x, key), multiset(s[1..]) + multiset{x}, key);
    } else {
      SortedCons(x, s, multiset(s), key);
    }
  }

  lemma SortedCons<T>(first: T, r: seq<T>, elements: multiset<T>, key: T -> int)
    requires Sorted(r, key) && multiset(r) == elements && forall y :: y in elements ==> key(first) <= key(y)
    ensures Sorted([first] + r, key)
  {
    forall i | 0 <= i < |r| ensures key(first) <= key(r[i]) {
      assert r[i] in multiset(r);
    }
  }

  lemma {:induction false} SortBySorts<T>(s: seq<T>, key: T -> int)
    ensures Sorted(SortBy(s, key), key)
    ensures multiset(SortBy(s, key)) == multiset(s)
  {
    if s == [] {
    } else {
      SortBySorts(s[1..], key);
      InsertSorts(SortBy(s[1..], key), s[0], key);
      InsertKeeps(SortBy(s[1..], key), s[0], key);
      assert s == [s[0]] + s[1..];
    }
  }

  lemma SameElements<T>(a: seq<T>, b: seq<T>)
    requires multiset(a) == multiset(b)
    ensures |a| == |b|
    ensures forall x :: x in a <==> x in b
  {
    assert |multiset(a)| == |a| && |multiset(b)| == |b|;
    forall x ensures x in a <==> x in b {
      assert x in a <==> x in multiset(a);
      assert x in b <==> x in multiset(b);
    }
  }

  lemma DistinctKeysPermuted<T(!new)>(a: seq<T>, b: seq<T>, key: T -> int)
    requires multiset(a) == multiset(b) && DistinctKeys(a, key)
    ensures DistinctKeys(b, key)
  {
    SameElements(a, b);
    forall i, j | 0 <= i < j < |b| ensures key(b[i]) != key(b[j]) {
      if b[i] == b[j] {
        TwiceCounted(b, i, j);
        OnceCounted(a, b[i], key);
      } else {
        var i' := Position(a, b[i]);
        var j' := Position(a, b[j]);
        assert if i' < j' then key(a[i']) != key(a[j']) else key(a[j']) != key(a[i']);
      }
    }
  }

  lemma Position<T>(s: seq<T>, x: T) returns (i: nat)
    requires x in s
    ensures i < |s| && s[i] == x
  {
    i :| 0 <= i < |s| && s[i] == x;
  }

  lemma TwiceCounted<T>(s: seq<T>, i: nat, j: nat)
    requires i < j < |s| && s[i] == s[j]
    ensures multiset(s)[s[i]] >= 2
  {
    assert s == s[..j] + s[j..];
    assert s[i] in s[..j] && s[i] in s[j..];
  }

  lemma {:induction false} OnceCounted<T(!new)>(s: seq<T>, x: T, key: T -> int)
    requires DistinctKeys(s, key)
    ensures multiset(s)[x] <= 1
  {
    if s == [] {
    } else {
      var init, last := s[..|s| - 1], s[|s| - 1];
      assert s == init + [last];
      OnceCounted(init, x, key);
      if last == x { assert x !in init; }
    }
  }

  lemma SameFirst<T(!new)>(a: seq<T>, b: seq<T>, key: T -> int)
    requires Sorted(a, key) && Sorted(b, key) && multiset(a) == multiset(b) && DistinctKeys(a, key) && a != []
    ensures b != [] && a[0] == b[0]
  {
    SameElements(a, b);
    assert a[0] in b && b[0] in a;
    var i := Position(b, a[0]);
    var j := Position(a, b[0]);
    assert key(a[0]) <= key(a[j]) && key(b[0]) <= key(b[i]);
  }

  lemma WithoutFirst<T>(a: seq<T>)
    requires a != []
    ensures multiset(a[1..]) == multiset(a) - multiset{a[0]}
  {
    assert a == [a[0]] + a[1..];
  }

  /** With distinct keys there is only one sorted arrangement. */
  lemma {:induction false} SortedUnique<T(!new)>(a: seq<T>, b: seq<T>, key: T -> int)
    requires Sorted(a, key) && Sorted(b, key) && multiset(a) == multiset(b) && DistinctKeys(a, key)
    ensures a == b
  {
    if a == [] {
      SameElements(a, b);
    } else {
      SameFirst(a, b, key);
      WithoutFirst(a);
      WithoutFirst(b);
      SortedUnique(a[1..], b[1..], key);
      assert a == [a[0]] + a[1..] && b == [b[0]] + b[1..];
    }
  }

  lemma SortByPermuted<T(!new)>(a: seq<T>, b: seq<T>, key: T -> int)
    requires multiset(a) == multiset(b) && DistinctKeys(a, key)
    ensures SortBy(a, key) == SortBy(b, key)
  {
    SortBySorts(a, key);
    SortBySorts(b, key);
    DistinctKeysPermuted(a, SortBy(a, key), key);
    SortedUnique(SortBy(a, key), SortBy(b, key), key);
  }

  // ---------- Sums ----------

  function SumBy<T>(s: seq<T>, w: T -> int): int {
    if s == [] then 0 else SumBy(s[..|s| - 1], w) + w(s[|s| - 1])
  }

  lemma {:induction false} SumByConcat<T>(a: seq<T>, b: seq<T>, w: T -> int)
    ensures SumBy(a + b, w) == SumBy(a, w) + SumBy(b, w)
  {
    if b == [] {
      assert a + b == a;
    } else {
      assert (a + b)[..|a + b| - 1] == a + b[..|b| - 1];
      SumByConcat(a, b[..|b| - 1], w);
    }
  }

  lemma {:induction false} SumByWithout<T>(b: seq<T>, k: nat, w: T -> int)
    requires k < |b|
    ensures SumBy(b[..k] + b[k + 1..], w) == SumBy(b, w) - w(b[k])
    ensures multiset(b[..k] + b[k + 1..]) == multiset(b) - multiset{b[k]}
  {
    assert b == b[..k] + ([b[k]] + b[k + 1..]);
    SumByConcat(b[..k], b[k + 1..], w);
    SumByConcat(b[..k], [b[k]] + b[k + 1..], w);
    SumByConcat([b[k]], b[k + 1..], w);
    assert SumBy([b[k]], w) == w(b[k]);
  }

  lemma {:induction false} SumByPermuted<T>(a: seq<T>, b: seq<T>, w: T -> int)
    requires multiset(a) == multiset(b)
    ensures SumBy(a, w) == SumBy(b, w)
  {
    SameElements(a, b);
    if a == [] {
    } else {
      var x := a[|a| - 1];
      assert a == a[..|a| - 1] + [x];
      assert x in a;
      var k := Position(b, x);
      SumByWithout(b, k, w);
      SumByPermuted(a[..|a| - 1], b[..k] + b[k + 1..], w);
    }
  }

  lemma {:induction false} SumByMonotone<T>(s: seq<T>, v: T -> int, w: T -> int)
    requires forall i :: 0 <= i < |s| ==> v(s[i]) <= w(s[i])
    ensures SumBy(s, v) <= SumBy(s, w)
  {
    if s == [] {
    } else {
      SumByMonotone(s[..|s| - 1], v, w);
    }
  }
}
