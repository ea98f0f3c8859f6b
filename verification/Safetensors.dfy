/** The byte ranges of a safetensors file: they must tile the data exactly. */
module Safetensors {
  import opened Core
  import opened Ordering

  /** The half-open range `[begin, end)` of one tensor's bytes. */
  datatype Range = Range(begin: uint64, end: uint64)

  // ---------- What exact coverage means ----------

  predicate InRange(r: Range, size: uint64) { r.begin <= r.end <= size }

  predicate Holds(r: Range, x: nat) { r.begin <= x < r.end }

  ghost predicate AllInRange(o: seq<Range>, size: uint64) {
    forall k :: 0 <= k < |o| ==> InRange(o[k], size)
  }

  function HoldsOnce(x: nat): Range -> int {
    (r: Range) => if Holds(r, x) then 1 else 0
  }

  /** In how many ranges a byte lies. */
  function Holders(records: seq<Range>, x: nat): int {
    SumBy(records, HoldsOnce(x))
  }

  /** The ends of the data and the places where a non-empty range begins. */
  ghost predicate IsBoundary(records: seq<Range>, size: uint64, p: nat) {
    p == 0 || p == size || exists r :: r in records && r.begin < r.end && r.begin == p
  }

  /**
   * The non-empty ranges partition `[0, size)`: every byte lies in exactly one of them; and every
   * empty range lies on a boundary of that partition.
   */
  ghost predicate Tiles(records: seq<Range>, size: uint64) {
    && (forall x: nat :: x < size ==> Holders(records, x) == 1)
    && (forall r :: r in records && r.begin == r.end ==> IsBoundary(records, size, r.begin))
  }

  // ---------- Counting holders ----------

  lemma {:induction false} HoldersSome(records: seq<Range>, x: nat)
    ensures Holders(records, x) >= 0
    ensures Holders(records, x) > 0 <==> exists i :: 0 <= i < |records| && Holds(records[i], x)
  {
    if records == [] {
    } else {
      var init, n := records[..|records| - 1], |records| - 1;
      HoldersSome(init, x);
      assert forall i :: 0 <= i < n ==> records[i] == init[i];
      assert Holders(records, x) == Holders(init, x) + if Holds(records[n], x) then 1 else 0;
    }
  }

  lemma {:induction false} HoldersTwo(records: seq<Range>, i: nat, j: nat, x: nat)
    requires i < j < |records| && Holds(records[i], x) && Holds(records[j], x)
    ensures Holders(records, x) >= 2
  {
    var init, n := records[..|records| - 1], |records| - 1;
    if j == n {
      assert Holds(init[i], x);
      HoldersSome(init, x);
    } else {
      HoldersTwo(init, i, j, x);
    }
  }

  lemma {:induction false} HoldersUnique(records: seq<Range>, i: nat, x: nat)
    requires i < |records| && Holds(records[i], x)
    requires forall j :: 0 <= j < |records| && j != i ==> !Holds(records[j], x)
    ensures Holders(records, x) == 1
  {
    var init, n := records[..|records| - 1], |records| - 1;
    if i == n {
      assert forall j :: 0 <= j < n ==> !Holds(init[j], x);
      HoldersSome(init, x);
    } else {
      HoldersUnique(init, i, x);
    }
  }

  lemma TilesPermuted(a: seq<Range>, b: seq<Range>, size: uint64)
    requires multiset(a) == multiset(b) && Tiles(a, size)
    ensures Tiles(b, size)
  {
    SameElements(a, b);
    forall x: nat | x < size ensures Holders(b, x) == 1 {
      SumByPermuted(a, b, HoldsOnce(x));
      assert Holders(a, x) == 1;
    }
  }

  // ---------- The sorted chain ----------

  function SortKey(): Range -> int {
    (r: Range) => r.begin * 0x1_0000_0000_0000_0000 + r.end
  }

  ghost predicate InOrder(o: seq<Range>) {
    forall i, j :: 0 <= i < j < |o| ==>
      o[i].begin < o[j].begin || (o[i].begin == o[j].begin && o[i].end <= o[j].end)
  }

  lemma SortedInOrder(o: seq<Range>)
    requires Sorted(o, SortKey())
    ensures InOrder(o)
  {
    forall i, j | 0 <= i < j < |o|
      ensures o[i].begin < o[j].begin || (o[i].begin == o[j].begin && o[i].end <= o[j].end)
    {
      assert SortKey()(o[i]) <= SortKey()(o[j]);
    }
  }

  /** Where the first `n` ranges of a chain end. */
  function EndOf(o: seq<Range>, n: nat): nat
    requires n <= |o|
  {
    if n == 0 then 0 else o[n - 1].end
  }

  /** Each range begins where the one before it ends. */
  ghost predicate Chained(o: seq<Range>, n: nat)
    requires n <= |o|
  {
    forall i :: 0 <= i < n ==> o[i].begin == EndOf(o, i)
  }

  lemma ChainStarts(o: seq<Range>)
    ensures Chained(o, 0) && EndOf(o, 0) == 0
  {
  }

  lemma ChainGoesOn(o: seq<Range>, n: nat)
    requires n < |o| && Chained(o, n) && o[n].begin == EndOf(o, n)
    ensures Chained(o, n + 1) && EndOf(o, n + 1) == o[n].end
  {
  }

  ghost predicate Chain(o: seq<Range>, size: uint64) {
    Chained(o, |o|) && EndOf(o, |o|) == size
  }

  lemma {:induction false} EndsGrow(o: seq<Range>, i: nat, n: nat)
    requires i <= n <= |o| && Chained(o, n) && forall k :: 0 <= k < |o| ==> o[k].begin <= o[k].end
    ensures EndOf(o, i) <= EndOf(o, n)
  {
    if i < n {
      EndsGrow(o, i, n - 1);
      assert o[n - 1].begin == EndOf(o, n - 1);
    }
  }

  lemma {:induction false} ChainHolder(o: seq<Range>, n: nat, x: nat) returns (i: nat)
    requires n <= |o| && Chained(o, n) && x < EndOf(o, n)
    ensures i < n && Holds(o[i], x)
  {
    assert o[n - 1].begin == EndOf(o, n - 1);
    if x < EndOf(o, n - 1) {
      i := ChainHolder(o, n - 1, x);
    } else {
      i := n - 1;
    }
  }

  /** Ranges of a chain that hold the same byte are the same range. */
  lemma ChainApart(o: seq<Range>, i: nat, j: nat)
    requires i < j < |o| && Chained(o, |o|) && forall k :: 0 <= k < |o| ==> o[k].begin <= o[k].end
    ensures o[i].end <= o[j].begin
  {
    EndsGrow(o, i + 1, j);
    assert EndOf(o, i + 1) == o[i].end && o[j].begin == EndOf(o, j);
  }

  lemma ChainTiles(o: seq<Range>, size: uint64)
    requires Chain(o, size) && AllInRange(o, size)
    ensures Tiles(o, size)
  {
    forall x: nat | x < size ensures Holders(o, x) == 1 {
      var i := ChainHolder(o, |o|, x);
      forall j | 0 <= j < |o| && j != i ensures !Holds(o[j], x) {
        if j < i { ChainApart(o, j, i); } else { ChainApart(o, i, j); }
      }
      HoldersUnique(o, i, x);
    }
    forall r | r in o && r.begin == r.end ensures IsBoundary(o, size, r.begin) {
      var i: nat :| i < |o| && o[i] == r;
      ChainBoundary(o, size, i);
    }
  }

  lemma ChainBoundary(o: seq<Range>, size: uint64, i: nat)
    requires Chain(o, size) && AllInRange(o, size)
    requires i < |o| && o[i].begin == o[i].end
    ensures IsBoundary(o, size, o[i].begin)
  {
    var p := o[i].begin;
    if p < size {
      var j := ChainHolder(o, |o|, p);
      if j < i { ChainApart(o, j, i); } else if i < j { ChainApart(o, i, j); }
      assert o[j] in o && o[j].begin < o[j].end && o[j].begin == p;
    }
  }

  /** No two ranges of a tiling share a byte. */
  lemma TensorsApart(o: seq<Range>, size: uint64, i: nat, j: nat, x: nat)
    requires Tiles(o, size) && AllInRange(o, size) && i < |o| && j < |o| && i != j
    ensures !(Holds(o[i], x) && Holds(o[j], x))
  {
    if x < size && Holds(o[i], x) && Holds(o[j], x) {
      HoldersTwo(o, if i < j then i else j, if i < j then j else i, x);
    }
    assert InRange(o[i], size);
  }

  /** No empty range of a tiling lies strictly inside another range. */
  lemma EmptyOutside(o: seq<Range>, size: uint64, n: nat, i: nat)
    requires Tiles(o, size) && AllInRange(o, size) && n < |o| && i < |o| && o[n].begin == o[n].end
    ensures !(o[i].begin < o[n].begin < o[i].end)
  {
    var p := o[n].begin;
    assert o[n] in o;
    assert IsBoundary(o, size, p);
    assert InRange(o[i], size);
    if r :| r in o && r.begin < r.end && r.begin == p {
      var j := Position(o, r);
      if i != j { TensorsApart(o, size, i, j, p); }
    }
  }

  /** In order, a range of a tiling does not begin before the end of the range before it. */
  lemma NoOverlap(o: seq<Range>, size: uint64, n: nat)
    requires Tiles(o, size) && InOrder(o) && AllInRange(o, size) && n < |o|
    ensures EndOf(o, n) <= o[n].begin
  {
    if n > 0 {
      assert InRange(o[n], size);
      if o[n].begin < o[n].end {
        TensorsApart(o, size, n - 1, n, o[n].begin);
      } else {
        EmptyOutside(o, size, n, n - 1);
      }
    }
  }

  /** The byte behind the first `n` ranges is held by a later range. */
  lemma NextCovers(o: seq<Range>, size: uint64, n: nat) returns (k: nat)
    requires Tiles(o, size) && AllInRange(o, size) && n <= |o| && Chained(o, n) && EndOf(o, n) < size
    ensures n <= k < |o| && Holds(o[k], EndOf(o, n))
  {
    var e := EndOf(o, n);
    assert Holders(o, e) == 1;
    HoldersSome(o, e);
    k :| 0 <= k < |o| && Holds(o[k], e);
    EndsBelow(o, k, n);
  }

  lemma EndsBelow(o: seq<Range>, k: nat, n: nat)
    requires k < |o| && n <= |o| && Chained(o, n) && forall i :: 0 <= i < |o| ==> o[i].begin <= o[i].end
    ensures k < n ==> o[k].end <= EndOf(o, n)
  {
    if k < n {
      EndsGrow(o, k + 1, n);
      assert EndOf(o, k + 1) == o[k].end;
    }
  }

  /** In order, a tiling leaves no gap before range `n`. */
  lemma NoGap(o: seq<Range>, size: uint64, n: nat)
    requires Tiles(o, size) && InOrder(o) && AllInRange(o, size) && n < |o| && Chained(o, n)
    ensures o[n].begin <= EndOf(o, n)
  {
    assert InRange(o[n], size);
    if EndOf(o, n) < size {
      var k := NextCovers(o, size, n);
      assert n < k ==> o[n].begin <= o[k].begin;
    }
  }

  lemma TilesNext(o: seq<Range>, size: uint64, n: nat)
    requires Tiles(o, size) && InOrder(o) && AllInRange(o, size) && n < |o| && Chained(o, n)
    ensures o[n].begin == EndOf(o, n)
  {
    NoGap(o, size, n);
    NoOverlap(o, size, n);
  }

  lemma TilesEnd(o: seq<Range>, size: uint64)
    requires Tiles(o, size) && AllInRange(o, size) && Chained(o, |o|)
    ensures EndOf(o, |o|) == size
  {
    assert |o| > 0 ==> InRange(o[|o| - 1], size);
    if EndOf(o, |o|) < size {
      var k := NextCovers(o, size, |o|);
      assert false;
    }
  }

  // ---------- The validator ----------

  /** Records whose ranges lie in the data pass exactly when they tile it, in whatever order they come. */
  method ValidateExactCoverage(records: seq<Range>, size: uint64) returns (status: Status)
    requires AllInRange(records, size)
    ensures status == OK <==> Tiles(records, size)
    ensures status != OK ==> status == Failure(InvalidTensor)
  {
    var ordered := SortBy(records, SortKey());
    SortBySorts(records, SortKey());
    SortedInOrder(ordered);
    SameElements(records, ordered);
    forall k | 0 <= k < |ordered| ensures InRange(ordered[k], size) {
      assert ordered[k] in records;
    }
    if Tiles(records, size) { TilesPermuted(records, ordered, size); }
    if Tiles(ordered, size) { TilesPermuted(ordered, records, size); }
    hide Tiles, Chained, EndOf, Sorted, SortBy;
    ChainStarts(ordered);
    var expectedBegin := 0;
    for n := 0 to |ordered|
      invariant Chained(ordered, n) && expectedBegin == EndOf(ordered, n)
    {
      if ordered[n].begin != expectedBegin {
        if Tiles(ordered, size) { TilesNext(ordered, size, n); }
        return Failure(InvalidTensor);
      }
      ChainGoesOn(ordered, n);
      expectedBegin := ordered[n].end;
    }
    if Tiles(ordered, size) { TilesEnd(ordered, size); }
    if expectedBegin != size {
      return Failure(InvalidTensor);
    }
    ChainTiles(ordered, size);
    status := OK;
  }

  /** The offsets of every record are checked before the coverage is. */
  method ValidateRanges(records: seq<Range>, size: uint64) returns (status: Status)
    ensures status == OK <==> AllInRange(records, size) && Tiles(records, size)
    ensures status != OK ==> status == Failure(InvalidTensor)
  {
    for n := 0 to |records|
      invariant forall k :: 0 <= k < n ==> InRange(records[k], size)
    {
      if records[n].end < records[n].begin || records[n].end > size {
        assert !InRange(records[n], size);
        return Failure(InvalidTensor);
      }
    }
    status := ValidateExactCoverage(records, size);
  }

  // ---------- What a tiling gives ----------

  function Length(): Range -> int {
    (r: Range) => r.end - r.begin
  }

  lemma {:induction false} ChainLength(o: seq<Range>, n: nat)
    requires n <= |o| && Chained(o, n)
    ensures SumBy(o[..n], Length()) == EndOf(o, n)
  {
    if n == 0 {
    } else {
      ChainLength(o, n - 1);
      assert o[..n][..n - 1] == o[..n - 1];
      assert o[n - 1].begin == EndOf(o, n - 1);
    }
  }

  /** The lengths of the ranges add up to the size of the data. */
  lemma LengthsAddUp(records: seq<Range>, size: uint64)
    requires Tiles(records, size) && AllInRange(records, size)
    ensures SumBy(records, Length()) == size
  {
    var o := SortBy(records, SortKey());
    SortBySorts(records, SortKey());
    SortedInOrder(o);
    SameElements(records, o);
    forall k | 0 <= k < |o| ensures InRange(o[k], size) {
      assert o[k] in records;
    }
    TilesPermuted(records, o, size);
    TilesChained(o, size, |o|);
    TilesEnd(o, size);
    ChainLength(o, |o|);
    assert o[..|o|] == o;
    SumByPermuted(records, o, Length());
  }

  lemma {:induction false} TilesChained(o: seq<Range>, size: uint64, n: nat)
    requires Tiles(o, size) && InOrder(o) && AllInRange(o, size)
    requires n <= |o|
    ensures Chained(o, n)
  {
    hide *;
    if n == 0 {
      ChainedNone(o);
    } else {
      TilesChained(o, size, n - 1);
      TilesNext(o, size, n - 1);
      ChainedSnoc(o, n - 1);
    }
  }

  lemma ChainedNone(o: seq<Range>)
    ensures Chained(o, 0)
  {
  }

  lemma ChainedSnoc(o: seq<Range>, n: nat)
    requires n < |o| && Chained(o, n) && o[n].begin == EndOf(o, n)
    ensures Chained(o, n + 1)
  {
  }
}
