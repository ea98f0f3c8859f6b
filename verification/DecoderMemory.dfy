/** Flat buffers read as rows, and writes that stay inside a region. */
module DecoderMemory {
  import opened DecoderRows

  /** `s` and `t` agree everywhere outside `[at, at + n)`. */
  ghost predicate Outside<F>(s: seq<F>, t: seq<F>, at: nat, n: nat) {
    |s| == |t| && forall i :: 0 <= i < |s| && !(at <= i < at + n) ==> t[i] == s[i]
  }

  /** `s` and `t` agree everywhere outside two regions. */
  ghost predicate OutsideBoth<F>(s: seq<F>, t: seq<F>, a: nat, m: nat, b: nat, n: nat) {
    |s| == |t| && forall i :: 0 <= i < |s| && !(a <= i < a + m) && !(b <= i < b + n) ==> t[i] == s[i]
  }

  ghost predicate Apart(a: nat, m: nat, b: nat, n: nat) {
    a + m <= b || b + n <= a
  }

  /** `n` rows of width `w` that begin at `at`. */
  ghost function Rows<F>(s: seq<F>, at: nat, w: nat, n: nat): (r: seq<seq<F>>)
    requires at + Times(n, w) <= |s|
    ensures IsMatrix(r, n, w)
  {
    seq(n, r requires 0 <= r < n => RowAt(s, at, w, n, r))
  }

  ghost function RowAt<F>(s: seq<F>, at: nat, w: nat, n: nat, r: nat): (row: seq<F>)
    requires at + Times(n, w) <= |s| && r < n
    ensures |row| == w
  {
    RowInside(r, n, w);
    s[at + Times(r, w)..at + Times(r, w) + w]
  }

  lemma RowsSnoc<F>(s: seq<F>, at: nat, w: nat, n: nat)
    requires at + Times(n + 1, w) <= |s|
    ensures Rows(s, at, w, n + 1) == Rows(s, at, w, n) + [s[at + Times(n, w)..at + Times(n, w) + w]]
  {
    RowInside(n, n + 1, w);
  }

  lemma SliceStable<F>(s: seq<F>, t: seq<F>, at: nat, n: nat, b: nat, m: nat)
    requires Outside(s, t, b, m) && Apart(at, n, b, m) && at + n <= |s|
    ensures s[at..at + n] == t[at..at + n]
  {
  }

  lemma RowsStable<F>(s: seq<F>, t: seq<F>, at: nat, w: nat, n: nat, b: nat, m: nat)
    requires Outside(s, t, b, m) && at + Times(n, w) <= |s| && Apart(at, Times(n, w), b, m)
    ensures Rows(s, at, w, n) == Rows(t, at, w, n)
  {
    forall r | 0 <= r < n ensures Rows(s, at, w, n)[r] == Rows(t, at, w, n)[r] {
      RowInside(r, n, w);
      SliceStable(s, t, at + Times(r, w), w, b, m);
    }
  }

  lemma RowsStableBoth<F>(s: seq<F>, t: seq<F>, at: nat, w: nat, n: nat, a: nat, l: nat, b: nat, m: nat)
    requires OutsideBoth(s, t, a, l, b, m) && at + Times(n, w) <= |s|
    requires Apart(at, Times(n, w), a, l) && Apart(at, Times(n, w), b, m)
    ensures Rows(s, at, w, n) == Rows(t, at, w, n)
  {
    forall r | 0 <= r < n ensures Rows(s, at, w, n)[r] == Rows(t, at, w, n)[r] {
      RowInside(r, n, w);
      assert s[at + Times(r, w)..at + Times(r, w) + w] == t[at + Times(r, w)..at + Times(r, w) + w];
    }
  }

  lemma Chain<F>(s: seq<F>, t: seq<F>, u: seq<F>, at: nat, n: nat)
    requires Outside(s, t, at, n) && Outside(t, u, at, n)
    ensures Outside(s, u, at, n)
  {
  }

  // ---------- Loops that write cell after cell ----------

  /** The first `c` cells of a region hold those of `y`; nothing else has changed. */
  ghost predicate CellsDone<F>(before: seq<F>, now: seq<F>, at: nat, y: seq<F>, c: nat) {
    && |now| == |before| && at + |y| <= |now| && c <= |y|
    && forall i :: 0 <= i < |now| ==> now[i] == if at <= i < at + c then y[i - at] else before[i]
  }

  lemma CellsStart<F>(s: seq<F>, at: nat, y: seq<F>)
    requires at + |y| <= |s|
    ensures CellsDone(s, s, at, y, 0)
  {
  }

  lemma CellsStep<F>(before: seq<F>, s: seq<F>, at: nat, y: seq<F>, c: nat)
    requires CellsDone(before, s, at, y, c) && c < |y|
    ensures at + c < |s| && CellsDone(before, s[at + c := y[c]], at, y, c + 1)
  {
  }

  lemma CellsFinish<F>(before: seq<F>, s: seq<F>, at: nat, y: seq<F>)
    requires CellsDone(before, s, at, y, |y|)
    ensures at + |y| <= |s| && s[at..at + |y|] == y && Outside(before, s, at, |y|)
  {
  }

  /** A cell apart from the region, or one of the region that is still to come. */
  lemma CellUnwritten<F>(before: seq<F>, s: seq<F>, at: nat, y: seq<F>, c: nat, i: nat)
    requires CellsDone(before, s, at, y, c) && i < |s| && (i < at || at + c <= i)
    ensures s[i] == before[i]
  {
  }

  lemma SliceUnwritten<F>(before: seq<F>, s: seq<F>, at: nat, y: seq<F>, c: nat, from: nat, n: nat)
    requires CellsDone(before, s, at, y, c) && from + n <= |s| && Apart(from, n, at, |y|)
    ensures s[from..from + n] == before[from..from + n]
  {
  }

  // ---------- Loops that write row after row ----------

  /**
   * The first `r` rows of a region hold the rows `ys[..r]`; outside them, and outside a second
   * region `[b, b + m)`, nothing has changed.
   */
  ghost predicate RowsDone<F>(before: seq<F>, now: seq<F>, at: nat, w: nat, ys: seq<seq<F>>, r: nat, b: nat, m: nat) {
    && IsMatrix(ys, |ys|, w) && r <= |ys| && at + Times(|ys|, w) <= |now|
    && (forall k :: 0 <= k < r ==> RowAt(now, at, w, |ys|, k) == ys[k])
    && OutsideBoth(before, now, at, Times(r, w), b, m)
  }

  lemma RowsStart<F>(s: seq<F>, at: nat, w: nat, ys: seq<seq<F>>, b: nat, m: nat)
    requires IsMatrix(ys, |ys|, w) && at + Times(|ys|, w) <= |s|
    ensures RowsDone(s, s, at, w, ys, 0, b, m)
  {
  }

  lemma RowsFinish<F>(before: seq<F>, now: seq<F>, at: nat, w: nat, ys: seq<seq<F>>, b: nat, m: nat)
    requires RowsDone(before, now, at, w, ys, |ys|, b, m)
    ensures OutsideBoth(before, now, at, Times(|ys|, w), b, m)
    ensures at + Times(|ys|, w) <= |now| && Rows(now, at, w, |ys|) == ys
  {
  }

  /** Row `r` is written, and nothing else but the second region. */
  lemma {:induction false} RowsStep<F>(before: seq<F>, s: seq<F>, t: seq<F>, at: nat, w: nat, ys: seq<seq<F>>, r: nat,
                                       b: nat, m: nat)
    requires r < |ys| && RowsDone(before, s, at, w, ys, r, b, m) && Apart(at, Times(|ys|, w), b, m)
    requires OutsideBoth(s, t, at + Times(r, w), w, b, m)
    requires at + Times(r, w) + w <= |t| && t[at + Times(r, w)..at + Times(r, w) + w] == ys[r]
    ensures RowsDone(before, t, at, w, ys, r + 1, b, m)
  {
    RowInside(r, |ys|, w);
    assert OutsideBoth(before, t, at, Times(r + 1, w), b, m);
    forall k | 0 <= k < r ensures RowAt(t, at, w, |ys|, k) == ys[k] {
      RowInside(k, r, w);
      assert RowAt(s, at, w, |ys|, k) == ys[k];
      SliceStableBoth(s, t, at + Times(k, w), w, at + Times(r, w), w, b, m);
    }
  }

  lemma SliceStableBoth<F>(s: seq<F>, t: seq<F>, at: nat, n: nat, a: nat, l: nat, b: nat, m: nat)
    requires OutsideBoth(s, t, a, l, b, m) && Apart(at, n, a, l) && Apart(at, n, b, m) && at + n <= |s|
    ensures s[at..at + n] == t[at..at + n]
  {
  }

  /** A write inside the second region keeps the rows. */
  lemma RowsKept<F>(before: seq<F>, s: seq<F>, t: seq<F>, at: nat, w: nat, ys: seq<seq<F>>, r: nat, b: nat, m: nat,
                    c: nat, n: nat)
    requires RowsDone(before, s, at, w, ys, r, b, m) && Apart(at, Times(|ys|, w), b, m)
    requires Outside(s, t, c, n) && b <= c && c + n <= b + m
    ensures RowsDone(before, t, at, w, ys, r, b, m)
  {
    forall k | 0 <= k < r ensures RowAt(t, at, w, |ys|, k) == ys[k] {
      RowInside(k, |ys|, w);
      assert RowAt(s, at, w, |ys|, k) == ys[k];
      SliceStable(s, t, at + Times(k, w), w, c, n);
    }
  }

  lemma AsBoth<F>(s: seq<F>, t: seq<F>, at: nat, n: nat, b: nat, m: nat)
    requires Outside(s, t, at, n)
    ensures OutsideBoth(s, t, at, n, b, m)
  {
  }

  lemma AsOne<F>(s: seq<F>, t: seq<F>, at: nat, n: nat, b: nat)
    requires OutsideBoth(s, t, at, n, b, 0)
    ensures Outside(s, t, at, n)
  {
  }

  lemma RowFits(at: nat, w: nat, rows: nat, r: nat, length: nat)
    requires r < rows && at + Times(rows, w) <= length
    ensures at + Times(r, w) + w <= length
    ensures Times(r, w) + w <= Times(rows, w)
  {
    RowInside(r, rows, w);
  }

  lemma RowOf<F>(s: seq<F>, at: nat, w: nat, rows: nat, r: nat)
    requires r < rows && at + Times(rows, w) <= |s|
    ensures at + Times(r, w) + w <= |s| && s[at + Times(r, w)..at + Times(r, w) + w] == Rows(s, at, w, rows)[r]
  {
    RowInside(r, rows, w);
  }

  /** Regions that are apart have rows that are apart. */
  lemma RowsApart(inAt: nat, width: nat, outAt: nat, outWidth: nat, rows: nat, r: nat)
    requires r < rows && Apart(inAt, Times(rows, width), outAt, Times(rows, outWidth))
    ensures Apart(inAt + Times(r, width), width, outAt + Times(r, outWidth), outWidth)
    ensures Apart(inAt, Times(rows, width), outAt + Times(r, outWidth), outWidth)
  {
    RowInside(r, rows, width);
    RowInside(r, rows, outWidth);
  }

  /** Rows, one after the other, are the region that they fill. */
  lemma {:induction false} RowsFill<F>(s: seq<F>, at: nat, w: nat, n: nat)
    requires at + Times(n, w) <= |s|
    ensures s[at..at + Times(n, w)] == Concat(Rows(s, at, w, n))
  {
    var rows := Rows(s, at, w, n);
    if n == 0 {
    } else {
      RowsFill(s, at, w, n - 1);
      RowsSnoc(s, at, w, n - 1);
      assert rows[..n - 1] == Rows(s, at, w, n - 1);
    }
  }
}
