/** Appending to the key/value cache, and causal attention over it. */
module CpuAttention {
  import opened DecoderRows
  import opened DecoderMemory
  import opened CpuOperators

  // ---------- Appending keys and values ----------

  method CopyRow<F>(source: array<F>, from: nat, target: array<F>, to: nat, width: nat)
    requires source != target && from + width <= source.Length && to + width <= target.Length
    modifies target
    ensures target[to..to + width] == source[from..from + width]
    ensures Outside(old(target[..]), target[..], to, width)
  {
    ghost var row, before := source[from..from + width], target[..];
    hide CellsDone;
    CellsStart(before, to, row);
    for d := 0 to width
      invariant CellsDone(before, target[..], to, row, d)
    {
      CellsStep(before, target[..], to, row, d);
      target[to + d] := source[from + d];
    }
    CellsFinish(before, target[..], to, row);
  }

  /** The slots after the first `n` rows have been stored at their positions, one after the other. */
  ghost function Stored<F>(slots: seq<seq<F>>, positions: seq<nat>, rows: seq<seq<F>>, n: nat): (r: seq<seq<F>>)
    requires n <= |positions| == |rows| && forall t :: 0 <= t < |positions| ==> positions[t] < |slots|
    ensures |r| == |slots|
  {
    if n == 0 then slots else Stored(slots, positions, rows, n - 1)[positions[n - 1] := rows[n - 1]]
  }

  lemma RowReplaced<F>(s: seq<F>, t: seq<F>, at: nat, w: nat, n: nat, p: nat)
    requires p < n && at + Times(n, w) <= |s| && at + Times(p, w) + w <= |s|
    requires Outside(s, t, at + Times(p, w), w)
    ensures Rows(t, at, w, n) == Rows(s, at, w, n)[p := t[at + Times(p, w)..at + Times(p, w) + w]]
  {
    var row := t[at + Times(p, w)..at + Times(p, w) + w];
    forall r | 0 <= r < n ensures Rows(t, at, w, n)[r] == Rows(s, at, w, n)[p := row][r] {
      RowInside(r, n, w);
      if r < p {
        RowInside(r, p, w);
        SliceStable(s, t, at + Times(r, w), w, at + Times(p, w), w);
      } else if r > p {
        RowInside(p, r, w);
        SliceStable(s, t, at + Times(r, w), w, at + Times(p, w), w);
      }
    }
  }

  /** Copy one row of the source to the slot of its position. */
  method StoreRow<F>(source: array<F>, from: nat, rows: nat, r: nat, width: nat, position: nat, cache: array<F>,
                     base: nat, capacity: nat)
    requires source != cache && r < rows && position < capacity
    requires from + Times(rows, width) <= source.Length && base + Times(capacity, width) <= cache.Length
    modifies cache
    ensures Rows(cache[..], base, width, capacity)
      == old(Rows(cache[..], base, width, capacity))[position := Rows(source[..], from, width, rows)[r]]
    ensures Outside(old(cache[..]), cache[..], base, Times(capacity, width))
  {
    hide Rows, Outside;
    RowFits(from, width, rows, r, source.Length);
    RowFits(base, width, capacity, position, cache.Length);
    RowOf(source[..], from, width, rows, r);
    ghost var s := cache[..];
    CopyRow(source, from + Times(r, width), cache, base + Times(position, width), width);
    RowReplaced(s, cache[..], base, width, capacity, position);
    Widen(s, cache[..], base + Times(position, width), width, base, Times(capacity, width));
  }

  lemma Widen<F>(s: seq<F>, t: seq<F>, at: nat, n: nat, b: nat, m: nat)
    requires Outside(s, t, at, n) && b <= at && at + n <= b + m
    ensures Outside(s, t, b, m)
  {
  }

  /** The key and value slots of a cache after the first `n` tokens, and nothing else changed. */
  ghost predicate Appended<F>(before: seq<F>, now: seq<F>, keyBase: nat, valueBase: nat, width: nat, capacity: nat,
                              positions: seq<nat>, keys: seq<seq<F>>, values: seq<seq<F>>, n: nat)
    requires n <= |positions| == |keys| == |values| && forall t :: 0 <= t < |positions| ==> positions[t] < capacity
    requires keyBase + Times(capacity, width) <= |before| && valueBase + Times(capacity, width) <= |before|
  {
    && |now| == |before|
    && Rows(now, keyBase, width, capacity) == Stored(Rows(before, keyBase, width, capacity), positions, keys, n)
    && Rows(now, valueBase, width, capacity) == Stored(Rows(before, valueBase, width, capacity), positions, values, n)
    && OutsideBoth(before, now, keyBase, Times(capacity, width), valueBase, Times(capacity, width))
  }

  lemma AppendedStep<F>(before: seq<F>, s: seq<F>, u: seq<F>, t: seq<F>, keyBase: nat, valueBase: nat, width: nat,
                        capacity: nat, positions: seq<nat>, keys: seq<seq<F>>, values: seq<seq<F>>, n: nat)
    requires n < |positions| == |keys| == |values| && forall t :: 0 <= t < |positions| ==> positions[t] < capacity
    requires keyBase + Times(capacity, width) <= |before| && valueBase + Times(capacity, width) <= |before|
    requires Apart(keyBase, Times(capacity, width), valueBase, Times(capacity, width))
    requires Appended(before, s, keyBase, valueBase, width, capacity, positions, keys, values, n)
    requires |u| == |t| == |s|
    requires Rows(u, keyBase, width, capacity) == Rows(s, keyBase, width, capacity)[positions[n] := keys[n]]
    requires Outside(s, u, keyBase, Times(capacity, width))
    requires Rows(t, valueBase, width, capacity) == Rows(u, valueBase, width, capacity)[positions[n] := values[n]]
    requires Outside(u, t, valueBase, Times(capacity, width))
    ensures Appended(before, t, keyBase, valueBase, width, capacity, positions, keys, values, n + 1)
  {
    hide Rows;
    RowsStable(s, u, valueBase, width, capacity, keyBase, Times(capacity, width));
    RowsStable(u, t, keyBase, width, capacity, valueBase, Times(capacity, width));
  }

  /** Copy the key and value row of every token to the slot of its position. */
  method AppendKv<F>(source: array<F>, keyAt: nat, valueAt: nat, rows: nat, width: nat, positions: seq<nat>,
                     cache: array<F>, keyBase: nat, valueBase: nat, capacity: nat)
    requires source != cache
    requires keyAt + Times(rows, width) <= source.Length && valueAt + Times(rows, width) <= source.Length
    requires keyBase + Times(capacity, width) <= cache.Length && valueBase + Times(capacity, width) <= cache.Length
    requires Apart(keyBase, Times(capacity, width), valueBase, Times(capacity, width))
    requires |positions| == rows && forall t :: 0 <= t < rows ==> positions[t] < capacity
    modifies cache
    ensures Appended(old(cache[..]), cache[..], keyBase, valueBase, width, capacity, positions,
                     Rows(source[..], keyAt, width, rows), Rows(source[..], valueAt, width, rows), rows)
  {
    ghost var before := cache[..];
    ghost var ks, vs := Rows(source[..], keyAt, width, rows), Rows(source[..], valueAt, width, rows);
    for t := 0 to rows
      invariant Appended(before, cache[..], keyBase, valueBase, width, capacity, positions, ks, vs, t)
    {
      hide Appended, Rows, Outside;
      ghost var s := cache[..];
      StoreRow(source, keyAt, rows, t, width, positions[t], cache, keyBase, capacity);
      ghost var u := cache[..];
      StoreRow(source, valueAt, rows, t, width, positions[t], cache, valueBase, capacity);
      AppendedStep(before, s, u, cache[..], keyBase, valueBase, width, capacity, positions, ks, vs, t);
    }
  }

  /** Rows at consecutive positions replace that stretch of the slots. */
  lemma {:induction false} StoredInARow<F>(slots: seq<seq<F>>, positions: seq<nat>, rows: seq<seq<F>>, start: nat,
                                           n: nat)
    requires n <= |positions| == |rows| && start + |positions| <= |slots|
    requires forall t :: 0 <= t < |positions| ==> positions[t] == start + t
    ensures Stored(slots, positions, rows, n) == slots[..start] + rows[..n] + slots[start + n..]
  {
    if n == 0 {
      assert slots == slots[..start] + rows[..0] + slots[start..];
    } else {
      StoredInARow(slots, positions, rows, start, n - 1);
      assert rows[..n] == rows[..n - 1] + [rows[n - 1]];
    }
  }

  // ---------- One head of one query row ----------

  /** The block of a head in each of the first `n` slots. */
  ghost function Blocks<F>(s: seq<F>, at: nat, stride: nat, n: nat, headDim: nat): (r: seq<seq<F>>)
    requires forall k :: 0 <= k < n ==> at + Times(k, stride) + headDim <= |s|
    ensures IsMatrix(r, n, headDim)
  {
    seq(n, k requires 0 <= k < n => s[at + Times(k, stride)..at + Times(k, stride) + headDim])
  }

  method DotBlocks<F>(fl: Ops<F>, a: array<F>, at: nat, b: array<F>, bt: nat, n: nat) returns (dot: F)
    requires at + n <= a.Length && bt + n <= b.Length
    ensures dot == Dot(fl, a[at..at + n], b[bt..bt + n], n)
  {
    dot := fl.zero;
    ghost var x, y := a[at..at + n], b[bt..bt + n];
    for d := 0 to n
      invariant dot == Dot(fl, x, y, d)
    {
      dot := fl.add(dot, fl.mul(a[at + d], b[bt + d]));
    }
  }

  lemma ScoreAt<F>(fl: Ops<F>, query: Row<F>, keys: seq<seq<F>>, k: nat)
    requires IsMatrix(keys, |keys|, |query|) && k < |keys|
    ensures Scores(fl, query, keys)[k] == fl.mul(Dot(fl, query, keys[k], |query|), Scale(fl, |query|))
  {
  }

  lemma BlockAt<F>(s: array<F>, at: nat, stride: nat, n: nat, headDim: nat, k: nat)
    requires forall k :: 0 <= k < n ==> at + Times(k, stride) + headDim <= s.Length
    requires k < n
    ensures at + Times(k, stride) + headDim <= s.Length
    ensures Blocks(s[..], at, stride, n, headDim)[k] == s[at + Times(k, stride)..at + Times(k, stride) + headDim]
  {
  }

  method ScoreOne<F>(fl: Ops<F>, ws: array<F>, queryAt: nat, headDim: nat, cache: array<F>, keyAt: nat, stride: nat,
                     ghost n: nat, k: nat)
    returns (score: F)
    requires queryAt + headDim <= ws.Length && k < n
    requires forall k :: 0 <= k < n ==> keyAt + Times(k, stride) + headDim <= cache.Length
    ensures score == Scores(fl, ws[queryAt..queryAt + headDim], Blocks(cache[..], keyAt, stride, n, headDim))[k]
  {
    hide Scores, Dot, Times, Blocks;
    ScoreAt(fl, ws[queryAt..queryAt + headDim], Blocks(cache[..], keyAt, stride, n, headDim), k);
    BlockAt(cache, keyAt, stride, n, headDim, k);
    var dot := DotBlocks(fl, ws, queryAt, cache, keyAt + Times(k, stride), headDim);
    score := fl.mul(dot, fl.div(fl.one, fl.sqrt(fl.ofNat(headDim))));
  }

  /** The scores of one query head, and the largest of them. */
  method ScoreKeys<F>(fl: Ops<F>, ws: array<F>, queryAt: nat, headDim: nat, cache: array<F>, keyAt: nat, stride: nat,
                      n: nat, scratchAt: nat)
    returns (maximum: F)
    requires ws != cache && queryAt + headDim <= ws.Length && scratchAt + n <= ws.Length
      && Apart(queryAt, headDim, scratchAt, n)
    requires forall k :: 0 <= k < n ==> keyAt + Times(k, stride) + headDim <= cache.Length
    modifies ws
    ensures ws[scratchAt..scratchAt + n]
      == Scores(fl, old(ws[queryAt..queryAt + headDim]), Blocks(cache[..], keyAt, stride, n, headDim))
    ensures maximum
      == Largest(fl, Scores(fl, old(ws[queryAt..queryAt + headDim]), Blocks(cache[..], keyAt, stride, n, headDim)), n)
    ensures Outside(old(ws[..]), ws[..], scratchAt, n)
  {
    hide Scores, Blocks, Times;
    ghost var q, before := ws[queryAt..queryAt + headDim], ws[..];
    ghost var scores := Scores(fl, q, Blocks(cache[..], keyAt, stride, n, headDim));
    maximum := fl.lowest;
    for k := 0 to n
      invariant ws[queryAt..queryAt + headDim] == q
      invariant forall i :: 0 <= i < k ==> ws[scratchAt + i] == scores[i]
      invariant maximum == Largest(fl, scores, k)
      invariant Outside(before, ws[..], scratchAt, n)
    {
      var score := ScoreOne(fl, ws, queryAt, headDim, cache, keyAt, stride, n, k);
      ws[scratchAt + k] := score;
      maximum := if fl.less(maximum, score) then score else maximum;
      assert ws[queryAt..queryAt + headDim] == q;
    }
  }

  lemma ExponentialAt<F>(fl: Ops<F>, scores: Row<F>, k: nat)
    requires k < |scores|
    ensures Exponentials(fl, scores)[k] == fl.exp(fl.sub(scores[k], Largest(fl, scores, |scores|)))
  {
  }

  method ExponentiateInPlace<F>(fl: Ops<F>, ws: array<F>, at: nat, n: nat, maximum: F) returns (denominator: F)
    requires at + n <= ws.Length && maximum == Largest(fl, ws[at..at + n], n)
    modifies ws
    ensures ws[at..at + n] == Exponentials(fl, old(ws[at..at + n]))
    ensures denominator == Total(fl, Exponentials(fl, old(ws[at..at + n])), n)
    ensures Outside(old(ws[..]), ws[..], at, n)
  {
    hide Exponentials, Largest, CellsDone, Outside;
    ghost var scores, before := ws[at..at + n], ws[..];
    ghost var e := Exponentials(fl, scores);
    denominator := fl.zero;
    CellsStart(before, at, e);
    for k := 0 to n
      invariant CellsDone(before, ws[..], at, e, k)
      invariant denominator == Total(fl, e, k)
    {
      ExponentialAt(fl, scores, k);
      CellUnwritten(before, ws[..], at, e, k, at + k);
      CellsStep(before, ws[..], at, e, k);
      var probability := fl.exp(fl.sub(ws[at + k], maximum));
      ws[at + k] := probability;
      denominator := fl.add(denominator, probability);
    }
    CellsFinish(before, ws[..], at, e);
  }

  /** Turn scores into probabilities, in place. */
  method SoftmaxInPlace<F>(fl: Ops<F>, ws: array<F>, at: nat, n: nat, maximum: F)
    requires at + n <= ws.Length && maximum == Largest(fl, ws[at..at + n], n)
    modifies ws
    ensures ws[at..at + n] == Softmax(fl, old(ws[at..at + n]))
    ensures Outside(old(ws[..]), ws[..], at, n)
  {
    hide Exponentials, Largest, Total;
    ghost var scores, before := ws[at..at + n], ws[..];
    ghost var e, p := Exponentials(fl, scores), Softmax(fl, scores);
    var denominator := ExponentiateInPlace(fl, ws, at, n, maximum);
    var inverse := fl.div(fl.one, denominator);
    for k := 0 to n
      invariant forall i :: 0 <= i < k ==> ws[at + i] == p[i]
      invariant forall i :: k <= i < n ==> ws[at + i] == e[i]
      invariant Outside(before, ws[..], at, n)
    {
      ws[at + k] := fl.mul(ws[at + k], inverse);
    }
  }

  /** The sum of the values, weighted by the probabilities, component by component. */
  method WeighValues<F>(fl: Ops<F>, ws: array<F>, scratchAt: nat, n: nat, cache: array<F>, valueAt: nat, stride: nat,
                        headDim: nat, outAt: nat)
    requires ws != cache && scratchAt + n <= ws.Length && outAt + headDim <= ws.Length
      && Apart(scratchAt, n, outAt, headDim)
    requires forall k :: 0 <= k < n ==> valueAt + Times(k, stride) + headDim <= cache.Length
    modifies ws
    ensures ws[outAt..outAt + headDim]
      == WeightedRow(fl, old(ws[scratchAt..scratchAt + n]), Blocks(cache[..], valueAt, stride, n, headDim), headDim)
    ensures Outside(old(ws[..]), ws[..], outAt, headDim)
  {
    ghost var p, before := ws[scratchAt..scratchAt + n], ws[..];
    ghost var y := WeightedRow(fl, p, Blocks(cache[..], valueAt, stride, n, headDim), headDim);
    hide Blocks, Times, Weighted, CellsDone, Outside;
    CellsStart(before, outAt, y);
    for d := 0 to headDim
      invariant CellsDone(before, ws[..], outAt, y, d)
    {
      SliceUnwritten(before, ws[..], outAt, y, d, scratchAt, n);
      var sum := WeighOne(fl, ws, scratchAt, n, cache, valueAt, stride, headDim, d);
      CellsStep(before, ws[..], outAt, y, d);
      ws[outAt + d] := sum;
    }
    CellsFinish(before, ws[..], outAt, y);
  }

  method WeighOne<F>(fl: Ops<F>, ws: array<F>, scratchAt: nat, n: nat, cache: array<F>, valueAt: nat, stride: nat,
                     headDim: nat, d: nat)
    returns (sum: F)
    requires scratchAt + n <= ws.Length && d < headDim
    requires forall k :: 0 <= k < n ==> valueAt + Times(k, stride) + headDim <= cache.Length
    ensures sum == Weighted(fl, ws[scratchAt..scratchAt + n], Blocks(cache[..], valueAt, stride, n, headDim), d, n)
  {
    hide Blocks, Times, Weighted;
    ghost var p, values := ws[scratchAt..scratchAt + n], Blocks(cache[..], valueAt, stride, n, headDim);
    sum := fl.zero;
    WeightedNone(fl, p, values, d);
    for k := 0 to n
      invariant sum == Weighted(fl, p, values, d, k)
    {
      BlockEntry(cache[..], valueAt, stride, n, headDim, k, d);
      WeightedNext(fl, p, values, d, k, headDim);
      sum := fl.add(sum, fl.mul(ws[scratchAt + k], cache[valueAt + Times(k, stride) + d]));
    }
  }

  lemma WeightedNone<F>(fl: Ops<F>, p: Row<F>, values: seq<seq<F>>, d: nat)
    ensures Weighted(fl, p, values, d, 0) == fl.zero
  {
  }

  lemma WeightedNext<F>(fl: Ops<F>, p: Row<F>, values: seq<seq<F>>, d: nat, k: nat, headDim: nat)
    requires k < |p| && IsMatrix(values, |p|, headDim) && d < headDim
    ensures Weighted(fl, p, values, d, k + 1) == fl.add(Weighted(fl, p, values, d, k), fl.mul(p[k], values[k][d]))
  {
  }

  lemma BlockEntry<F>(s: seq<F>, at: nat, stride: nat, n: nat, headDim: nat, k: nat, d: nat)
    requires forall k :: 0 <= k < n ==> at + Times(k, stride) + headDim <= |s|
    requires k < n && d < headDim
    ensures at + Times(k, stride) + d < |s|
    ensures Blocks(s, at, stride, n, headDim)[k][d] == s[at + Times(k, stride) + d]
  {
  }

  /** One query head over the first `n` slots. */
  method AttendOne<F>(fl: Ops<F>, ws: array<F>, queryAt: nat, headDim: nat, cache: array<F>, keyAt: nat, valueAt: nat,
                      stride: nat, n: nat, scratchAt: nat, outAt: nat)
    requires ws != cache && queryAt + headDim <= ws.Length && scratchAt + n <= ws.Length && outAt + headDim <= ws.Length
    requires Apart(queryAt, headDim, scratchAt, n) && Apart(scratchAt, n, outAt, headDim)
    requires forall k :: 0 <= k < n ==> keyAt + Times(k, stride) + headDim <= cache.Length
    requires forall k :: 0 <= k < n ==> valueAt + Times(k, stride) + headDim <= cache.Length
    modifies ws
    ensures ws[outAt..outAt + headDim] == AttendHead(fl, old(ws[queryAt..queryAt + headDim]),
      Blocks(cache[..], keyAt, stride, n, headDim), Blocks(cache[..], valueAt, stride, n, headDim))
    ensures OutsideBoth(old(ws[..]), ws[..], outAt, headDim, scratchAt, n)
  {
    var maximum := ScoreKeys(fl, ws, queryAt, headDim, cache, keyAt, stride, n, scratchAt);
    SoftmaxInPlace(fl, ws, scratchAt, n, maximum);
    WeighValues(fl, ws, scratchAt, n, cache, valueAt, stride, headDim, outAt);
  }

  // ---------- All heads of one query row ----------

  /** Where the buffers of one attention call lie. */
  datatype Layout = Layout(queryAt: nat, outAt: nat, scratchAt: nat, keyBase: nat, valueBase: nat, maximumContext: nat)

  /** The number of scratch floats: one row of logits per query head. */
  function ScratchSize(h: Heads, rows: nat, maximumContext: nat): nat {
    Times(Times(rows, h.query), maximumContext)
  }

  ghost predicate Fits<F>(ws: array<F>, cache: array<F>, h: Heads, rows: nat, context: nat, at: Layout) {
    && ws != cache && Grouped(h) && context <= at.maximumContext
    && at.queryAt + Times(rows, QueryWidth(h)) <= ws.Length
    && at.outAt + Times(rows, QueryWidth(h)) <= ws.Length
    && at.scratchAt + ScratchSize(h, rows, at.maximumContext) <= ws.Length
    && Apart(at.queryAt, Times(rows, QueryWidth(h)), at.outAt, Times(rows, QueryWidth(h)))
    && Apart(at.queryAt, Times(rows, QueryWidth(h)), at.scratchAt, ScratchSize(h, rows, at.maximumContext))
    && Apart(at.outAt, Times(rows, QueryWidth(h)), at.scratchAt, ScratchSize(h, rows, at.maximumContext))
    && at.keyBase + Times(context, KvWidth(h)) <= cache.Length
    && at.valueBase + Times(context, KvWidth(h)) <= cache.Length
  }

  lemma RowsTake<F>(s: seq<F>, at: nat, w: nat, m: nat, n: nat)
    requires m <= n && at + Times(n, w) <= |s|
    ensures Times(m, w) <= Times(n, w)
    ensures Rows(s, at, w, m) == Rows(s, at, w, n)[..m]
  {
    TimesMonotone(m, n, w);
  }

  /** The blocks of a head are that head of every row. */
  lemma BlocksAreHeads<F>(s: seq<F>, base: nat, width: nat, n: nat, head: nat, headDim: nat)
    requires base + Times(n, width) <= |s| && Times(head, headDim) + headDim <= width
    ensures forall k :: 0 <= k < n ==> base + Times(head, headDim) + Times(k, width) + headDim <= |s|
    ensures Blocks(s, base + Times(head, headDim), width, n, headDim)
      == HeadsOf(Rows(s, base, width, n), head, headDim, width)
  {
    hide Times;
    forall k | 0 <= k < n ensures base + Times(head, headDim) + Times(k, width) + headDim <= |s| {
      RowInside(k, n, width);
    }
    var blocks, heads := Blocks(s, base + Times(head, headDim), width, n, headDim),
      HeadsOf(Rows(s, base, width, n), head, headDim, width);
    forall k | 0 <= k < n ensures blocks[k] == heads[k] {
      RowInside(k, n, width);
      SubSlice(s, base + Times(k, width), width, Times(head, headDim), headDim);
    }
  }

  /** The scratch of a query head lies in the scratch region. */
  lemma ScratchInside(h: Heads, rows: nat, maximumContext: nat, t: nat, k: nat)
    requires t < rows && k < h.query
    ensures Times(Times(t, h.query) + k, maximumContext) + maximumContext <= ScratchSize(h, rows, maximumContext)
  {
    RowInside(t, rows, h.query);
    RowInside(Times(t, h.query) + k, Times(rows, h.query), maximumContext);
  }

  /** The address of a query head: the heads of a token are consecutive. */
  lemma HeadAddress(h: Heads, t: nat, k: nat)
    ensures Times(Times(t, h.query) + k, h.dim) == Times(t, QueryWidth(h)) + Times(k, h.dim)
  {
    TimesSum(Times(t, h.query), k, h.dim);
    TimesNested(t, h.query, h.dim);
  }

  lemma AttendHeadAt<F>(fl: Ops<F>, h: Heads, query: Row<F>, keys: seq<seq<F>>, values: seq<seq<F>>, k: nat)
    requires Grouped(h) && |query| == QueryWidth(h) && k < h.query
    requires IsMatrix(keys, |keys|, KvWidth(h)) && IsMatrix(values, |keys|, KvWidth(h))
    ensures KvHead(h, k) < h.kv && Times(KvHead(h, k), h.dim) + h.dim <= KvWidth(h)
      && Times(k, h.dim) + h.dim <= QueryWidth(h)
    ensures AttendHeads(fl, h, query, keys, values)[k] == AttendHead(fl, Head(query, k, h.dim),
      HeadsOf(keys, KvHead(h, k), h.dim, KvWidth(h)), HeadsOf(values, KvHead(h, k), h.dim, KvWidth(h)))
  {
    KvHeadInside(h, k);
  }

  ghost function QueryOf<F>(s: seq<F>, h: Heads, at: Layout, rows: nat, t: nat): (r: Row<F>)
    requires t < rows && at.queryAt + Times(rows, QueryWidth(h)) <= |s|
    ensures |r| == QueryWidth(h)
  {
    RowFits(at.queryAt, QueryWidth(h), rows, t, |s|);
    s[at.queryAt + Times(t, QueryWidth(h))..at.queryAt + Times(t, QueryWidth(h)) + QueryWidth(h)]
  }

  function OutRow(h: Heads, at: Layout, t: nat): nat { at.outAt + Times(t, QueryWidth(h)) }

  /** The regions that one head of one row reads and writes. */
  lemma HeadRegions<F>(ws: array<F>, cache: array<F>, h: Heads, rows: nat, n: nat, at: Layout, t: nat, k: nat)
    requires t < rows && k < h.query && Fits(ws, cache, h, rows, n, at)
    ensures Grouped(h) && ws != cache
    ensures var query, out := at.queryAt + Times(t, QueryWidth(h)) + Times(k, h.dim),
      OutRow(h, at, t) + Times(k, h.dim);
      var scratch, size := at.scratchAt + Times(Times(t, h.query) + k, at.maximumContext),
                           ScratchSize(h, rows, at.maximumContext);
      && query + h.dim <= ws.Length && scratch + n <= ws.Length && out + h.dim <= ws.Length
      && Apart(query, h.dim, scratch, n) && Apart(scratch, n, out, h.dim)
      && at.scratchAt <= scratch && scratch + n <= at.scratchAt + size
  {
    hide Times;
    RowFits(at.queryAt, QueryWidth(h), rows, t, ws.Length);
    RowFits(at.outAt, QueryWidth(h), rows, t, ws.Length);
    RowInside(k, h.query, h.dim);
    ScratchInside(h, rows, at.maximumContext, t, k);
  }

  /** What one head of one row is computed from. */
  lemma HeadOperands<F>(fl: Ops<F>, ws: array<F>, cache: array<F>, h: Heads, at: Layout, rows: nat, t: nat, n: nat,
                        k: nat, q: Row<F>, keys: seq<seq<F>>, values: seq<seq<F>>)
    requires t < rows && k < h.query && Fits(ws, cache, h, rows, n, at)
    requires q == QueryOf(ws[..], h, at, rows, t)
    requires keys == Rows(cache[..], at.keyBase, KvWidth(h), n)
    requires values == Rows(cache[..], at.valueBase, KvWidth(h), n)
    ensures Grouped(h)
    ensures at.queryAt + Times(t, QueryWidth(h)) + Times(k, h.dim) + h.dim <= ws.Length
    ensures forall i :: 0 <= i < n ==>
      at.keyBase + Times(KvHead(h, k), h.dim) + Times(i, KvWidth(h)) + h.dim <= cache.Length
    ensures forall i :: 0 <= i < n ==>
      at.valueBase + Times(KvHead(h, k), h.dim) + Times(i, KvWidth(h)) + h.dim <= cache.Length
    ensures var from, kvAt := at.queryAt + Times(t, QueryWidth(h)) + Times(k, h.dim), Times(KvHead(h, k), h.dim);
      AttendHeads(fl, h, q, keys, values)[k] == AttendHead(fl, ws[from..from + h.dim],
        Blocks(cache[..], at.keyBase + kvAt, KvWidth(h), n, h.dim),
        Blocks(cache[..], at.valueBase + kvAt, KvWidth(h), n, h.dim))
  {
    hide Rows, AttendHeads, AttendHead, Blocks, HeadsOf, Times, KvHead;
    var queryRow := at.queryAt + Times(t, QueryWidth(h));
    AttendHeadAt(fl, h, q, keys, values, k);
    RowFits(at.queryAt, QueryWidth(h), rows, t, ws.Length);
    BlocksAreHeads(cache[..], at.keyBase, KvWidth(h), n, KvHead(h, k), h.dim);
    BlocksAreHeads(cache[..], at.valueBase, KvWidth(h), n, KvHead(h, k), h.dim);
    SubSlice(ws[..], queryRow, QueryWidth(h), Times(k, h.dim), h.dim);
  }

  /** The key and value head that a query head shares. */
  method SharedHead(h: Heads, head: nat) returns (kvHead: nat)
    requires Grouped(h)
    ensures kvHead == KvHead(h, head)
  {
    GroupsPositive(h);
    var groups := h.query / h.kv;
    kvHead := head / groups;
  }

  /** Head `k` of query row `t` over the first `n` slots. */
  method AttendPlaced<F>(fl: Ops<F>, ws: array<F>, cache: array<F>, h: Heads, at: Layout, rows: nat, t: nat, n: nat,
                         k: nat, ghost q: Row<F>, ghost keys: seq<seq<F>>, ghost values: seq<seq<F>>)
    requires t < rows && k < h.query && Fits(ws, cache, h, rows, n, at)
    requires q == QueryOf(ws[..], h, at, rows, t)
    requires keys == Rows(cache[..], at.keyBase, KvWidth(h), n)
      && values == Rows(cache[..], at.valueBase, KvWidth(h), n)
    requires OutRow(h, at, t) + Times(k, h.dim) + h.dim <= ws.Length
    modifies ws
    ensures ws[OutRow(h, at, t) + Times(k, h.dim)..OutRow(h, at, t) + Times(k, h.dim) + h.dim]
      == AttendHeads(fl, h, q, keys, values)[k]
    ensures OutsideBoth(old(ws[..]), ws[..], OutRow(h, at, t) + Times(k, h.dim), h.dim,
                        at.scratchAt, ScratchSize(h, rows, at.maximumContext))
  {
    hide Rows, AttendHeads, AttendHead, Blocks, HeadsOf, Times, KvHead, OutsideBoth, ScratchSize, Fits, Grouped;
    var queryRow, outRow := at.queryAt + Times(t, QueryWidth(h)), at.outAt + Times(t, QueryWidth(h));
    HeadRegions(ws, cache, h, rows, n, at, t, k);
    HeadOperands(fl, ws, cache, h, at, rows, t, n, k, q, keys, values);
    var kvHead := SharedHead(h, k);
    ghost var s := ws[..];
    var scratch := at.scratchAt + Times(Times(t, h.query) + k, at.maximumContext);
    AttendOne(fl, ws, queryRow + Times(k, h.dim), h.dim, cache, at.keyBase + Times(kvHead, h.dim),
              at.valueBase + Times(kvHead, h.dim), KvWidth(h), n, scratch, outRow + Times(k, h.dim));
    WidenScratch(s, ws[..], outRow + Times(k, h.dim), h.dim, scratch, n, at.scratchAt,
                 ScratchSize(h, rows, at.maximumContext));
  }

  lemma WidenScratch<F>(s: seq<F>, t: seq<F>, a: nat, l: nat, b: nat, m: nat, c: nat, n: nat)
    requires OutsideBoth(s, t, a, l, b, m) && c <= b && b + m <= c + n
    ensures OutsideBoth(s, t, a, l, c, n)
  {
  }

  /** How the regions of one query row lie. */
  lemma RowRegions<F>(ws: array<F>, cache: array<F>, h: Heads, rows: nat, n: nat, at: Layout, t: nat, k: nat)
    requires t < rows && k < h.query && Fits(ws, cache, h, rows, n, at)
    ensures OutRow(h, at, t) + Times(k, h.dim) + h.dim <= ws.Length
    ensures Times(k, h.dim) + h.dim <= Times(h.query, h.dim)
    ensures OutRow(h, at, t) + Times(h.query, h.dim) <= ws.Length
    ensures Apart(OutRow(h, at, t), Times(h.query, h.dim), at.scratchAt, ScratchSize(h, rows, at.maximumContext))
    ensures at.queryAt + Times(t, QueryWidth(h)) + QueryWidth(h) <= ws.Length
    ensures Apart(at.queryAt + Times(t, QueryWidth(h)), QueryWidth(h), OutRow(h, at, t) + Times(k, h.dim), h.dim)
    ensures Apart(at.queryAt + Times(t, QueryWidth(h)), QueryWidth(h), at.scratchAt,
                  ScratchSize(h, rows, at.maximumContext))
  {
    RowFits(at.queryAt, QueryWidth(h), rows, t, ws.Length);
    RowFits(at.outAt, QueryWidth(h), rows, t, ws.Length);
    RowInside(k, h.query, h.dim);
  }

  /** One more head of query row `t` over the first `n` slots. */
  method AttendNext<F>(fl: Ops<F>, ws: array<F>, cache: array<F>, h: Heads, at: Layout, rows: nat, t: nat, n: nat,
                       k: nat, ghost before: seq<F>, ghost q: Row<F>, ghost keys: seq<seq<F>>,
                       ghost values: seq<seq<F>>)
    requires t < rows && k < h.query && Fits(ws, cache, h, rows, n, at)
    requires q == QueryOf(ws[..], h, at, rows, t)
    requires keys == Rows(cache[..], at.keyBase, KvWidth(h), n)
      && values == Rows(cache[..], at.valueBase, KvWidth(h), n)
    requires RowsDone(before, ws[..], OutRow(h, at, t), h.dim, AttendHeads(fl, h, q, keys, values), k,
                      at.scratchAt, ScratchSize(h, rows, at.maximumContext))
    modifies ws
    ensures q == QueryOf(ws[..], h, at, rows, t)
    ensures RowsDone(before, ws[..], OutRow(h, at, t), h.dim, AttendHeads(fl, h, q, keys, values), k + 1,
                     at.scratchAt, ScratchSize(h, rows, at.maximumContext))
  {
    hide RowsDone, Rows, AttendHeads, Times, OutsideBoth, Apart, OutRow, ScratchSize;
    RowRegions(ws, cache, h, rows, n, at, t, k);
    ghost var s, ys := ws[..], AttendHeads(fl, h, q, keys, values);
    ghost var b, m := at.scratchAt, ScratchSize(h, rows, at.maximumContext);
    AttendPlaced(fl, ws, cache, h, at, rows, t, n, k, q, keys, values);
    SliceStableBoth(s, ws[..], at.queryAt + Times(t, QueryWidth(h)), QueryWidth(h), OutRow(h, at, t) + Times(k, h.dim),
                    h.dim, b, m);
    RowsStep(before, s, ws[..], OutRow(h, at, t), h.dim, ys, k, b, m);
  }

  /** All heads of query row `t`. */
  method AttendQuery<F>(fl: Ops<F>, ws: array<F>, cache: array<F>, h: Heads, at: Layout, rows: nat, t: nat, n: nat)
    requires t < rows && Fits(ws, cache, h, rows, n, at)
    modifies ws
    ensures OutRow(h, at, t) + QueryWidth(h) <= ws.Length
    ensures ws[OutRow(h, at, t)..OutRow(h, at, t) + QueryWidth(h)]
      == AttendRow(fl, h, QueryOf(old(ws[..]), h, at, rows, t),
      Rows(cache[..], at.keyBase, KvWidth(h), n), Rows(cache[..], at.valueBase, KvWidth(h), n))
    ensures OutsideBoth(old(ws[..]), ws[..], OutRow(h, at, t), QueryWidth(h), at.scratchAt,
                        ScratchSize(h, rows, at.maximumContext))
  {
    hide AttendHeads, Rows, ScratchSize;
    RowFits(at.outAt, QueryWidth(h), rows, t, ws.Length);
    ghost var q, before := QueryOf(ws[..], h, at, rows, t), ws[..];
    ghost var keys, values := Rows(cache[..], at.keyBase, KvWidth(h), n), Rows(cache[..], at.valueBase, KvWidth(h), n);
    ghost var ys := AttendHeads(fl, h, q, keys, values);
    ghost var b, m := at.scratchAt, ScratchSize(h, rows, at.maximumContext);
    RowsStart(before, OutRow(h, at, t), h.dim, ys, b, m);
    for k := 0 to h.query
      invariant q == QueryOf(ws[..], h, at, rows, t)
      invariant RowsDone(before, ws[..], OutRow(h, at, t), h.dim, ys, k, b, m)
    {
      AttendNext(fl, ws, cache, h, at, rows, t, n, k, before, q, keys, values);
    }
    RowsFinish(before, ws[..], OutRow(h, at, t), h.dim, ys, b, m);
    RowsFill(ws[..], OutRow(h, at, t), h.dim, h.query);
  }

  // ---------- All query rows ----------

  lemma AttendAt<F>(fl: Ops<F>, h: Heads, queries: seq<seq<F>>, start: nat, keys: seq<seq<F>>, values: seq<seq<F>>,
                    t: nat)
    requires Grouped(h) && IsMatrix(queries, |queries|, QueryWidth(h)) && t < |queries|
    requires IsMatrix(keys, start + |queries|, KvWidth(h)) && IsMatrix(values, start + |queries|, KvWidth(h))
    ensures AttendRows(fl, h, queries, start, keys, values)[t]
      == AttendRow(fl, h, queries[t], keys[..start + t + 1], values[..start + t + 1])
  {
  }

  lemma FewerSlots<F>(ws: array<F>, cache: array<F>, h: Heads, rows: nat, n: nat, context: nat, at: Layout)
    requires n <= context && Fits(ws, cache, h, rows, context, at)
    ensures Fits(ws, cache, h, rows, n, at)
  {
    TimesMonotone(n, context, KvWidth(h));
  }

  method AttendRowNext<F>(fl: Ops<F>, ws: array<F>, cache: array<F>, h: Heads, at: Layout, rows: nat, start: nat,
                          t: nat, ghost before: seq<F>, ghost qs: seq<seq<F>>, ghost keys: seq<seq<F>>,
                          ghost values: seq<seq<F>>)
    requires t < rows && Fits(ws, cache, h, rows, start + rows, at)
    requires qs == Rows(ws[..], at.queryAt, QueryWidth(h), rows)
    requires keys == Rows(cache[..], at.keyBase, KvWidth(h), start + rows)
    requires values == Rows(cache[..], at.valueBase, KvWidth(h), start + rows)
    requires RowsDone(before, ws[..], at.outAt, QueryWidth(h), AttendRows(fl, h, qs, start, keys, values), t,
                      at.scratchAt, ScratchSize(h, rows, at.maximumContext))
    modifies ws
    ensures qs == Rows(ws[..], at.queryAt, QueryWidth(h), rows)
    ensures RowsDone(before, ws[..], at.outAt, QueryWidth(h), AttendRows(fl, h, qs, start, keys, values), t + 1,
                     at.scratchAt, ScratchSize(h, rows, at.maximumContext))
  {
    hide RowsDone, Rows, AttendRows, AttendRow, Times, OutsideBoth, ScratchSize;
    ghost var s, ys := ws[..], AttendRows(fl, h, qs, start, keys, values);
    ghost var b, m := at.scratchAt, ScratchSize(h, rows, at.maximumContext);
    FewerSlots(ws, cache, h, rows, start + t + 1, start + rows, at);
    RowsTake(cache[..], at.keyBase, KvWidth(h), start + t + 1, start + rows);
    RowsTake(cache[..], at.valueBase, KvWidth(h), start + t + 1, start + rows);
    RowOf(s, at.queryAt, QueryWidth(h), rows, t);
    AttendAt(fl, h, qs, start, keys, values, t);
    AttendQuery(fl, ws, cache, h, at, rows, t, start + t + 1);
    RowsApart(at.queryAt, QueryWidth(h), at.outAt, QueryWidth(h), rows, t);
    RowsStableBoth(s, ws[..], at.queryAt, QueryWidth(h), rows, OutRow(h, at, t), QueryWidth(h), b, m);
    RowsStep(before, s, ws[..], at.outAt, QueryWidth(h), ys, t, b, m);
  }

  /** Causal attention: query row `t` sees the slots up to position `start + t`. */
  method Attention<F>(fl: Ops<F>, ws: array<F>, cache: array<F>, h: Heads, at: Layout, rows: nat, start: nat)
    requires Fits(ws, cache, h, rows, start + rows, at)
    modifies ws
    ensures Rows(ws[..], at.outAt, QueryWidth(h), rows)
      == AttendRows(fl, h, old(Rows(ws[..], at.queryAt, QueryWidth(h), rows)), start,
      Rows(cache[..], at.keyBase, KvWidth(h), start + rows), Rows(cache[..], at.valueBase, KvWidth(h), start + rows))
    ensures OutsideBoth(old(ws[..]), ws[..], at.outAt, Times(rows, QueryWidth(h)), at.scratchAt,
                        ScratchSize(h, rows, at.maximumContext))
  {
    hide AttendRows, Rows, ScratchSize;
    ghost var qs, before := Rows(ws[..], at.queryAt, QueryWidth(h), rows), ws[..];
    ghost var keys := Rows(cache[..], at.keyBase, KvWidth(h), start + rows);
    ghost var values := Rows(cache[..], at.valueBase, KvWidth(h), start + rows);
    ghost var ys := AttendRows(fl, h, qs, start, keys, values);
    ghost var b, m := at.scratchAt, ScratchSize(h, rows, at.maximumContext);
    RowsStart(before, at.outAt, QueryWidth(h), ys, b, m);
    for t := 0 to rows
      invariant qs == Rows(ws[..], at.queryAt, QueryWidth(h), rows)
      invariant RowsDone(before, ws[..], at.outAt, QueryWidth(h), ys, t, b, m)
    {
      AttendRowNext(fl, ws, cache, h, at, rows, start, t, before, qs, keys, values);
    }
    RowsFinish(before, ws[..], at.outAt, QueryWidth(h), ys, b, m);
  }
}
