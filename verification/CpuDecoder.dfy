/** One decoder layer over the workspace, the hidden rows and the key/value cache. */
module CpuDecoder {
  import opened Core
  import opened DecoderRows
  import opened DecoderModel
  import opened DecoderMemory
  import opened CpuOperators
  import CpuAttention

  // ---------- Element-wise loops ----------

  ghost function AddRows<F>(fl: Ops<F>, xs: seq<seq<F>>, ys: seq<seq<F>>, width: nat): (r: seq<seq<F>>)
    requires IsMatrix(xs, |xs|, width) && IsMatrix(ys, |xs|, width)
    ensures IsMatrix(r, |xs|, width)
  {
    seq(|xs|, i requires 0 <= i < |xs| => AddRow(fl, xs[i], ys[i]))
  }

  ghost function GateRows<F>(fl: Ops<F>, xs: seq<seq<F>>, ys: seq<seq<F>>, width: nat): (r: seq<seq<F>>)
    requires IsMatrix(xs, |xs|, width) && IsMatrix(ys, |xs|, width)
    ensures IsMatrix(r, |xs|, width)
  {
    seq(|xs|, i requires 0 <= i < |xs| => GateRow(fl, xs[i], ys[i]))
  }

  /** Add a region of the workspace to the hidden rows. */
  method AddInPlace<F>(fl: Ops<F>, hidden: array<F>, ws: array<F>, at: nat, rows: nat, width: nat)
    requires hidden != ws && Times(rows, width) <= hidden.Length && at + Times(rows, width) <= ws.Length
    modifies hidden
    ensures Rows(hidden[..], 0, width, rows)
      == AddRows(fl, old(Rows(hidden[..], 0, width, rows)), Rows(ws[..], at, width, rows), width)
    ensures Outside(old(hidden[..]), hidden[..], 0, Times(rows, width))
  {
    ghost var before := hidden[..];
    var count := Times(rows, width);
    for i := 0 to count
      invariant forall k :: 0 <= k < i ==> hidden[k] == fl.add(before[k], ws[..][at + k])
      invariant forall k :: i <= k < hidden.Length ==> hidden[k] == before[k]
    {
      hidden[i] := fl.add(hidden[i], ws[at + i]);
    }
    AddedRows(fl, before, hidden[..], ws[..], at, rows, width);
  }

  lemma {:induction false} AddedRows<F>(fl: Ops<F>, s: seq<F>, t: seq<F>, u: seq<F>, at: nat, rows: nat, width: nat)
    requires Times(rows, width) <= |s| == |t| && at + Times(rows, width) <= |u|
    requires forall k :: 0 <= k < Times(rows, width) ==> t[k] == fl.add(s[k], u[at + k])
    ensures Rows(t, 0, width, rows) == AddRows(fl, Rows(s, 0, width, rows), Rows(u, at, width, rows), width)
  {
    var added, sums := Rows(t, 0, width, rows), AddRows(fl, Rows(s, 0, width, rows), Rows(u, at, width, rows), width);
    forall r | 0 <= r < rows ensures added[r] == sums[r] {
      RowInside(r, rows, width);
      AddedRow(fl, s, t, u, Times(r, width), at, width);
    }
  }

  lemma AddedRow<F>(fl: Ops<F>, s: seq<F>, t: seq<F>, u: seq<F>, from: nat, at: nat, width: nat)
    requires from + width <= |s| == |t| && at + from + width <= |u|
    requires forall k :: from <= k < from + width ==> t[k] == fl.add(s[k], u[at + k])
    ensures t[from..from + width] == AddRow(fl, s[from..from + width], u[at + from..at + from + width])
  {
    var row, sum := t[from..from + width], AddRow(fl, s[from..from + width], u[at + from..at + from + width]);
    forall c | 0 <= c < width ensures row[c] == sum[c] {
      assert t[from + c] == fl.add(s[from + c], u[at + (from + c)]);
    }
  }

  /** The gated activation of the gate region by the up region, in place. */
  method GateInPlace<F>(fl: Ops<F>, ws: array<F>, gateAt: nat, upAt: nat, rows: nat, width: nat)
    requires gateAt + Times(rows, width) <= ws.Length && upAt + Times(rows, width) <= ws.Length
    requires Apart(gateAt, Times(rows, width), upAt, Times(rows, width))
    modifies ws
    ensures Rows(ws[..], gateAt, width, rows)
      == GateRows(fl, old(Rows(ws[..], gateAt, width, rows)), old(Rows(ws[..], upAt, width, rows)), width)
    ensures Outside(old(ws[..]), ws[..], gateAt, Times(rows, width))
  {
    ghost var before := ws[..];
    var count := Times(rows, width);
    for i := 0 to count
      invariant forall k :: gateAt <= k < gateAt + i ==> ws[k] == Gated(fl, before[k], before[upAt + (k - gateAt)])
      invariant forall k :: 0 <= k < ws.Length && !(gateAt <= k < gateAt + i) ==> ws[k] == before[k]
    {
      var silu := fl.div(ws[gateAt + i], fl.add(fl.one, fl.exp(fl.neg(ws[gateAt + i]))));
      ws[gateAt + i] := fl.mul(silu, ws[upAt + i]);
    }
    GatedRows(fl, before, ws[..], gateAt, upAt, rows, width);
  }

  lemma GatedRows<F>(fl: Ops<F>, s: seq<F>, t: seq<F>, gateAt: nat, upAt: nat, rows: nat, width: nat)
    requires gateAt + Times(rows, width) <= |s| == |t| && upAt + Times(rows, width) <= |s|
    requires forall k :: gateAt <= k < gateAt + Times(rows, width) ==> t[k] == Gated(fl, s[k], s[upAt + (k - gateAt)])
    ensures Rows(t, gateAt, width, rows)
      == GateRows(fl, Rows(s, gateAt, width, rows), Rows(s, upAt, width, rows), width)
  {
    hide Gated;
    var gated, ys := Rows(t, gateAt, width, rows),
      GateRows(fl, Rows(s, gateAt, width, rows), Rows(s, upAt, width, rows), width);
    forall r | 0 <= r < rows ensures gated[r] == ys[r] {
      RowInside(r, rows, width);
      GatedRow(fl, s, t, Times(r, width), gateAt, upAt, width);
    }
  }

  lemma GatedRow<F>(fl: Ops<F>, s: seq<F>, t: seq<F>, from: nat, gateAt: nat, upAt: nat, width: nat)
    requires gateAt + from + width <= |s| == |t| && upAt + from + width <= |s|
    requires forall k :: gateAt + from <= k < gateAt + from + width ==> t[k] == Gated(fl, s[k], s[upAt + (k - gateAt)])
    ensures t[gateAt + from..gateAt + from + width]
      == GateRow(fl, s[gateAt + from..gateAt + from + width], s[upAt + from..upAt + from + width])
  {
    hide Gated;
    var row := t[gateAt + from..gateAt + from + width];
    var y := GateRow(fl, s[gateAt + from..gateAt + from + width], s[upAt + from..upAt + from + width]);
    forall c | 0 <= c < width ensures row[c] == y[c] {
      var k := gateAt + from + c;
      assert t[k] == Gated(fl, s[k], s[upAt + (k - gateAt)]);
    }
  }

  // ---------- Validation ----------

  ghost predicate SpecUsable<F>(s: Spec<F>) {
    && s.hiddenSize != 0 && s.intermediateSize != 0 && s.heads.query != 0 && s.heads.kv != 0 && s.heads.dim != 0
    && s.heads.query % s.heads.kv == 0 && QueryWidth(s.heads) == s.hiddenSize && s.maxPositions != 0
  }

  /** The floats that one layer needs: the larger of its two phases. */
  function RequiredWorkspace<F>(s: Spec<F>, rows: nat, maximumContext: nat): nat {
    var rowHidden, rowKv, rowIntermediate := Times(rows, s.hiddenSize), Times(rows, KvWidth(s.heads)),
      Times(rows, s.intermediateSize);
    var attention := 3 * rowHidden + 2 * rowKv + CpuAttention.ScratchSize(s.heads, rows, maximumContext);
    var mlp := 2 * rowIntermediate + rowHidden;
    if attention < mlp then mlp else attention
  }

  /** The same number by products: three hidden buffers, keys, values and logits, or two gates and a hidden buffer. */
  lemma WorkspaceProducts<F>(s: Spec<F>, rows: nat, maximumContext: nat)
    ensures var attention := 3 * (rows * s.hiddenSize) + 2 * (rows * (s.heads.kv * s.heads.dim))
                             + rows * s.heads.query * maximumContext;
      var mlp := 2 * (rows * s.intermediateSize) + rows * s.hiddenSize;
      RequiredWorkspace(s, rows, maximumContext) == if attention < mlp then mlp else attention
  {
    TimesIsProduct(rows, s.hiddenSize);
    TimesIsProduct(s.heads.kv, s.heads.dim);
    TimesIsProduct(rows, s.heads.kv * s.heads.dim);
    TimesIsProduct(rows, s.intermediateSize);
    TimesIsProduct(rows, s.heads.query);
    TimesIsProduct(rows * s.heads.query, maximumContext);
  }

  /** Consecutive positions from `start` on, all below the model's limit. */
  ghost predicate PositionsFrom(positions: seq<nat>, start: nat, limit: nat) {
    forall t :: 0 <= t < |positions| ==> positions[t] == start + t && positions[t] < limit
  }

  ghost predicate LayerAccepts<F>(fl: Ops<F>, s: Spec<F>, w: LayerWeights<F>, rows: nat, positions: seq<nat>,
                                  context: nat, maximumContext: nat, capacity: nat)
  {
    && LayerWellFormed(fl, s, w, rows, positions, context, maximumContext)
    && RequiredWorkspace(s, rows, maximumContext) <= capacity
  }

  ghost predicate LayerWellFormed<F>(fl: Ops<F>, s: Spec<F>, w: LayerWeights<F>, rows: nat, positions: seq<nat>,
                                     context: nat, maximumContext: nat)
  {
    && SpecUsable(s) && ConstantsUsable(fl, s)
    && rows > 0 && maximumContext > 0 && |positions| == rows
    && rows <= context <= maximumContext
    && PositionsFrom(positions, context - rows, s.maxPositions)
    && WeightsShaped(w, s)
  }

  method ValidateLayer<F>(fl: Ops<F>, s: Spec<F>, w: LayerWeights<F>, rows: nat, positions: seq<nat>, context: nat,
                          maximumContext: nat, capacity: nat)
    returns (status: Status)
    ensures status == OK <==> LayerAccepts(fl, s, w, rows, positions, context, maximumContext, capacity)
    ensures status == Failure(InvalidModel) <==> !SpecUsable(s) || !ConstantsUsable(fl, s)
    ensures status == Failure(InsufficientMemory) <==>
      && LayerWellFormed(fl, s, w, rows, positions, context, maximumContext)
      && RequiredWorkspace(s, rows, maximumContext) > capacity
  {
    if s.hiddenSize == 0 || s.intermediateSize == 0 || s.heads.query == 0 || s.heads.kv == 0 || s.heads.dim == 0
      || s.heads.query % s.heads.kv != 0 || Times(s.heads.query, s.heads.dim) != s.hiddenSize || s.maxPositions == 0
    {
      return Failure(InvalidModel);
    }
    if !fl.finite(s.epsilon) || !fl.less(fl.zero, s.epsilon) || !fl.finite(s.theta) || !fl.less(fl.zero, s.theta) {
      return Failure(InvalidModel);
    }
    if rows == 0 || maximumContext == 0 || |positions| != rows {
      return Failure(InvalidShape);
    }
    if context < rows || context > maximumContext {
      return Failure(InvalidArgument);
    }
    for t := 0 to rows
      invariant PositionsFrom(positions[..t], context - rows, s.maxPositions)
    {
      if positions[t] != context - rows + t || positions[t] >= s.maxPositions {
        return Failure(InvalidArgument);
      }
    }
    assert positions[..rows] == positions;
    var kvWidth := Times(s.heads.kv, s.heads.dim);
    if |w.inputNorm| != s.hiddenSize || |w.postNorm| != s.hiddenSize
      || !IsMatrix(w.query, s.hiddenSize, s.hiddenSize) || !IsMatrix(w.key, kvWidth, s.hiddenSize)
      || !IsMatrix(w.value, kvWidth, s.hiddenSize) || !IsMatrix(w.output, s.hiddenSize, s.hiddenSize)
      || !IsMatrix(w.gate, s.intermediateSize, s.hiddenSize) || !IsMatrix(w.up, s.intermediateSize, s.hiddenSize)
      || !IsMatrix(w.down, s.hiddenSize, s.intermediateSize)
    {
      return Failure(InvalidShape);
    }
    status := if RequiredWorkspace(s, rows, maximumContext) > capacity then Failure(InsufficientMemory) else OK;
  }

  /** The one failure behind the validation: a layer with an odd head dimension passes it. */
  lemma OddDimensionPasses<F>(fl: Ops<F>, x: F)
    requires fl.finite(x) && fl.less(fl.zero, x)
    ensures var s, m := Spec(1, 1, 1, Heads(1, 1, 1), 1, 1, x, x), [[x]];
      && LayerAccepts(fl, s, LayerWeights([x], m, m, m, m, [x], m, m, m), 1, [0], 1, 1, 6)
      && s.heads.dim % 2 == 1
  {
    TimesIsProduct(1, 1);
  }

  // ---------- What the phases compute ----------

  /** The keys of `n` slots of a cache with room for `maximumContext`. */
  ghost function Slots<F>(s: seq<F>, base: nat, width: nat, n: nat, maximumContext: nat): (r: seq<seq<F>>)
    requires n <= maximumContext && base + Times(maximumContext, width) <= |s|
    ensures IsMatrix(r, n, width)
  {
    TimesMonotone(n, maximumContext, width);
    Rows(s, base, width, n)
  }

  /** The row at a position after attention to the keys and values up to it. */
  ghost function AfterRow<F>(fl: Ops<F>, s: Spec<F>, w: LayerWeights<F>, x: Row<F>, position: nat, keys: seq<seq<F>>,
                             values: seq<seq<F>>): (r: Row<F>)
    requires SpecValid(s) && WeightsShaped(w, s) && |x| == s.hiddenSize && position < |keys|
    requires IsMatrix(keys, |keys|, KvWidth(s.heads)) && IsMatrix(values, |keys|, KvWidth(s.heads))
    ensures |r| == s.hiddenSize
  {
    AfterAttention(fl, w, s, x,
      AttendRow(fl, s.heads, QueryRow(fl, s, w, x, position), keys[..position + 1], values[..position + 1]))
  }

  ghost function AfterRows<F>(fl: Ops<F>, s: Spec<F>, w: LayerWeights<F>, xs: seq<seq<F>>, start: nat,
                              keys: seq<seq<F>>, values: seq<seq<F>>): (r: seq<seq<F>>)
    requires SpecValid(s) && WeightsShaped(w, s) && IsMatrix(xs, |xs|, s.hiddenSize)
    requires IsMatrix(keys, start + |xs|, KvWidth(s.heads)) && IsMatrix(values, start + |xs|, KvWidth(s.heads))
    ensures IsMatrix(r, |xs|, s.hiddenSize)
  {
    seq(|xs|, i requires 0 <= i < |xs| => AfterRow(fl, s, w, xs[i], start + i, keys, values))
  }

  ghost function QueryRows<F>(fl: Ops<F>, s: Spec<F>, w: LayerWeights<F>, xs: seq<seq<F>>, start: nat): (r: seq<seq<F>>)
    requires SpecValid(s) && WeightsShaped(w, s) && IsMatrix(xs, |xs|, s.hiddenSize)
    ensures IsMatrix(r, |xs|, s.hiddenSize)
  {
    seq(|xs|, i requires 0 <= i < |xs| => QueryRow(fl, s, w, xs[i], start + i))
  }

  ghost function MlpRows<F>(fl: Ops<F>, s: Spec<F>, w: LayerWeights<F>, xs: seq<seq<F>>): (r: seq<seq<F>>)
    requires SpecValid(s) && WeightsShaped(w, s) && IsMatrix(xs, |xs|, s.hiddenSize)
    ensures IsMatrix(r, |xs|, s.hiddenSize)
  {
    seq(|xs|, i requires 0 <= i < |xs| => MlpRow(fl, w, s, xs[i]))
  }

  /** The projections, operator by operator, are those of the rows. */
  lemma Projections<F>(fl: Ops<F>, s: Spec<F>, w: LayerWeights<F>, xs: seq<seq<F>>, start: nat, positions: seq<nat>)
    requires SpecValid(s) && WeightsShaped(w, s) && IsMatrix(xs, |positions|, s.hiddenSize)
    requires PositionsFrom(positions, start, s.maxPositions)
    ensures QueryRows(fl, s, w, xs, start) == RopeRows(fl,
      LinearRows(fl, RmsRows(fl, xs, w.inputNorm, s.epsilon), s.hiddenSize, w.query), s.heads.query, s.heads.dim,
        positions, s.theta)
    ensures KeyRows(fl, s, w, xs, start) == RopeRows(fl,
      LinearRows(fl, RmsRows(fl, xs, w.inputNorm, s.epsilon), s.hiddenSize, w.key), s.heads.kv, s.heads.dim, positions,
        s.theta)
    ensures ValueRows(fl, s, w, xs) == LinearRows(fl, RmsRows(fl, xs, w.inputNorm, s.epsilon), s.hiddenSize, w.value)
  {
    hide RopeRow, LinearRow, RmsRow;
  }

  lemma AfterRowsCompose<F>(fl: Ops<F>, s: Spec<F>, w: LayerWeights<F>, xs: seq<seq<F>>, start: nat, keys: seq<seq<F>>,
                            values: seq<seq<F>>)
    requires SpecValid(s) && WeightsShaped(w, s) && IsMatrix(xs, |xs|, s.hiddenSize)
    requires IsMatrix(keys, start + |xs|, KvWidth(s.heads)) && IsMatrix(values, start + |xs|, KvWidth(s.heads))
    ensures AfterRows(fl, s, w, xs, start, keys, values) == AddRows(fl, xs,
      LinearRows(fl, AttendRows(fl, s.heads, QueryRows(fl, s, w, xs, start), start, keys, values), s.hiddenSize,
                 w.output), s.hiddenSize)
  {
    hide AttendRow, LinearRow, AddRow, QueryRow;
  }

  lemma MlpRowsCompose<F>(fl: Ops<F>, s: Spec<F>, w: LayerWeights<F>, xs: seq<seq<F>>)
    requires SpecValid(s) && WeightsShaped(w, s) && IsMatrix(xs, |xs|, s.hiddenSize)
    ensures
      var ns := RmsRows(fl, xs, w.postNorm, s.epsilon);
      MlpRows(fl, s, w, xs) == AddRows(fl, xs,
        LinearRows(fl,
                   GateRows(fl, LinearRows(fl, ns, s.hiddenSize, w.gate), LinearRows(fl, ns, s.hiddenSize, w.up),
                            s.intermediateSize),
                   s.intermediateSize, w.down), s.hiddenSize)
  {
    hide RmsRow, LinearRow, AddRow, GateRow;
  }

  lemma LayerRowsCompose<F>(fl: Ops<F>, s: Spec<F>, w: LayerWeights<F>, xs: seq<seq<F>>, start: nat, keys: seq<seq<F>>,
                            values: seq<seq<F>>)
    requires SpecValid(s) && WeightsShaped(w, s) && IsMatrix(xs, |xs|, s.hiddenSize)
    requires IsMatrix(keys, start + |xs|, KvWidth(s.heads)) && IsMatrix(values, start + |xs|, KvWidth(s.heads))
    ensures LayerRows(fl, s, w, xs, start, keys, values)
      == MlpRows(fl, s, w, AfterRows(fl, s, w, xs, start, keys, values))
  {
    hide AttendRow, QueryRow, MlpRow, AfterAttention;
  }

  // ---------- The attention phase ----------

  /** Normalise the hidden rows and project them to queries, keys and values. */
  method Project<F>(fl: Ops<F>, s: Spec<F>, w: LayerWeights<F>, hidden: array<F>, rows: nat, ws: array<F>,
                    queryAt: nat, keyAt: nat, valueAt: nat)
    requires hidden != ws && WeightsShaped(w, s)
    requires Times(rows, s.hiddenSize) <= hidden.Length && Times(rows, s.hiddenSize) <= queryAt
    requires queryAt + Times(rows, s.hiddenSize) <= keyAt && keyAt + Times(rows, KvWidth(s.heads)) <= valueAt
    requires valueAt + Times(rows, KvWidth(s.heads)) <= ws.Length
    modifies ws
    ensures
      var ns := RmsRows(fl, Rows(hidden[..], 0, s.hiddenSize, rows), w.inputNorm, s.epsilon);
      && Rows(ws[..], queryAt, s.hiddenSize, rows) == LinearRows(fl, ns, s.hiddenSize, w.query)
      && Rows(ws[..], keyAt, KvWidth(s.heads), rows) == LinearRows(fl, ns, s.hiddenSize, w.key)
      && Rows(ws[..], valueAt, KvWidth(s.heads), rows) == LinearRows(fl, ns, s.hiddenSize, w.value)
  {
    hide Rows, LinearRows, RmsRows, Outside, Times;
    var hs, kw := s.hiddenSize, KvWidth(s.heads);
    ghost var n, nk := Times(rows, hs), Times(rows, kw);
    RmsNorm(fl, hidden, 0, rows, w.inputNorm, s.epsilon, ws, 0);
    ghost var s0 := ws[..];
    Linear(fl, ws, 0, rows, hs, w.query, ws, queryAt);
    ghost var s1 := ws[..];
    RowsStable(s0, s1, 0, hs, rows, queryAt, n);
    Linear(fl, ws, 0, rows, hs, w.key, ws, keyAt);
    ghost var s2 := ws[..];
    RowsStable(s1, s2, 0, hs, rows, keyAt, nk);
    RowsStable(s1, s2, queryAt, hs, rows, keyAt, nk);
    Linear(fl, ws, 0, rows, hs, w.value, ws, valueAt);
    RowsStable(s2, ws[..], queryAt, hs, rows, valueAt, nk);
    RowsStable(s2, ws[..], keyAt, kw, rows, valueAt, nk);
  }

  /** The keys and values of the rows stand behind those that were there; nothing else has changed. */
  ghost predicate CacheExtended<F>(fl: Ops<F>, s: Spec<F>, w: LayerWeights<F>, xs: seq<seq<F>>, start: nat,
                                   before: seq<F>, cache: seq<F>, keyBase: nat, valueBase: nat, maximumContext: nat)
    requires SpecValid(s) && WeightsShaped(w, s) && IsMatrix(xs, |xs|, s.hiddenSize) && start + |xs| <= maximumContext
    requires keyBase + Times(maximumContext, KvWidth(s.heads)) <= |before| == |cache|
    requires valueBase + Times(maximumContext, KvWidth(s.heads)) <= |before|
  {
    var kw := KvWidth(s.heads);
    && Slots(cache, keyBase, kw, maximumContext, maximumContext)
         == Spliced(Slots(before, keyBase, kw, maximumContext, maximumContext), start, KeyRows(fl, s, w, xs, start))
    && Slots(cache, valueBase, kw, maximumContext, maximumContext)
         == Spliced(Slots(before, valueBase, kw, maximumContext, maximumContext), start, ValueRows(fl, s, w, xs))
    && OutsideBoth(before, cache, keyBase, Times(maximumContext, kw), valueBase, Times(maximumContext, kw))
  }

  /** The slots with a stretch of them, from `start` on, replaced by rows. */
  ghost function Spliced<F>(slots: seq<seq<F>>, start: nat, rows: seq<seq<F>>): (r: seq<seq<F>>)
    requires start + |rows| <= |slots|
    ensures |r| == |slots|
  {
    slots[..start] + rows + slots[start + |rows|..]
  }

  /** The slots up to the last new one. */
  lemma ExtendedSlots<F>(before: seq<F>, cache: seq<F>, base: nat, kw: nat, maximumContext: nat, start: nat,
                         rows: seq<seq<F>>)
    requires base + Times(maximumContext, kw) <= |before| == |cache| && start + |rows| <= maximumContext
    requires Slots(cache, base, kw, maximumContext, maximumContext)
      == Spliced(Slots(before, base, kw, maximumContext, maximumContext), start, rows)
    ensures Slots(cache, base, kw, start + |rows|, maximumContext)
      == Slots(before, base, kw, start, maximumContext) + rows
  {
    hide Rows;
    CpuAttention.RowsTake(cache, base, kw, start + |rows|, maximumContext);
    CpuAttention.RowsTake(before, base, kw, start, maximumContext);
  }

  /** Rotate the projected queries and keys. */
  method Rotate<F>(fl: Ops<F>, s: Spec<F>, w: LayerWeights<F>, ghost xs: seq<seq<F>>, start: nat, positions: seq<nat>,
                   ws: array<F>, queryAt: nat, keyAt: nat, valueAt: nat)
    requires SpecValid(s) && WeightsShaped(w, s) && IsMatrix(xs, |xs|, s.hiddenSize) && |positions| == |xs|
    requires PositionsFrom(positions, start, s.maxPositions)
    requires queryAt + Times(|positions|, s.hiddenSize) <= keyAt
      && keyAt + Times(|positions|, KvWidth(s.heads)) <= valueAt
    requires valueAt + Times(|positions|, KvWidth(s.heads)) <= ws.Length
    requires Rows(ws[..], queryAt, s.hiddenSize, |xs|)
      == LinearRows(fl, RmsRows(fl, xs, w.inputNorm, s.epsilon), s.hiddenSize, w.query)
    requires Rows(ws[..], keyAt, KvWidth(s.heads), |xs|)
      == LinearRows(fl, RmsRows(fl, xs, w.inputNorm, s.epsilon), s.hiddenSize, w.key)
    requires Rows(ws[..], valueAt, KvWidth(s.heads), |xs|)
      == LinearRows(fl, RmsRows(fl, xs, w.inputNorm, s.epsilon), s.hiddenSize, w.value)
    modifies ws
    ensures Rows(ws[..], queryAt, s.hiddenSize, |xs|) == QueryRows(fl, s, w, xs, start)
    ensures Rows(ws[..], keyAt, KvWidth(s.heads), |xs|) == KeyRows(fl, s, w, xs, start)
    ensures Rows(ws[..], valueAt, KvWidth(s.heads), |xs|) == ValueRows(fl, s, w, xs)
  {
    hide Rows, LinearRows, RmsRows, RopeRows, QueryRows, KeyRows, ValueRows, Times;
    ghost var before := ws[..];
    var rows := |positions|;
    ApplyRope(fl, ws, queryAt, keyAt, rows, s.heads, positions, s.theta);
    RowsStableBoth(before, ws[..], valueAt, KvWidth(s.heads), rows, queryAt, Times(rows, s.hiddenSize), keyAt,
                   Times(rows, KvWidth(s.heads)));
    Projections(fl, s, w, xs, start, positions);
  }

  lemma StoredIsSpliced<F>(slots: seq<seq<F>>, positions: seq<nat>, rows: seq<seq<F>>, start: nat)
    requires |positions| == |rows| && start + |rows| <= |slots|
    requires forall t :: 0 <= t < |positions| ==> positions[t] == start + t
    ensures CpuAttention.Stored(slots, positions, rows, |rows|) == Spliced(slots, start, rows)
  {
    CpuAttention.StoredInARow(slots, positions, rows, start, |rows|);
    assert rows[..|rows|] == rows;
  }

  /** Append the new keys and values, and attend to all of them. */
  method AppendAndAttend<F>(fl: Ops<F>, s: Spec<F>, w: LayerWeights<F>, ghost xs: seq<seq<F>>, start: nat,
                            positions: seq<nat>, ws: array<F>, kv: array<F>, keyAt: nat, valueAt: nat,
                            at: CpuAttention.Layout)
    requires ws != kv && SpecValid(s) && WeightsShaped(w, s) && IsMatrix(xs, |xs|, s.hiddenSize) && |positions| == |xs|
    requires start + |positions| <= at.maximumContext && PositionsFrom(positions, start, s.maxPositions)
    requires at.keyBase + Times(at.maximumContext, KvWidth(s.heads)) <= kv.Length
    requires at.valueBase + Times(at.maximumContext, KvWidth(s.heads)) <= kv.Length
    requires Apart(at.keyBase, Times(at.maximumContext, KvWidth(s.heads)), at.valueBase,
                   Times(at.maximumContext, KvWidth(s.heads)))
    requires at.queryAt + Times(|positions|, s.hiddenSize) <= keyAt
      && keyAt + Times(|positions|, KvWidth(s.heads)) <= valueAt
    requires valueAt + Times(|positions|, KvWidth(s.heads)) <= at.outAt
    requires at.outAt + Times(|positions|, s.hiddenSize) <= at.scratchAt
    requires at.scratchAt + CpuAttention.ScratchSize(s.heads, |positions|, at.maximumContext) <= ws.Length
    requires Rows(ws[..], at.queryAt, s.hiddenSize, |xs|) == QueryRows(fl, s, w, xs, start)
    requires Rows(ws[..], keyAt, KvWidth(s.heads), |xs|) == KeyRows(fl, s, w, xs, start)
    requires Rows(ws[..], valueAt, KvWidth(s.heads), |xs|) == ValueRows(fl, s, w, xs)
    modifies ws, kv
    ensures CacheExtended(fl, s, w, xs, start, old(kv[..]), kv[..], at.keyBase, at.valueBase, at.maximumContext)
    ensures Rows(ws[..], at.outAt, s.hiddenSize, |xs|) == AttendRows(fl, s.heads, QueryRows(fl, s, w, xs, start), start,
      Slots(kv[..], at.keyBase, KvWidth(s.heads), start + |xs|, at.maximumContext),
      Slots(kv[..], at.valueBase, KvWidth(s.heads), start + |xs|, at.maximumContext))
  {
    hide Rows, AttendRows, QueryRows, KeyRows, ValueRows, Times, OutsideBoth, CpuAttention.Stored;
    var rows, kw, capacity := |positions|, KvWidth(s.heads), at.maximumContext;
    ghost var before := kv[..];
    TimesMonotone(start + rows, capacity, kw);
    CpuAttention.AppendKv(ws, keyAt, valueAt, rows, kw, positions, kv, at.keyBase, at.valueBase, capacity);
    StoredIsSpliced(Rows(before, at.keyBase, kw, capacity), positions, KeyRows(fl, s, w, xs, start), start);
    StoredIsSpliced(Rows(before, at.valueBase, kw, capacity), positions, ValueRows(fl, s, w, xs), start);
    CpuAttention.Attention(fl, ws, kv, s.heads, at, rows, start);
  }

  /** Project the attention back and add it to the hidden rows. */
  method AddAttention<F>(fl: Ops<F>, s: Spec<F>, w: LayerWeights<F>, ghost xs: seq<seq<F>>, start: nat, rows: nat,
                         hidden: array<F>, ws: array<F>, attentionAt: nat, ghost keys: seq<seq<F>>,
                         ghost values: seq<seq<F>>)
    requires hidden != ws && SpecValid(s) && WeightsShaped(w, s) && IsMatrix(xs, rows, s.hiddenSize)
    requires IsMatrix(keys, start + rows, KvWidth(s.heads)) && IsMatrix(values, start + rows, KvWidth(s.heads))
    requires Times(rows, s.hiddenSize) <= hidden.Length && Times(rows, s.hiddenSize) <= attentionAt
    requires attentionAt + Times(rows, s.hiddenSize) <= ws.Length
    requires Rows(hidden[..], 0, s.hiddenSize, rows) == xs
    requires Rows(ws[..], attentionAt, s.hiddenSize, rows)
      == AttendRows(fl, s.heads, QueryRows(fl, s, w, xs, start), start, keys, values)
    modifies hidden, ws
    ensures Rows(hidden[..], 0, s.hiddenSize, rows) == AfterRows(fl, s, w, xs, start, keys, values)
    ensures Outside(old(hidden[..]), hidden[..], 0, Times(rows, s.hiddenSize))
  {
    hide Rows, AttendRows, QueryRows, AddRows, LinearRows, AfterRows, Times, Outside;
    Linear(fl, ws, attentionAt, rows, s.hiddenSize, w.output, ws, 0);
    AddInPlace(fl, hidden, ws, 0, rows, s.hiddenSize);
    AfterRowsCompose(fl, s, w, xs, start, keys, values);
  }

  // ---------- The MLP phase ----------

  method MlpPhase<F>(fl: Ops<F>, s: Spec<F>, w: LayerWeights<F>, ghost xs: seq<seq<F>>, rows: nat, hidden: array<F>,
                     ws: array<F>)
    requires hidden != ws && SpecValid(s) && WeightsShaped(w, s) && IsMatrix(xs, rows, s.hiddenSize)
    requires Times(rows, s.hiddenSize) <= hidden.Length
    requires 2 * Times(rows, s.intermediateSize) + Times(rows, s.hiddenSize) <= ws.Length
    requires Rows(hidden[..], 0, s.hiddenSize, rows) == xs
    modifies hidden, ws
    ensures Rows(hidden[..], 0, s.hiddenSize, rows) == MlpRows(fl, s, w, xs)
    ensures Outside(old(hidden[..]), hidden[..], 0, Times(rows, s.hiddenSize))
  {
    hide Rows, MlpRows, AddRows, LinearRows, RmsRows, GateRows, Times, Outside;
    var hs, inner := s.hiddenSize, s.intermediateSize;
    var gateAt := Times(rows, hs);
    var upAt := gateAt + Times(rows, inner);
    RmsNorm(fl, hidden, 0, rows, w.postNorm, s.epsilon, ws, 0);
    ghost var s0 := ws[..];
    Linear(fl, ws, 0, rows, hs, w.gate, ws, gateAt);
    ghost var s1 := ws[..];
    RowsStable(s0, s1, 0, hs, rows, gateAt, Times(rows, inner));
    Linear(fl, ws, 0, rows, hs, w.up, ws, upAt);
    RowsStable(s1, ws[..], gateAt, inner, rows, upAt, Times(rows, inner));
    GateInPlace(fl, ws, gateAt, upAt, rows, inner);
    Linear(fl, ws, gateAt, rows, inner, w.down, ws, 0);
    AddInPlace(fl, hidden, ws, 0, rows, hs);
    MlpRowsCompose(fl, s, w, xs);
  }

  // ---------- The layer ----------

  /** What a layer leaves in the hidden rows and the cache. */
  ghost predicate LayerDone<F>(fl: Ops<F>, s: Spec<F>, w: LayerWeights<F>, xs: seq<seq<F>>, start: nat, hidden: seq<F>,
                               before: seq<F>, cache: seq<F>, keyBase: nat, valueBase: nat, maximumContext: nat)
    requires SpecValid(s) && WeightsShaped(w, s) && IsMatrix(xs, |xs|, s.hiddenSize) && start + |xs| <= maximumContext
    requires keyBase + Times(maximumContext, KvWidth(s.heads)) <= |before| == |cache|
    requires valueBase + Times(maximumContext, KvWidth(s.heads)) <= |before|
    requires Times(|xs|, s.hiddenSize) <= |hidden|
  {
    && CacheExtended(fl, s, w, xs, start, before, cache, keyBase, valueBase, maximumContext)
    && Rows(hidden, 0, s.hiddenSize, |xs|) == LayerRows(fl, s, w, xs, start,
         Slots(cache, keyBase, KvWidth(s.heads), start + |xs|, maximumContext),
         Slots(cache, valueBase, KvWidth(s.heads), start + |xs|, maximumContext))
  }

  /** The layer after its projections. */
  method LayerRest<F>(fl: Ops<F>, s: Spec<F>, w: LayerWeights<F>, ghost xs: seq<seq<F>>, hidden: array<F>,
                      kv: array<F>, keyBase: nat, valueBase: nat, positions: seq<nat>, start: nat, maximumContext: nat,
                      ws: array<F>)
    requires hidden != ws && hidden != kv && ws != kv && WeightsShaped(w, s) && SpecValid(s)
    requires |positions| == |xs| && IsMatrix(xs, |xs|, s.hiddenSize) && PositionsFrom(positions, start, s.maxPositions)
    requires start + |positions| <= maximumContext && RequiredWorkspace(s, |positions|, maximumContext) <= ws.Length
    requires Times(|positions|, s.hiddenSize) <= hidden.Length
    requires keyBase + Times(maximumContext, KvWidth(s.heads)) <= kv.Length
    requires valueBase + Times(maximumContext, KvWidth(s.heads)) <= kv.Length
    requires Apart(keyBase, Times(maximumContext, KvWidth(s.heads)), valueBase, Times(maximumContext, KvWidth(s.heads)))
    requires Rows(hidden[..], 0, s.hiddenSize, |positions|) == xs
    requires
      var ns := RmsRows(fl, xs, w.inputNorm, s.epsilon);
      var rowHidden, rowKv := Times(|positions|, s.hiddenSize), Times(|positions|, KvWidth(s.heads));
      && Rows(ws[..], rowHidden, s.hiddenSize, |positions|) == LinearRows(fl, ns, s.hiddenSize, w.query)
      && Rows(ws[..], 2 * rowHidden, KvWidth(s.heads), |positions|) == LinearRows(fl, ns, s.hiddenSize, w.key)
      && Rows(ws[..], 2 * rowHidden + rowKv, KvWidth(s.heads), |positions|) == LinearRows(fl, ns, s.hiddenSize, w.value)
    modifies hidden, kv, ws
    ensures LayerDone(fl, s, w, xs, start, hidden[..], old(kv[..]), kv[..], keyBase, valueBase, maximumContext)
    ensures Outside(old(hidden[..]), hidden[..], 0, Times(|positions|, s.hiddenSize))
  {
    hide Rows, LayerRows, QueryRows, KeyRows, ValueRows, AfterRows, MlpRows, AttendRows, LinearRows, RmsRows, Times,
      CacheExtended, Outside, PositionsFrom;
    var rows := |positions|;
    var rowHidden, rowKv := Times(rows, s.hiddenSize), Times(rows, KvWidth(s.heads));
    var queryAt := rowHidden;
    var keyAt := queryAt + rowHidden;
    var valueAt := keyAt + rowKv;
    var attentionAt := valueAt + rowKv;
    var logitsAt := attentionAt + rowHidden;
    Rotate(fl, s, w, xs, start, positions, ws, queryAt, keyAt, valueAt);
    var at := CpuAttention.Layout(queryAt, attentionAt, logitsAt, keyBase, valueBase, maximumContext);
    AppendAndAttend(fl, s, w, xs, start, positions, ws, kv, keyAt, valueAt, at);
    ghost var keys := Slots(kv[..], keyBase, KvWidth(s.heads), start + rows, maximumContext);
    ghost var values := Slots(kv[..], valueBase, KvWidth(s.heads), start + rows, maximumContext);
    ghost var cache, h0 := kv[..], hidden[..];
    AddAttention(fl, s, w, xs, start, rows, hidden, ws, attentionAt, keys, values);
    ghost var h1 := hidden[..];
    MlpPhase(fl, s, w, AfterRows(fl, s, w, xs, start, keys, values), rows, hidden, ws);
    LayerRowsCompose(fl, s, w, xs, start, keys, values);
    Chain(h0, h1, hidden[..], 0, rowHidden);
    assert kv[..] == cache;
  }

  /**
   * One decoder layer. It succeeds exactly on inputs that pass the validation and have an even head
   * dimension; then the hidden rows are those of the layer over the extended cache, and slots below
   * the first new position, like everything outside the two new regions, are as they were.
   */
  method DecoderLayer<F>(fl: Ops<F>, s: Spec<F>, w: LayerWeights<F>, hidden: array<F>, rows: nat, kv: array<F>,
                         keyBase: nat, valueBase: nat, positions: seq<nat>, context: nat, maximumContext: nat,
                         ws: array<F>) returns (status: Status)
    requires hidden != ws && hidden != kv && ws != kv
    requires Times(rows, s.hiddenSize) <= hidden.Length
    requires keyBase + Times(maximumContext, KvWidth(s.heads)) <= kv.Length
    requires valueBase + Times(maximumContext, KvWidth(s.heads)) <= kv.Length
    requires Apart(keyBase, Times(maximumContext, KvWidth(s.heads)), valueBase, Times(maximumContext, KvWidth(s.heads)))
    modifies hidden, kv, ws
    ensures status == OK <==>
      LayerAccepts(fl, s, w, rows, positions, context, maximumContext, ws.Length) && s.heads.dim % 2 == 0
    ensures status != OK ==> kv[..] == old(kv[..])
    ensures status == OK ==>
      LayerDone(fl, s, w, old(Rows(hidden[..], 0, s.hiddenSize, rows)), context - rows, hidden[..],
                                       old(kv[..]), kv[..], keyBase, valueBase, maximumContext)
    ensures Outside(old(hidden[..]), hidden[..], 0, Times(rows, s.hiddenSize))
  {
    hide Rows, LayerRows, QueryRows, KeyRows, ValueRows, AfterRows, MlpRows, AttendRows, LinearRows, RmsRows, Times,
      CacheExtended;
    status := ValidateLayer(fl, s, w, rows, positions, context, maximumContext, ws.Length);
    if status != OK {
      return;
    }
    ghost var xs := Rows(hidden[..], 0, s.hiddenSize, rows);
    var rowHidden, rowKv := Times(rows, s.hiddenSize), Times(rows, KvWidth(s.heads));
    Project(fl, s, w, hidden, rows, ws, rowHidden, 2 * rowHidden, 2 * rowHidden + rowKv);
    if s.heads.dim % 2 != 0 {
      return Failure(InvalidShape);
    }
    LayerRest(fl, s, w, xs, hidden, kv, keyBase, valueBase, positions, context - rows, maximumContext, ws);
  }
}
