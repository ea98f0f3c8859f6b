/**
 * The decoder without a cache: the hidden states of a whole token history, layer by layer, and
 * the logits and the greedy choice at its end. A position depends only on the tokens up to it.
 */
module DecoderModel {
  import opened DecoderRows

  datatype Spec<F> = Spec(
    hiddenSize: nat,
    intermediateSize: nat,
    layers: nat,
    heads: Heads,
    vocabularySize: nat,
    maxPositions: nat,
    epsilon: F,
    theta: F)

  datatype LayerWeights<F> = LayerWeights(
    inputNorm: Row<F>,
    query: seq<seq<F>>,
    key: seq<seq<F>>,
    value: seq<seq<F>>,
    output: seq<seq<F>>,
    postNorm: Row<F>,
    gate: seq<seq<F>>,
    up: seq<seq<F>>,
    down: seq<seq<F>>)

  /** The checkpoint: the output head is the embedding. */
  datatype Model<!F> = Model(
    fl: Ops<F>,
    spec: Spec<F>,
    embedding: seq<seq<F>>,
    layers: seq<LayerWeights<F>>,
    finalNorm: Row<F>)

  ghost predicate SpecValid<F>(s: Spec<F>) {
    && s.hiddenSize > 0 && s.intermediateSize > 0
    && Grouped(s.heads) && s.heads.dim % 2 == 0
    && QueryWidth(s.heads) == s.hiddenSize
  }

  ghost predicate WeightsShaped<F>(w: LayerWeights<F>, s: Spec<F>) {
    && |w.inputNorm| == s.hiddenSize && |w.postNorm| == s.hiddenSize
    && IsMatrix(w.query, s.hiddenSize, s.hiddenSize)
    && IsMatrix(w.key, KvWidth(s.heads), s.hiddenSize)
    && IsMatrix(w.value, KvWidth(s.heads), s.hiddenSize)
    && IsMatrix(w.output, s.hiddenSize, s.hiddenSize)
    && IsMatrix(w.gate, s.intermediateSize, s.hiddenSize)
    && IsMatrix(w.up, s.intermediateSize, s.hiddenSize)
    && IsMatrix(w.down, s.hiddenSize, s.intermediateSize)
  }

  /** The constants of the profile are finite and positive. */
  ghost predicate ConstantsUsable<F>(fl: Ops<F>, s: Spec<F>) {
    && fl.finite(s.epsilon) && fl.less(fl.zero, s.epsilon)
    && fl.finite(s.theta) && fl.less(fl.zero, s.theta)
  }

  ghost predicate ModelValid<F>(m: Model<F>) {
    && SpecValid(m.spec) && ConstantsUsable(m.fl, m.spec) && m.spec.vocabularySize > 0
    && IsMatrix(m.embedding, m.spec.vocabularySize, m.spec.hiddenSize)
    && |m.layers| == m.spec.layers
    && (forall l :: 0 <= l < |m.layers| ==> WeightsShaped(m.layers[l], m.spec))
    && |m.finalNorm| == m.spec.hiddenSize
  }

  // ---------- One layer, one row ----------

  ghost function QueryRow<F>(fl: Ops<F>, s: Spec<F>, w: LayerWeights<F>, x: Row<F>, position: nat): (r: Row<F>)
    requires SpecValid(s) && WeightsShaped(w, s) && |x| == s.hiddenSize
    ensures |r| == s.hiddenSize
  {
    RopeRow(fl, LinearRow(fl, RmsRow(fl, x, w.inputNorm, s.epsilon), w.query), s.heads.query, s.heads.dim, position,
            s.theta)
  }

  ghost function KeyRow<F>(fl: Ops<F>, s: Spec<F>, w: LayerWeights<F>, x: Row<F>, position: nat): (r: Row<F>)
    requires SpecValid(s) && WeightsShaped(w, s) && |x| == s.hiddenSize
    ensures |r| == KvWidth(s.heads)
  {
    RopeRow(fl, LinearRow(fl, RmsRow(fl, x, w.inputNorm, s.epsilon), w.key), s.heads.kv, s.heads.dim, position, s.theta)
  }

  ghost function ValueRow<F>(fl: Ops<F>, s: Spec<F>, w: LayerWeights<F>, x: Row<F>): (r: Row<F>)
    requires SpecValid(s) && WeightsShaped(w, s) && |x| == s.hiddenSize
    ensures |r| == KvWidth(s.heads)
  {
    LinearRow(fl, RmsRow(fl, x, w.inputNorm, s.epsilon), w.value)
  }

  ghost function AfterAttention<F>(fl: Ops<F>, w: LayerWeights<F>, s: Spec<F>, x: Row<F>,
                                   attention: Row<F>): (r: Row<F>)
    requires SpecValid(s) && WeightsShaped(w, s) && |x| == s.hiddenSize && |attention| == s.hiddenSize
    ensures |r| == s.hiddenSize
  {
    AddRow(fl, x, LinearRow(fl, attention, w.output))
  }

  ghost function MlpRow<F>(fl: Ops<F>, w: LayerWeights<F>, s: Spec<F>, x: Row<F>): (r: Row<F>)
    requires SpecValid(s) && WeightsShaped(w, s) && |x| == s.hiddenSize
    ensures |r| == s.hiddenSize
  {
    var n := RmsRow(fl, x, w.postNorm, s.epsilon);
    AddRow(fl, x, LinearRow(fl, GateRow(fl, LinearRow(fl, n, w.gate), LinearRow(fl, n, w.up)), w.down))
  }

  /** The output row at a position, given the keys and values of its context. */
  ghost function LayerRow<F>(fl: Ops<F>, s: Spec<F>, w: LayerWeights<F>, x: Row<F>, position: nat, keys: seq<seq<F>>,
                             values: seq<seq<F>>): (r: Row<F>)
    requires SpecValid(s) && WeightsShaped(w, s) && |x| == s.hiddenSize
    requires IsMatrix(keys, |keys|, KvWidth(s.heads)) && IsMatrix(values, |keys|, KvWidth(s.heads))
    ensures |r| == s.hiddenSize
  {
    MlpRow(fl, w, s, AfterAttention(fl, w, s, x, AttendRow(fl, s.heads, QueryRow(fl, s, w, x, position), keys, values)))
  }

  // ---------- One layer, all rows ----------

  /** The keys of consecutive rows, the first of which stands at position `start`. */
  ghost function KeyRows<F>(fl: Ops<F>, s: Spec<F>, w: LayerWeights<F>, xs: seq<seq<F>>, start: nat): (r: seq<seq<F>>)
    requires SpecValid(s) && WeightsShaped(w, s) && IsMatrix(xs, |xs|, s.hiddenSize)
    ensures IsMatrix(r, |xs|, KvWidth(s.heads))
  {
    seq(|xs|, i requires 0 <= i < |xs| => KeyRow(fl, s, w, xs[i], start + i))
  }

  ghost function ValueRows<F>(fl: Ops<F>, s: Spec<F>, w: LayerWeights<F>, xs: seq<seq<F>>): (r: seq<seq<F>>)
    requires SpecValid(s) && WeightsShaped(w, s) && IsMatrix(xs, |xs|, s.hiddenSize)
    ensures IsMatrix(r, |xs|, KvWidth(s.heads))
  {
    seq(|xs|, i requires 0 <= i < |xs| => ValueRow(fl, s, w, xs[i]))
  }

  /** Rows from position `start` on, over the keys and values of all positions so far. */
  ghost function LayerRows<F>(fl: Ops<F>, s: Spec<F>, w: LayerWeights<F>, xs: seq<seq<F>>, start: nat,
                              keys: seq<seq<F>>, values: seq<seq<F>>): (r: seq<seq<F>>)
    requires SpecValid(s) && WeightsShaped(w, s) && IsMatrix(xs, |xs|, s.hiddenSize)
    requires IsMatrix(keys, start + |xs|, KvWidth(s.heads)) && IsMatrix(values, start + |xs|, KvWidth(s.heads))
    ensures IsMatrix(r, |xs|, s.hiddenSize)
  {
    seq(|xs|, i requires 0 <= i < |xs| =>
      LayerRow(fl, s, w, xs[i], start + i, keys[..start + i + 1], values[..start + i + 1]))
  }

  // ---------- The whole history ----------

  ghost predicate Tokens<F>(m: Model<F>, history: seq<nat>) {
    forall i :: 0 <= i < |history| ==> history[i] < m.spec.vocabularySize
  }

  ghost function Embedded<F>(m: Model<F>, history: seq<nat>): (r: seq<seq<F>>)
    requires ModelValid(m) && Tokens(m, history)
    ensures IsMatrix(r, |history|, m.spec.hiddenSize)
  {
    seq(|history|, i requires 0 <= i < |history| => m.embedding[history[i]])
  }

  /** The hidden states of every position before layer `l`. */
  ghost function Hidden<F>(m: Model<F>, history: seq<nat>, l: nat): (r: seq<seq<F>>)
    requires ModelValid(m) && Tokens(m, history) && l <= |m.layers|
    ensures IsMatrix(r, |history|, m.spec.hiddenSize)
  {
    if l == 0 then Embedded(m, history)
    else
      var xs := Hidden(m, history, l - 1);
      var w := m.layers[l - 1];
      LayerRows(m.fl, m.spec, w, xs, 0, KeyRows(m.fl, m.spec, w, xs, 0), ValueRows(m.fl, m.spec, w, xs))
  }

  ghost function Keys<F>(m: Model<F>, history: seq<nat>, l: nat): (r: seq<seq<F>>)
    requires ModelValid(m) && Tokens(m, history) && l < |m.layers|
    ensures IsMatrix(r, |history|, KvWidth(m.spec.heads))
  {
    KeyRows(m.fl, m.spec, m.layers[l], Hidden(m, history, l), 0)
  }

  ghost function Values<F>(m: Model<F>, history: seq<nat>, l: nat): (r: seq<seq<F>>)
    requires ModelValid(m) && Tokens(m, history) && l < |m.layers|
    ensures IsMatrix(r, |history|, KvWidth(m.spec.heads))
  {
    ValueRows(m.fl, m.spec, m.layers[l], Hidden(m, history, l))
  }

  ghost function Logits<F>(m: Model<F>, history: seq<nat>): (r: Row<F>)
    requires ModelValid(m) && Tokens(m, history) && history != []
    ensures |r| == m.spec.vocabularySize
  {
    LinearRow(m.fl, RmsRow(m.fl, Hidden(m, history, |m.layers|)[|history| - 1], m.finalNorm, m.spec.epsilon),
              m.embedding)
  }

  // ---------- Causality ----------

  /** Rows before `n` depend only on the rows before `n`. */
  lemma LayerCausal<F>(fl: Ops<F>, s: Spec<F>, w: LayerWeights<F>, xs: seq<seq<F>>, ys: seq<seq<F>>)
    requires SpecValid(s) && WeightsShaped(w, s) && IsMatrix(xs, |xs|, s.hiddenSize) && IsMatrix(ys, |ys|, s.hiddenSize)
    requires xs <= ys
    ensures KeyRows(fl, s, w, xs, 0) <= KeyRows(fl, s, w, ys, 0)
    ensures ValueRows(fl, s, w, xs) <= ValueRows(fl, s, w, ys)
    ensures LayerRows(fl, s, w, xs, 0, KeyRows(fl, s, w, xs, 0), ValueRows(fl, s, w, xs))
      <= LayerRows(fl, s, w, ys, 0, KeyRows(fl, s, w, ys, 0), ValueRows(fl, s, w, ys))
  {
    var kx, ky := KeyRows(fl, s, w, xs, 0), KeyRows(fl, s, w, ys, 0);
    var vx, vy := ValueRows(fl, s, w, xs), ValueRows(fl, s, w, ys);
    assert kx <= ky && vx <= vy;
    var ox, oy := LayerRows(fl, s, w, xs, 0, kx, vx), LayerRows(fl, s, w, ys, 0, ky, vy);
    forall i | 0 <= i < |xs| ensures ox[i] == oy[i] {
      assert kx[..0 + i + 1] == ky[..0 + i + 1] && vx[..0 + i + 1] == vy[..0 + i + 1];
    }
  }

  /** A longer history leaves the hidden states, keys and values of the earlier positions as they were. */
  lemma {:induction false} Causality<F>(m: Model<F>, history: seq<nat>, longer: seq<nat>, l: nat)
    requires ModelValid(m) && Tokens(m, longer) && history <= longer && l <= |m.layers|
    ensures Tokens(m, history)
    ensures Hidden(m, history, l) <= Hidden(m, longer, l)
    ensures l < |m.layers| ==>
      Keys(m, history, l) <= Keys(m, longer, l) && Values(m, history, l) <= Values(m, longer, l)
  {
    assert Tokens(m, history);
    if l == 0 {
    } else {
      Causality(m, history, longer, l - 1);
      LayerCausal(m.fl, m.spec, m.layers[l - 1], Hidden(m, history, l - 1), Hidden(m, longer, l - 1));
    }
    if l < |m.layers| {
      LayerCausal(m.fl, m.spec, m.layers[l], Hidden(m, history, l), Hidden(m, longer, l));
    }
  }

  /** The keys and values of a history are those of its first part and those of the rest. */
  lemma CacheTail<F>(fl: Ops<F>, s: Spec<F>, w: LayerWeights<F>, ys: seq<seq<F>>, start: nat)
    requires SpecValid(s) && WeightsShaped(w, s) && IsMatrix(ys, |ys|, s.hiddenSize) && start <= |ys|
    ensures KeyRows(fl, s, w, ys, 0) == KeyRows(fl, s, w, ys[..start], 0) + KeyRows(fl, s, w, ys[start..], start)
    ensures ValueRows(fl, s, w, ys) == ValueRows(fl, s, w, ys[..start]) + ValueRows(fl, s, w, ys[start..])
  {
    hide KeyRow, ValueRow, SpecValid, WeightsShaped;
  }

  /** The rows from `start` on are computed from their own inputs and the keys and values of all positions. */
  lemma LayerTail<F>(fl: Ops<F>, s: Spec<F>, w: LayerWeights<F>, ys: seq<seq<F>>, start: nat, ks: seq<seq<F>>,
                     vs: seq<seq<F>>)
    requires SpecValid(s) && WeightsShaped(w, s) && IsMatrix(ys, |ys|, s.hiddenSize) && start <= |ys|
    requires IsMatrix(ks, |ys|, KvWidth(s.heads)) && IsMatrix(vs, |ys|, KvWidth(s.heads))
    ensures LayerRows(fl, s, w, ys, 0, ks, vs)[start..] == LayerRows(fl, s, w, ys[start..], start, ks, vs)
  {
    hide LayerRow, LayerRows, WeightsShaped, SpecValid;
    forall i | 0 <= i < |ys| - start
      ensures LayerRows(fl, s, w, ys, 0, ks, vs)[start + i] == LayerRows(fl, s, w, ys[start..], start, ks, vs)[i]
    {
      TailRow(fl, s, w, ys, start, ks, vs, i);
    }
  }

  lemma TailRow<F>(fl: Ops<F>, s: Spec<F>, w: LayerWeights<F>, ys: seq<seq<F>>, start: nat, ks: seq<seq<F>>,
                   vs: seq<seq<F>>, i: nat)
    requires SpecValid(s) && WeightsShaped(w, s) && IsMatrix(ys, |ys|, s.hiddenSize) && start + i < |ys|
    requires IsMatrix(ks, |ys|, KvWidth(s.heads)) && IsMatrix(vs, |ys|, KvWidth(s.heads))
    ensures LayerRows(fl, s, w, ys, 0, ks, vs)[start + i] == LayerRows(fl, s, w, ys[start..], start, ks, vs)[i]
  {
    hide LayerRow;
    assert ys[start..][i] == ys[start + i];
    assert 0 + (start + i) == start + i;
  }
}
