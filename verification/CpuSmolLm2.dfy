/** The CPU decoder object: its buffers, its cache invariant, and its calls proved against the cache-free decoder. */
module CpuModel {
  import opened Core
  import opened DecoderRows
  import opened DecoderModel
  import opened DecoderMemory
  import opened DecoderGreedy
  import CpuOperators
  import CpuAttention
  import opened CpuDecoder

  // ---------- The cache layout ----------

  /** The floats of the keys, or of the values, of one layer. */
  function CacheFloats<F>(s: Spec<F>, maximumContext: nat): nat {
    Times(maximumContext, KvWidth(s.heads))
  }

  /** Each layer has a block of keys and behind it a block of values. */
  function KeyBase<F>(s: Spec<F>, maximumContext: nat, layer: nat): nat {
    Times(layer, 2 * CacheFloats(s, maximumContext))
  }

  function ValueBase<F>(s: Spec<F>, maximumContext: nat, layer: nat): nat {
    KeyBase(s, maximumContext, layer) + CacheFloats(s, maximumContext)
  }

  lemma LayerInside<F>(s: Spec<F>, maximumContext: nat, layer: nat, layers: nat, length: nat)
    requires layer < layers && Times(layers, 2 * CacheFloats(s, maximumContext)) <= length
    ensures ValueBase(s, maximumContext, layer) + CacheFloats(s, maximumContext) <= length
  {
    RowInside(layer, layers, 2 * CacheFloats(s, maximumContext));
  }

  /** The first `count` slots of a layer hold the keys and values of the history. */
  ghost predicate LayerHolds<F>(m: Model<F>, history: seq<nat>, cache: seq<F>, maximumContext: nat, layer: nat,
                                count: nat)
    requires ModelValid(m) && Tokens(m, history) && layer < |m.layers| && count <= |history| && count <= maximumContext
    requires ValueBase(m.spec, maximumContext, layer) + CacheFloats(m.spec, maximumContext) <= |cache|
  {
    && Slots(cache, KeyBase(m.spec, maximumContext, layer), KvWidth(m.spec.heads), count, maximumContext)
         == Keys(m, history, layer)[..count]
    && Slots(cache, ValueBase(m.spec, maximumContext, layer), KvWidth(m.spec.heads), count, maximumContext)
         == Values(m, history, layer)[..count]
  }

  /** Layers before `done` hold all of the history, the others its first `count` positions. */
  ghost predicate CacheHolds<F>(m: Model<F>, history: seq<nat>, cache: seq<F>, maximumContext: nat, count: nat,
                                done: nat)
    requires ModelValid(m) && Tokens(m, history) && count <= |history| <= maximumContext
    requires Times(|m.layers|, 2 * CacheFloats(m.spec, maximumContext)) <= |cache|
  {
    forall l :: 0 <= l < |m.layers| ==> LayerState(m, history, cache, maximumContext, count, done, l)
  }

  ghost predicate LayerState<F>(m: Model<F>, history: seq<nat>, cache: seq<F>, maximumContext: nat, count: nat,
                                done: nat, l: nat)
    requires ModelValid(m) && Tokens(m, history) && count <= |history| <= maximumContext && l < |m.layers|
    requires Times(|m.layers|, 2 * CacheFloats(m.spec, maximumContext)) <= |cache|
  {
    LayerInside(m.spec, maximumContext, l, |m.layers|, |cache|);
    LayerHolds(m, history, cache, maximumContext, l, if l < done then |history| else count)
  }

  // ---------- What a layer does to the cache ----------

  /** The layer's own slots grow to the whole history. */
  lemma LayerGrows<F>(m: Model<F>, history: seq<nat>, before: seq<F>, cache: seq<F>, maximumContext: nat, layer: nat,
                      count: nat)
    requires ModelValid(m) && Tokens(m, history) && layer < |m.layers| && count <= |history| <= maximumContext
    requires ValueBase(m.spec, maximumContext, layer) + CacheFloats(m.spec, maximumContext) <= |before| == |cache|
    requires LayerHolds(m, history, before, maximumContext, layer, count)
    requires CacheExtended(m.fl, m.spec, m.layers[layer], Hidden(m, history, layer)[count..], count, before, cache,
                           KeyBase(m.spec, maximumContext, layer), ValueBase(m.spec, maximumContext, layer),
                             maximumContext)
    ensures LayerHolds(m, history, cache, maximumContext, layer, |history|)
  {
    hide KeyRows, ValueRows, Hidden, Slots, ModelValid, LayerRows, Spliced;
    var xs := Hidden(m, history, layer);
    LayerValid(m, layer);
    ExtendedSlots(before, cache, KeyBase(m.spec, maximumContext, layer), KvWidth(m.spec.heads), maximumContext, count,
                  KeyRows(m.fl, m.spec, m.layers[layer], xs[count..], count));
    ExtendedSlots(before, cache, ValueBase(m.spec, maximumContext, layer), KvWidth(m.spec.heads), maximumContext, count,
                  ValueRows(m.fl, m.spec, m.layers[layer], xs[count..]));
    CacheTail(m.fl, m.spec, m.layers[layer], xs, count);
    assert Keys(m, history, layer)[..count] == KeyRows(m.fl, m.spec, m.layers[layer], xs[..count], 0);
    assert Values(m, history, layer)[..count] == ValueRows(m.fl, m.spec, m.layers[layer], xs[..count]);
    assert Keys(m, history, layer)[..|history|] == Keys(m, history, layer);
    assert Values(m, history, layer)[..|history|] == Values(m, history, layer);
  }

  lemma LayerValid<F>(m: Model<F>, layer: nat)
    requires ModelValid(m) && layer < |m.layers|
    ensures SpecValid(m.spec) && WeightsShaped(m.layers[layer], m.spec)
  {
  }

  /** The slots of other layers stay as they were. */
  lemma LayerKept<F>(m: Model<F>, history: seq<nat>, before: seq<F>, cache: seq<F>, maximumContext: nat, other: nat,
                     count: nat, layer: nat, a: nat, n: nat, b: nat)
    requires ModelValid(m) && Tokens(m, history) && other < |m.layers| && count <= |history| && count <= maximumContext
    requires ValueBase(m.spec, maximumContext, other) + CacheFloats(m.spec, maximumContext) <= |before|
      && other != layer
    requires LayerHolds(m, history, before, maximumContext, other, count)
    requires OutsideBoth(before, cache, a, n, b, n)
    requires KeyBase(m.spec, maximumContext, layer) <= a && a + n <= ValueBase(m.spec, maximumContext, layer) <= b
    requires b + n <= ValueBase(m.spec, maximumContext, layer) + CacheFloats(m.spec, maximumContext)
    ensures |cache| == |before| && LayerHolds(m, history, cache, maximumContext, other, count)
  {
    hide Keys, Values, ModelValid;
    var c, w := CacheFloats(m.spec, maximumContext), KvWidth(m.spec.heads);
    if other < layer { RowInside(other, layer, 2 * c); } else { RowInside(layer, other, 2 * c); }
    TimesMonotone(count, maximumContext, w);
    RowsStableBoth(before, cache, KeyBase(m.spec, maximumContext, other), w, count, a, n, b, n);
    RowsStableBoth(before, cache, ValueBase(m.spec, maximumContext, other), w, count, a, n, b, n);
  }

  /** The hidden rows behind the cached positions are those of the next layer. */
  lemma HiddenAdvances<F>(m: Model<F>, history: seq<nat>, layer: nat, count: nat)
    requires ModelValid(m) && Tokens(m, history) && layer < |m.layers| && count <= |history|
    ensures SpecValid(m.spec) && WeightsShaped(m.layers[layer], m.spec)
    ensures Hidden(m, history, layer + 1)[count..]
      == LayerRows(m.fl, m.spec, m.layers[layer], Hidden(m, history, layer)[count..], count, Keys(m, history, layer),
                   Values(m, history, layer))
  {
    hide LayerRows, KeyRows, ValueRows;
    LayerTail(m.fl, m.spec, m.layers[layer], Hidden(m, history, layer), count, Keys(m, history, layer),
              Values(m, history, layer));
  }

  /** A longer history is held in the same slots. */
  lemma CacheForLonger<F>(m: Model<F>, history: seq<nat>, longer: seq<nat>, cache: seq<F>, maximumContext: nat)
    requires ModelValid(m) && Tokens(m, longer) && history <= longer && |longer| <= maximumContext
    requires Times(|m.layers|, 2 * CacheFloats(m.spec, maximumContext)) <= |cache|
    requires Tokens(m, history) && CacheHolds(m, history, cache, maximumContext, |history|, 0)
    ensures CacheHolds(m, longer, cache, maximumContext, |history|, 0)
  {
    hide Keys, Values, ModelValid;
    forall l | 0 <= l < |m.layers| ensures LayerState(m, longer, cache, maximumContext, |history|, 0, l) {
      LayerInside(m.spec, maximumContext, l, |m.layers|, |cache|);
      assert LayerState(m, history, cache, maximumContext, |history|, 0, l);
      Causality(m, history, longer, l);
    }
  }

  /** With all layers done, the cache holds the whole history. */
  lemma CacheComplete<F>(m: Model<F>, history: seq<nat>, cache: seq<F>, maximumContext: nat, count: nat)
    requires ModelValid(m) && Tokens(m, history) && count <= |history| <= maximumContext
    requires Times(|m.layers|, 2 * CacheFloats(m.spec, maximumContext)) <= |cache|
    requires CacheHolds(m, history, cache, maximumContext, count, |m.layers|)
    ensures CacheHolds(m, history, cache, maximumContext, |history|, 0)
  {
    hide LayerHolds, ModelValid;
    forall l | 0 <= l < |m.layers| ensures LayerState(m, history, cache, maximumContext, |history|, 0, l) {
      assert LayerState(m, history, cache, maximumContext, count, |m.layers|, l);
    }
  }

  /** The slots below `count` of every layer, whatever the layers have done so far, hold the shorter history. */
  lemma CacheForShorter<F>(m: Model<F>, history: seq<nat>, longer: seq<nat>, cache: seq<F>, maximumContext: nat,
                           done: nat)
    requires ModelValid(m) && Tokens(m, longer) && history <= longer && |longer| <= maximumContext
    requires Times(|m.layers|, 2 * CacheFloats(m.spec, maximumContext)) <= |cache|
    requires CacheHolds(m, longer, cache, maximumContext, |history|, done)
    ensures Tokens(m, history) && CacheHolds(m, history, cache, maximumContext, |history|, 0)
  {
    hide ModelValid, Keys, Values;
    assert Tokens(m, history);
    forall l | 0 <= l < |m.layers| ensures LayerState(m, history, cache, maximumContext, |history|, 0, l) {
      LayerInside(m.spec, maximumContext, l, |m.layers|, |cache|);
      assert LayerState(m, longer, cache, maximumContext, |history|, done, l);
      Causality(m, history, longer, l);
      ShorterLayer(m, history, longer, cache, maximumContext, l, if l < done then |longer| else |history|);
    }
  }

  lemma ShorterLayer<F>(m: Model<F>, history: seq<nat>, longer: seq<nat>, cache: seq<F>, maximumContext: nat, l: nat,
                        count: nat)
    requires ModelValid(m) && Tokens(m, longer) && Tokens(m, history) && history <= longer
      && |longer| <= maximumContext && l < |m.layers|
    requires ValueBase(m.spec, maximumContext, l) + CacheFloats(m.spec, maximumContext) <= |cache|
    requires |history| <= count <= |longer| && LayerHolds(m, longer, cache, maximumContext, l, count)
    requires Keys(m, history, l) <= Keys(m, longer, l) && Values(m, history, l) <= Values(m, longer, l)
    ensures LayerHolds(m, history, cache, maximumContext, l, |history|)
  {
    hide Keys, Values, ModelValid;
    var c, w := CacheFloats(m.spec, maximumContext), KvWidth(m.spec.heads);
    TimesMonotone(count, maximumContext, w);
    CpuAttention.RowsTake(cache, KeyBase(m.spec, maximumContext, l), w, |history|, count);
    CpuAttention.RowsTake(cache, ValueBase(m.spec, maximumContext, l), w, |history|, count);
  }

  lemma WorkspaceMonotone<F>(s: Spec<F>, rows: nat, more: nat, maximumContext: nat)
    requires rows <= more
    ensures RequiredWorkspace(s, rows, maximumContext) <= RequiredWorkspace(s, more, maximumContext)
  {
    TimesMonotone(rows, more, s.hiddenSize);
    TimesMonotone(rows, more, KvWidth(s.heads));
    TimesMonotone(rows, more, s.intermediateSize);
    TimesMonotone(rows, more, s.heads.query);
    TimesMonotone(Times(rows, s.heads.query), Times(more, s.heads.query), maximumContext);
  }

  /** Layer after layer, one more is done. */
  lemma LayerAdvances<F>(m: Model<F>, longer: seq<nat>, before: seq<F>, cache: seq<F>, maximumContext: nat, count: nat,
                         layer: nat)
    requires ModelValid(m) && Tokens(m, longer) && count <= |longer| <= maximumContext && layer < |m.layers|
    requires Times(|m.layers|, 2 * CacheFloats(m.spec, maximumContext)) <= |before| == |cache|
    requires ValueBase(m.spec, maximumContext, layer) + CacheFloats(m.spec, maximumContext) <= |before|
    requires CacheHolds(m, longer, before, maximumContext, count, layer)
    requires CacheExtended(m.fl, m.spec, m.layers[layer], Hidden(m, longer, layer)[count..], count, before, cache,
                           KeyBase(m.spec, maximumContext, layer), ValueBase(m.spec, maximumContext, layer),
                             maximumContext)
    ensures CacheHolds(m, longer, cache, maximumContext, count, layer + 1)
    ensures LayerHolds(m, longer, cache, maximumContext, layer, |longer|)
  {
    hide Keys, Values, Hidden, ModelValid, Slots, KeyRows, ValueRows;
    assert LayerState(m, longer, before, maximumContext, count, layer, layer);
    LayerGrows(m, longer, before, cache, maximumContext, layer, count);
    var done := layer + 1;
    forall l | 0 <= l < |m.layers| ensures LayerState(m, longer, cache, maximumContext, count, done, l) {
      if l != layer {
        LayerInside(m.spec, maximumContext, l, |m.layers|, |before|);
        assert LayerState(m, longer, before, maximumContext, count, layer, l);
        LayerKept(m, longer, before, cache, maximumContext, l, if l < layer then |longer| else count, layer,
                  KeyBase(m.spec, maximumContext, layer), CacheFloats(m.spec, maximumContext),
                  ValueBase(m.spec, maximumContext, layer));
      }
    }
  }

  /** The hidden rows that a layer leaves are those of the next layer of the whole history. */
  lemma RowsAdvance<F>(m: Model<F>, longer: seq<nat>, hidden: seq<F>, before: seq<F>, cache: seq<F>,
                       maximumContext: nat, count: nat, layer: nat)
    requires ModelValid(m) && Tokens(m, longer) && count <= |longer| <= maximumContext && layer < |m.layers|
    requires SpecValid(m.spec) && WeightsShaped(m.layers[layer], m.spec)
    requires ValueBase(m.spec, maximumContext, layer) + CacheFloats(m.spec, maximumContext) <= |before| == |cache|
    requires Times(|longer| - count, m.spec.hiddenSize) <= |hidden|
    requires LayerDone(m.fl, m.spec, m.layers[layer], Hidden(m, longer, layer)[count..], count, hidden, before, cache,
                       KeyBase(m.spec, maximumContext, layer), ValueBase(m.spec, maximumContext, layer), maximumContext)
    requires LayerHolds(m, longer, cache, maximumContext, layer, |longer|)
    ensures Rows(hidden, 0, m.spec.hiddenSize, |longer| - count) == Hidden(m, longer, layer + 1)[count..]
  {
    hide Keys, Values, Hidden, ModelValid, LayerRows, Rows, CacheExtended, Slots;
    HiddenAdvances(m, longer, layer, count);
    assert Keys(m, longer, layer)[..|longer|] == Keys(m, longer, layer);
    assert Values(m, longer, layer)[..|longer|] == Values(m, longer, layer);
  }

  /** What a call did to the history and what it returned is what the cache-free decoder says. */
  ghost predicate Agrees<F>(m: Model<F>, limits: Limits, before: seq<nat>, now: seq<nat>, call: Call, answer: Answer<F>)
    requires ModelValid(m) && Tokens(m, before)
  {
    now == After(m, limits, before, call) && answer == Outcome(m, limits, before, call)
  }

  class CpuSmolLm2<F(!new, ==)> {
    const model: Model<F>
    const maximumContext: nat
    const maximumPrefill: nat
    const kv: array<F>
    const execution: array<F>
    const workspace: array<F>
    var positions: seq<nat>
    var contextLength: nat
    ghost var history: seq<nat>

    /** The buffers have the sizes that loading gives them. */
    ghost predicate Loaded()
      reads this
    {
      && ModelValid(model)
      && 0 < maximumContext <= model.spec.maxPositions && 0 < maximumPrefill <= maximumContext
      && kv.Length == Times(|model.layers|, 2 * CacheFloats(model.spec, maximumContext))
      && execution.Length == Times(maximumPrefill, model.spec.hiddenSize) + model.spec.hiddenSize
        + model.spec.vocabularySize
      && workspace.Length == RequiredWorkspace(model.spec, maximumPrefill, maximumContext)
      && kv != execution && kv != workspace && execution != workspace
      && |positions| == maximumPrefill
    }

    /** The slots below the context length hold the keys and values of the accepted tokens. */
    ghost predicate Valid()
      reads this, kv
    {
      && Loaded()
      && |history| == contextLength <= maximumContext && Tokens(model, history)
      && CacheHolds(model, history, kv[..], maximumContext, contextLength, 0)
    }

    function Bounds(): Limits { Limits(maximumContext, maximumPrefill) }

    constructor (m: Model<F>, context: nat, prefill: nat)
      requires ModelValid(m) && 0 < context <= m.spec.maxPositions && 0 < prefill <= context
      ensures Valid() && model == m && maximumContext == context && maximumPrefill == prefill
      ensures history == [] && fresh(kv) && fresh(execution) && fresh(workspace)
    {
      model, maximumContext, maximumPrefill := m, context, prefill;
      kv := new F[Times(|m.layers|, 2 * CacheFloats(m.spec, context))](_ => m.fl.zero);
      execution := new F[Times(prefill, m.spec.hiddenSize) + m.spec.hiddenSize + m.spec.vocabularySize](_ => m.fl.zero);
      workspace := new F[RequiredWorkspace(m.spec, prefill, context)](_ => m.fl.zero);
      positions := seq(prefill, _ => 0);
      contextLength, history := 0, [];
      new;
      EmptyCache(model, kv[..], maximumContext);
    }

    /** Room for a decoder with these limits, or an error for limits that the model does not allow. */
    static method Create(m: Model<F>, context: nat, prefill: nat) returns (r: Result<CpuSmolLm2<F>>)
      requires ModelValid(m)
      ensures r.Success? <==> 0 < context <= m.spec.maxPositions && 0 < prefill <= context
      ensures r.Success? ==> fresh(r.value) && r.value.Valid() && r.value.model == m && r.value.history == []
      ensures r.Success? ==> r.value.maximumContext == context && r.value.maximumPrefill == prefill
      ensures r.Failure? ==> r.error == InvalidArgument
    {
      if context == 0 || context > m.spec.maxPositions || prefill == 0 || prefill > context {
        return Failure(InvalidArgument);
      }
      var decoder := new CpuSmolLm2(m, context, prefill);
      r := Success(decoder);
    }

    method RunLayer(ghost longer: seq<nat>, rows: nat, layer: nat) returns (status: Status)
      requires Loaded() && Tokens(model, longer) && 0 < rows <= maximumPrefill
        && contextLength + rows == |longer| <= maximumContext
      requires PositionsFrom(positions[..rows], contextLength, model.spec.maxPositions) && layer < |model.layers|
      requires Times(rows, model.spec.hiddenSize) <= execution.Length
      requires Rows(execution[..], 0, model.spec.hiddenSize, rows) == Hidden(model, longer, layer)[contextLength..]
      requires CacheHolds(model, longer, kv[..], maximumContext, contextLength, layer)
      modifies kv, execution, workspace
      ensures status == OK
      ensures Rows(execution[..], 0, model.spec.hiddenSize, rows) == Hidden(model, longer, layer + 1)[contextLength..]
      ensures CacheHolds(model, longer, kv[..], maximumContext, contextLength, layer + 1)
    {
      hide Hidden, Rows, CacheHolds, LayerDone, CacheExtended, LayerHolds, WeightsShaped, Times;
      LayerValid(model, layer);
      LayerInside(model.spec, maximumContext, layer, |model.layers|, kv.Length);
      WorkspaceMonotone(model.spec, rows, maximumPrefill, maximumContext);
      ghost var before := kv[..];
      status := DecoderLayer(model.fl, model.spec, model.layers[layer], execution, rows, kv,
                             KeyBase(model.spec, maximumContext, layer), ValueBase(model.spec, maximumContext, layer),
                             positions[..rows], contextLength + rows, maximumContext, workspace);
      DoneExtends(model.fl, model.spec, model.layers[layer], Hidden(model, longer, layer)[contextLength..],
                  contextLength, execution[..],
                  before, kv[..], KeyBase(model.spec, maximumContext, layer),
                    ValueBase(model.spec, maximumContext, layer), maximumContext);
      LayerAdvances(model, longer, before, kv[..], maximumContext, contextLength, layer);
      RowsAdvance(model, longer, execution[..], before, kv[..], maximumContext, contextLength, layer);
    }

    method RunLayers(ghost longer: seq<nat>, rows: nat) returns (status: Status)
      requires Loaded() && Tokens(model, longer) && 0 < rows <= maximumPrefill
        && contextLength + rows == |longer| <= maximumContext
      requires PositionsFrom(positions[..rows], contextLength, model.spec.maxPositions)
      requires Times(rows, model.spec.hiddenSize) <= execution.Length
      requires Rows(execution[..], 0, model.spec.hiddenSize, rows) == Hidden(model, longer, 0)[contextLength..]
      requires CacheHolds(model, longer, kv[..], maximumContext, contextLength, 0)
      modifies kv, execution, workspace
      ensures status == OK
      ensures Rows(execution[..], 0, model.spec.hiddenSize, rows)
        == Hidden(model, longer, |model.layers|)[contextLength..]
      ensures CacheHolds(model, longer, kv[..], maximumContext, contextLength, |model.layers|)
    {
      hide Hidden, Rows, CacheHolds, PositionsFrom, ModelValid, Times;
      status := OK;
      for layer := 0 to |model.layers|
        invariant status == OK
        invariant Rows(execution[..], 0, model.spec.hiddenSize, rows) == Hidden(model, longer, layer)[contextLength..]
        invariant CacheHolds(model, longer, kv[..], maximumContext, contextLength, layer)
      {
        status := RunLayer(longer, rows, layer);
        if status != OK {
          return;
        }
      }
    }
  
    /** Copy the embeddings of the new tokens to the hidden rows and note their positions. */
    method Embed(tokens: seq<nat>, ghost longer: seq<nat>)
      requires Loaded() && 0 < |tokens| <= maximumPrefill && Tokens(model, longer) && |longer| <= maximumContext
      requires |longer| == contextLength + |tokens| && longer[contextLength..] == tokens
      modifies this`positions, execution
      ensures Loaded() && PositionsFrom(positions[..|tokens|], contextLength, model.spec.maxPositions)
      ensures Times(|tokens|, model.spec.hiddenSize) <= execution.Length
      ensures Rows(execution[..], 0, model.spec.hiddenSize, |tokens|) == Hidden(model, longer, 0)[contextLength..]
    {
      hide WeightsShaped;
      var hs := model.spec.hiddenSize;
      ghost var ys, before := Hidden(model, longer, 0)[contextLength..], execution[..];
      TimesMonotone(|tokens|, maximumPrefill, hs);
      RowsStart(before, 0, hs, ys, 0, 0);
      for t := 0 to |tokens|
        invariant Loaded()
        invariant RowsDone(before, execution[..], 0, hs, ys, t, 0, 0)
        invariant PositionsFrom(positions[..t], contextLength, model.spec.maxPositions)
      {
        assert tokens[t] == longer[contextLength + t] < model.spec.vocabularySize;
        CopyEmbedding(tokens[t], t, |tokens|, before, ys);
        positions := positions[t := contextLength + t];
      }
      RowsFinish(before, execution[..], 0, hs, ys, 0, 0);
    }

    method CopyEmbedding(token: nat, t: nat, rows: nat, ghost before: seq<F>, ghost ys: seq<seq<F>>)
      requires Loaded() && token < model.spec.vocabularySize && t < rows == |ys|
        && Times(rows, model.spec.hiddenSize) <= execution.Length
      requires ys[t] == model.embedding[token] && |ys[t]| == model.spec.hiddenSize
      requires RowsDone(before, execution[..], 0, model.spec.hiddenSize, ys, t, 0, 0)
      modifies execution
      ensures RowsDone(before, execution[..], 0, model.spec.hiddenSize, ys, t + 1, 0, 0)
    {
      hide RowsDone, WeightsShaped, OutsideBoth;
      var hs, row := model.spec.hiddenSize, model.embedding[token];
      var at := Times(t, hs);
      RowFits(0, hs, rows, t, execution.Length);
      ghost var s := execution[..];
      hide CellsDone;
      CellsStart(s, at, row);
      for d := 0 to hs
        invariant CellsDone(s, execution[..], at, row, d)
      {
        CellsStep(s, execution[..], at, row, d);
        execution[at + d] := row[d];
      }
      CellsFinish(s, execution[..], at, row);
      AsBoth(s, execution[..], at, hs, 0, 0);
      NoOverlap(0, Times(rows, hs));
      RowsStep(before, s, execution[..], 0, hs, ys, t, 0, 0);
    }

    function LogitsAt(): nat { Times(maximumPrefill, model.spec.hiddenSize) + model.spec.hiddenSize }

    /** The logits of the last call that got as far as computing them. */
    function CurrentLogits(): (r: seq<F>)
      requires Loaded()
      reads this, execution
      ensures |r| == model.spec.vocabularySize
    {
      execution[LogitsAt()..LogitsAt() + model.spec.vocabularySize]
    }

    /** Normalise the last hidden row and project it to the logits. */
    method Head(ghost longer: seq<nat>, rows: nat)
      requires Loaded() && Tokens(model, longer) && 0 < rows <= maximumPrefill && contextLength + rows == |longer|
      requires Times(rows, model.spec.hiddenSize) <= execution.Length
      requires Rows(execution[..], 0, model.spec.hiddenSize, rows)
        == Hidden(model, longer, |model.layers|)[contextLength..]
      modifies execution
      ensures CurrentLogits() == Logits(model, longer)
    {
      hide Hidden, RmsRow, LinearRow, WeightsShaped, Times, RequiredWorkspace, ConstantsUsable, Outside;
      var hs, vs := model.spec.hiddenSize, model.spec.vocabularySize;
      var normalizedAt := Times(maximumPrefill, hs);
      RowFits(0, hs, maximumPrefill, rows - 1, normalizedAt);
      RowOf(execution[..], 0, hs, rows, rows - 1);
      CpuOperators.RmsOne(model.fl, execution, Times(rows - 1, hs), model.finalNorm, model.spec.epsilon, execution,
                          normalizedAt);
      CpuOperators.LinearOne(model.fl, execution, normalizedAt, hs, model.embedding, execution, LogitsAt());
    }

    /** Scan the logits for the best token; `None` if one of them is not finite. */
    method Scan() returns (best: Option<GreedyToken<F>>)
      requires Loaded()
      ensures best.Some? <==> AllFinite(model.fl, CurrentLogits(), model.spec.vocabularySize)
      ensures best.Some? ==>
        best.value == Greedy(model.fl, CurrentLogits(), model.spec.vocabularySize)
    {
      hide WeightsShaped;
      var fl, at := model.fl, LogitsAt();
      ghost var logits := CurrentLogits();
      var bestToken, top, runnerUp := 0, fl.lowest, fl.lowest;
      for token := 0 to model.spec.vocabularySize
        invariant AllFinite(fl, logits, token)
        invariant Greedy(fl, logits, token) == GreedyToken(bestToken, top, runnerUp)
      {
        var value := execution[at + token];
        assert value == logits[token];
        if !fl.finite(value) {
          return None;
        }
        if fl.less(top, value) {
          runnerUp, top, bestToken := top, value, token;
        } else if fl.less(runnerUp, value) {
          runnerUp := value;
        }
      }
      best := Some(GreedyToken(bestToken, top, runnerUp));
    }

    /**
     * Feed tokens. The call succeeds exactly when the cache-free decoder accepts them, it then returns
     * the greedy choice for the whole history, and a failed call leaves the history as it was.
     */
    method Forward(tokens: seq<nat>) returns (r: Result<GreedyToken<F>>)
      requires Valid()
      modifies this, kv, execution, workspace
      ensures Valid()
      ensures r.Success? <==> Accepted(model, Bounds(), old(history), tokens)
      ensures r.Success? ==> history == old(history) + tokens && Tokens(model, history)
      ensures r.Success? ==> r.value == Greedy(model.fl, Logits(model, history), model.spec.vocabularySize)
      ensures r.Success? ==> CurrentLogits() == Logits(model, history)
      ensures r.Failure? ==> history == old(history) && r.error == InvalidArgument
    {
      hide ModelValid, CacheHolds, Hidden, Logits, Times;
      if |tokens| == 0 || |tokens| > maximumPrefill || |tokens| > maximumContext - contextLength {
        return Failure(InvalidArgument);
      }
      var known := CheckTokens(tokens);
      if !known {
        return Failure(InvalidArgument);
      }
      ghost var longer := history + tokens;
      TokensConcat(model, history, tokens);
      CacheForLonger(model, history, longer, kv[..], maximumContext);
      Embed(tokens, longer);
      var status := RunLayers(longer, |tokens|);
      if status != OK {
        return Failure(InvalidArgument);
      }
      Head(longer, |tokens|);
      var best := Scan();
      if best.None? {
        CacheForShorter(model, history, longer, kv[..], maximumContext, |model.layers|);
        return Failure(InvalidArgument);
      }
      CacheComplete(model, longer, kv[..], maximumContext, contextLength);
      contextLength, history := contextLength + |tokens|, longer;
      r := Success(best.value);
    }

    /** The prompt, on an empty context. */
    method RunPrefill(tokens: seq<nat>) returns (r: Result<GreedyToken<F>>)
      requires Valid()
      modifies this, kv, execution, workspace
      ensures Valid()
      ensures Agrees(model, Bounds(), old(history), history, Prefill(tokens),
                     if r.Success? then Answered(r.value, CurrentLogits()) else Refused)
      ensures r.Failure? ==> r.error == InvalidArgument
    {
      hide ModelValid, CacheHolds, Logits, Accepted, Greedy;
      if contextLength != 0 || |tokens| == 0 || |tokens| > maximumPrefill {
        return Failure(InvalidArgument);
      }
      r := Forward(tokens);
    }

    /** One more token, on a non-empty context. */
    method RunDecode(token: nat) returns (r: Result<GreedyToken<F>>)
      requires Valid()
      modifies this, kv, execution, workspace
      ensures Valid()
      ensures Agrees(model, Bounds(), old(history), history, Decode(token),
                     if r.Success? then Answered(r.value, CurrentLogits()) else Refused)
      ensures r.Failure? ==> r.error == InvalidArgument
    {
      hide ModelValid, CacheHolds, Logits, Accepted, Greedy;
      if contextLength == 0 {
        return Failure(InvalidArgument);
      }
      r := Forward([token]);
    }

    /** Clear the cache and start over. */
    method RunReset()
      requires Valid()
      modifies this, kv
      ensures Valid() && Agrees(model, Bounds(), old(history), history, Reset, Cleared)
    {
      hide ModelValid, CacheHolds, Logits;
      for i := 0 to kv.Length
        invariant Loaded()
        modifies kv
      {
        kv[i] := model.fl.zero;
      }
      contextLength, history := 0, [];
      EmptyCache(model, kv[..], maximumContext);
    }

    /** Any sequence of calls gets the answers, token and logits, and ends in the history of the cache-free decoder. */
    method Run(calls: seq<Call>) returns (answers: seq<Answer<F>>)
      requires Valid()
      modifies this, kv, execution, workspace
      ensures Valid() && Tokens(model, old(history))
      ensures answers == Outcomes(model, Bounds(), old(history), calls)
      ensures history == AfterAll(model, Bounds(), old(history), calls)
    {
      hide ModelValid, CacheHolds, Outcome, After;
      answers := [];
      assert Tokens(model, history);
      for k := 0 to |calls|
        invariant Valid()
        invariant answers == Outcomes(model, Bounds(), old(history), calls[..k])
        invariant history == AfterAll(model, Bounds(), old(history), calls[..k])
      {
        AfterSnoc(model, Bounds(), old(history), calls[..k], calls[k]);
        assert calls[..k + 1] == calls[..k] + [calls[k]];
        var answer := RunCall(calls[k]);
        answers := answers + [answer];
      }
      assert calls[..|calls|] == calls;
    }

    method RunCall(call: Call) returns (answer: Answer<F>)
      requires Valid()
      modifies this, kv, execution, workspace
      ensures Valid() && Agrees(model, Bounds(), old(history), history, call, answer)
    {
      match call {
        case Prefill(tokens) =>
          var r := RunPrefill(tokens);
          answer := if r.Success? then Answered(r.value, CurrentLogits()) else Refused;
        case Decode(token) =>
          var r := RunDecode(token);
          answer := if r.Success? then Answered(r.value, CurrentLogits()) else Refused;
        case Reset =>
          RunReset();
          answer := Cleared;
      }
    }

    /** Two decoders of one model, with their own buffers. */
    ghost predicate Beside(other: CpuSmolLm2<F>) {
      && other != this && other.model == model
      && {kv, execution, workspace} !! {other.kv, other.execution, other.workspace}
    }

    /**
     * Failed calls do not affect later results: a second decoder that gets only the calls that did not
     * fail on this one gives the same answers, token and logits, and ends in the same history.
     */
    method RunAndReplay(other: CpuSmolLm2<F>, calls: seq<Call>)
      returns (answers: seq<Answer<F>>, replayed: seq<Answer<F>>)
      requires Valid() && other.Valid() && Beside(other)
      requires other.Bounds() == Bounds() && other.history == history
      modifies this, kv, execution, workspace
      modifies other, other.kv, other.execution, other.workspace
      ensures Valid() && other.Valid() && other.history == history
      ensures Tokens(model, old(history)) && answers == Outcomes(model, Bounds(), old(history), calls)
      ensures replayed == Given(answers)
    {
      hide ModelValid, CacheHolds, Outcome, After, Outcomes, AfterAll;
      assert Tokens(model, history);
      FailuresInvisible(model, Bounds(), history, calls);
      answers := Run(calls);
      replayed := other.Run(Effective(calls, answers));
    }

    /**
     * Incremental decoding agrees with evaluating the whole text: this decoder gets a prompt and then one
     * token at a time, the other one the whole text at once. If the prompt fits the prefill limit and every
     * prefix is answered at once, then no call on this decoder fails, neither does the other one, and both
     * end with the same answer and the same history.
     */
    method RunBothWays(other: CpuSmolLm2<F>, prompt: seq<nat>, text: seq<nat>)
      returns (answers: seq<Answer<F>>, whole: seq<Answer<F>>)
      requires Valid() && other.Valid() && Beside(other) && history == [] && other.history == []
      requires other.maximumContext == other.maximumPrefill == maximumContext
      modifies this, kv, execution, workspace
      modifies other, other.kv, other.execution, other.workspace
      ensures Valid() && other.Valid() && |answers| == |text| + 1 && |whole| == 1
      ensures NoneRefused(answers) <==>
        |prompt| <= maximumPrefill && PrefixesAnswered(model, maximumContext, prompt, text)
      ensures NoneRefused(answers) ==>
        && whole[0] == answers[|text|] && whole[0].Answered?
        && history == other.history == prompt + text
    {
      hide ModelValid, CacheHolds, Outcome, After, Outcomes, AfterAll, PrefixesAnswered, Whole;
      assert Tokens(model, []);
      IncrementalEqualsWhole(model, Bounds(), prompt, text);
      answers := Run(OneByOne(prompt, text));
      WholeCall(model, maximumContext, prompt + text);
      whole := other.Run([Prefill(prompt + text)]);
      assert text[..|text|] == text;
    }

    method CheckTokens(tokens: seq<nat>) returns (known: bool)
      ensures known <==> Tokens(model, tokens)
    {
      for t := 0 to |tokens|
        invariant Tokens(model, tokens[..t])
      {
        if tokens[t] >= model.spec.vocabularySize {
          return false;
        }
      }
      assert tokens[..|tokens|] == tokens;
      known := true;
    }
  }

  lemma NoOverlap(at: nat, n: nat)
    ensures Apart(at, n, 0, 0)
  {
  }

  lemma DoneExtends<F>(fl: Ops<F>, s: Spec<F>, w: LayerWeights<F>, xs: seq<seq<F>>, start: nat, hidden: seq<F>,
                       before: seq<F>, cache: seq<F>, keyBase: nat, valueBase: nat, maximumContext: nat)
    requires SpecValid(s) && WeightsShaped(w, s) && IsMatrix(xs, |xs|, s.hiddenSize) && start + |xs| <= maximumContext
    requires keyBase + Times(maximumContext, KvWidth(s.heads)) <= |before| == |cache|
    requires valueBase + Times(maximumContext, KvWidth(s.heads)) <= |before|
    requires Times(|xs|, s.hiddenSize) <= |hidden|
    requires LayerDone(fl, s, w, xs, start, hidden, before, cache, keyBase, valueBase, maximumContext)
    ensures CacheExtended(fl, s, w, xs, start, before, cache, keyBase, valueBase, maximumContext)
  {
    hide CacheExtended, Rows, Slots, LayerRows;
  }

  lemma EmptyCache<F>(m: Model<F>, cache: seq<F>, maximumContext: nat)
    requires ModelValid(m) && Times(|m.layers|, 2 * CacheFloats(m.spec, maximumContext)) <= |cache|
    ensures Tokens(m, []) && CacheHolds(m, [], cache, maximumContext, 0, 0)
  {
    hide Keys, Values;
    forall l | 0 <= l < |m.layers| ensures LayerState(m, [], cache, maximumContext, 0, 0, l) {
      LayerInside(m.spec, maximumContext, l, |m.layers|, |cache|);
    }
  }
}
