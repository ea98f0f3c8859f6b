/**
 * What the CPU operators compute for one row, over an uninterpreted floating-point type: every
 * sum runs in index order, as the loops do, so equalities are exact and need no rounding theory.
 */
module DecoderRows {

  /** The floating-point operations the decoder uses; nothing is assumed about them. */
  datatype Ops<!F> = Ops(
    zero: F,
    one: F,
    lowest: F,
    add: (F, F) -> F,
    sub: (F, F) -> F,
    mul: (F, F) -> F,
    div: (F, F) -> F,
    neg: F -> F,
    exp: F -> F,
    sqrt: F -> F,
    sin: F -> F,
    cos: F -> F,
    pow: (F, F) -> F,
    ofNat: nat -> F,
    less: (F, F) -> bool,
    finite: F -> bool)

  // ---------- Products of extents ----------

  /** `n * w`, in the additive form that address arithmetic needs. */
  function Times(n: nat, w: nat): nat {
    if n == 0 then 0 else Times(n - 1, w) + w
  }

  lemma {:induction false} TimesIsProduct(n: nat, w: nat)
    ensures Times(n, w) == n * w
  {
    if n == 0 {
    } else {
      TimesIsProduct(n - 1, w);
      assert n * w == (n - 1) * w + w;
    }
  }

  lemma {:induction false} TimesMonotone(m: nat, n: nat, w: nat)
    requires m <= n
    ensures Times(m, w) <= Times(n, w)
  {
    if m < n { TimesMonotone(m, n - 1, w); }
  }

  /** Row `r` of `n` rows lies inside them. */
  lemma RowInside(r: nat, n: nat, w: nat)
    requires r < n
    ensures Times(r, w) + w <= Times(n, w)
  {
    TimesMonotone(r + 1, n, w);
  }

  lemma {:induction false} TimesSum(m: nat, n: nat, w: nat)
    ensures Times(m + n, w) == Times(m, w) + Times(n, w)
  {
    if n == 0 {
    } else {
      TimesSum(m, n - 1, w);
    }
  }

  lemma {:induction false} TimesNested(n: nat, m: nat, w: nat)
    ensures Times(Times(n, m), w) == Times(n, Times(m, w))
  {
    if n == 0 {
    } else {
      TimesNested(n - 1, m, w);
      TimesSum(Times(n - 1, m), m, w);
    }
  }

  // ---------- Rows ----------

  type Row<F> = seq<F>

  /** `rows` rows of the same width. */
  predicate IsMatrix<F>(m: seq<seq<F>>, rows: nat, width: nat) {
    |m| == rows && forall r :: 0 <= r < rows ==> |m[r]| == width
  }

  /** The sum of the first `n` products, in order. */
  ghost function Dot<F>(fl: Ops<F>, a: Row<F>, b: Row<F>, n: nat): F
    requires n <= |a| && n <= |b|
  {
    if n == 0 then fl.zero else fl.add(Dot(fl, a, b, n - 1), fl.mul(a[n - 1], b[n - 1]))
  }

  ghost function LinearRow<F>(fl: Ops<F>, x: Row<F>, weight: seq<seq<F>>): (r: Row<F>)
    requires IsMatrix(weight, |weight|, |x|)
    ensures |r| == |weight|
  {
    seq(|weight|, c requires 0 <= c < |weight| => Dot(fl, x, weight[c], |x|))
  }

  ghost function InverseRms<F>(fl: Ops<F>, sumSquares: F, width: nat, epsilon: F): F {
    fl.div(fl.one, fl.sqrt(fl.add(fl.div(sumSquares, fl.ofNat(width)), epsilon)))
  }

  ghost function RmsRow<F>(fl: Ops<F>, x: Row<F>, weight: Row<F>, epsilon: F): (r: Row<F>)
    requires |weight| == |x|
    ensures |r| == |x|
  {
    var inverse := InverseRms(fl, Dot(fl, x, x, |x|), |x|, epsilon);
    seq(|x|, c requires 0 <= c < |x| => fl.mul(fl.mul(x[c], inverse), weight[c]))
  }

  ghost function AddRow<F>(fl: Ops<F>, a: Row<F>, b: Row<F>): (r: Row<F>)
    requires |a| == |b|
    ensures |r| == |a|
  {
    seq(|a|, c requires 0 <= c < |a| => fl.add(a[c], b[c]))
  }

  /** The gated activation: silu of the gate, times the other branch. */
  ghost function Gated<F>(fl: Ops<F>, gate: F, up: F): F {
    fl.mul(fl.div(gate, fl.add(fl.one, fl.exp(fl.neg(gate)))), up)
  }

  ghost function GateRow<F>(fl: Ops<F>, gate: Row<F>, up: Row<F>): (r: Row<F>)
    requires |gate| == |up|
    ensures |r| == |gate|
  {
    seq(|gate|, c requires 0 <= c < |gate| => Gated(fl, gate[c], up[c]))
  }

  // ---------- Rotary positions ----------

  ghost function Angle<F>(fl: Ops<F>, dimension: nat, headDim: nat, position: nat, theta: F): F {
    fl.div(fl.ofNat(position), fl.pow(theta, fl.div(fl.ofNat(2 * dimension), fl.ofNat(headDim))))
  }

  /** One head: each pair `(d, d + half)` is rotated by the angle of its dimension and position. */
  ghost function RopeHead<F>(fl: Ops<F>, x: Row<F>, position: nat, theta: F): (r: Row<F>)
    requires |x| % 2 == 0
    ensures |r| == |x|
  {
    var half := |x| / 2;
    seq(|x|, i requires 0 <= i < |x| =>
      if i < half then
        fl.sub(fl.mul(x[i], fl.cos(Angle(fl, i, |x|, position, theta))),
               fl.mul(x[i + half], fl.sin(Angle(fl, i, |x|, position, theta))))
      else
        fl.add(fl.mul(x[i], fl.cos(Angle(fl, i - half, |x|, position, theta))),
               fl.mul(x[i - half], fl.sin(Angle(fl, i - half, |x|, position, theta)))))
  }

  /** The block of one head in a row of heads. */
  ghost function Head<F>(x: Row<F>, head: nat, headDim: nat): (r: Row<F>)
    requires Times(head, headDim) + headDim <= |x|
    ensures |r| == headDim
  {
    x[Times(head, headDim)..Times(head, headDim) + headDim]
  }

  /** The blocks one after the other. */
  ghost function Concat<F>(blocks: seq<seq<F>>): seq<F> {
    if blocks == [] then [] else Concat(blocks[..|blocks| - 1]) + blocks[|blocks| - 1]
  }

  lemma {:induction false} ConcatLength<F>(blocks: seq<seq<F>>, n: nat, w: nat)
    requires IsMatrix(blocks, n, w)
    ensures |Concat(blocks)| == Times(n, w)
  {
    if n == 0 {
    } else {
      ConcatLength(blocks[..n - 1], n - 1, w);
    }
  }

  ghost function RopeHeads<F>(fl: Ops<F>, x: Row<F>, heads: nat, headDim: nat, position: nat,
                              theta: F): (r: seq<seq<F>>)
    requires |x| == Times(heads, headDim) && headDim % 2 == 0
    ensures IsMatrix(r, heads, headDim)
  {
    seq(heads, k requires 0 <= k < heads =>
      RowInside(k, heads, headDim);
      RopeHead(fl, Head(x, k, headDim), position, theta))
  }

  /** A row of heads, head after head. */
  ghost function RopeRow<F>(fl: Ops<F>, x: Row<F>, heads: nat, headDim: nat, position: nat, theta: F): (r: Row<F>)
    requires |x| == Times(heads, headDim) && headDim % 2 == 0
    ensures |r| == |x|
  {
    ConcatLength(RopeHeads(fl, x, heads, headDim, position, theta), heads, headDim);
    Concat(RopeHeads(fl, x, heads, headDim, position, theta))
  }

  // ---------- Attention ----------

  ghost function Larger<F>(fl: Ops<F>, a: F, b: F): F {
    if fl.less(a, b) then b else a
  }

  ghost function Scale<F>(fl: Ops<F>, headDim: nat): F {
    fl.div(fl.one, fl.sqrt(fl.ofNat(headDim)))
  }

  /** The scaled products of a query head with the same head of every key. */
  ghost function Scores<F>(fl: Ops<F>, query: Row<F>, keys: seq<seq<F>>): (r: Row<F>)
    requires IsMatrix(keys, |keys|, |query|)
    ensures |r| == |keys|
  {
    seq(|keys|, k requires 0 <= k < |keys| => fl.mul(Dot(fl, query, keys[k], |query|), Scale(fl, |query|)))
  }

  /** The largest of the first `n` scores. */
  ghost function Largest<F>(fl: Ops<F>, scores: Row<F>, n: nat): F
    requires n <= |scores|
  {
    if n == 0 then fl.lowest else Larger(fl, Largest(fl, scores, n - 1), scores[n - 1])
  }

  ghost function Total<F>(fl: Ops<F>, x: Row<F>, n: nat): F
    requires n <= |x|
  {
    if n == 0 then fl.zero else fl.add(Total(fl, x, n - 1), x[n - 1])
  }

  ghost function Exponentials<F>(fl: Ops<F>, scores: Row<F>): (r: Row<F>)
    ensures |r| == |scores|
  {
    seq(|scores|, k requires 0 <= k < |scores| => fl.exp(fl.sub(scores[k], Largest(fl, scores, |scores|))))
  }

  ghost function Softmax<F>(fl: Ops<F>, scores: Row<F>): (r: Row<F>)
    ensures |r| == |scores|
  {
    var e := Exponentials(fl, scores);
    seq(|scores|, k requires 0 <= k < |scores| => fl.mul(e[k], fl.div(fl.one, Total(fl, e, |e|))))
  }

  /** Component `d` of the values, weighted by the first `n` probabilities. */
  ghost function Weighted<F>(fl: Ops<F>, probabilities: Row<F>, values: seq<seq<F>>, d: nat, n: nat): F
    requires n <= |probabilities| && n <= |values| && forall k :: 0 <= k < n ==> d < |values[k]|
  {
    if n == 0 then fl.zero
    else fl.add(Weighted(fl, probabilities, values, d, n - 1), fl.mul(probabilities[n - 1], values[n - 1][d]))
  }

  /** The values weighted by the probabilities, component by component. */
  ghost function WeightedRow<F>(fl: Ops<F>, probabilities: Row<F>, values: seq<seq<F>>, width: nat): (r: Row<F>)
    requires IsMatrix(values, |probabilities|, width)
    ensures |r| == width
  {
    seq(width, d requires 0 <= d < width => Weighted(fl, probabilities, values, d, |values|))
  }

  ghost function AttendHead<F>(fl: Ops<F>, query: Row<F>, keys: seq<seq<F>>, values: seq<seq<F>>): (r: Row<F>)
    requires IsMatrix(keys, |keys|, |query|) && IsMatrix(values, |keys|, |query|)
    ensures |r| == |query|
  {
    WeightedRow(fl, Softmax(fl, Scores(fl, query, keys)), values, |query|)
  }

  /** The same head of every row. */
  ghost function HeadsOf<F>(rows: seq<seq<F>>, head: nat, headDim: nat, width: nat): (r: seq<seq<F>>)
    requires IsMatrix(rows, |rows|, width) && Times(head, headDim) + headDim <= width
    ensures IsMatrix(r, |rows|, headDim)
  {
    seq(|rows|, k requires 0 <= k < |rows| => Head(rows[k], head, headDim))
  }

  /** The sizes of the attention: every `groups` query heads share one key and value head. */
  datatype Heads = Heads(query: nat, kv: nat, dim: nat)

  predicate Grouped(h: Heads) {
    h.kv > 0 && h.query > 0 && h.dim > 0 && h.query % h.kv == 0
  }

  function QueryWidth(h: Heads): nat { Times(h.query, h.dim) }

  function KvWidth(h: Heads): nat { Times(h.kv, h.dim) }

  ghost function KvHead(h: Heads, head: nat): nat
    requires Grouped(h)
  {
    GroupsPositive(h);
    head / (h.query / h.kv)
  }

  lemma GroupsPositive(h: Heads)
    requires Grouped(h)
    ensures h.query / h.kv > 0 && h.query == h.query / h.kv * h.kv
  {
  }

  lemma KvHeadInside(h: Heads, head: nat)
    requires Grouped(h) && head < h.query
    ensures KvHead(h, head) < h.kv
    ensures Times(KvHead(h, head), h.dim) + h.dim <= KvWidth(h)
    ensures Times(head, h.dim) + h.dim <= QueryWidth(h)
  {
    GroupsPositive(h);
    DivisionBelow(head, h.query / h.kv, h.kv);
    RowInside(KvHead(h, head), h.kv, h.dim);
    RowInside(head, h.query, h.dim);
  }

  lemma DivisionBelow(a: nat, g: nat, n: nat)
    requires g > 0 && a < g * n
    ensures a / g < n
  {
    assert a == a / g * g + a % g;
    ProductMonotone(n, a / g, g);
  }

  lemma ProductMonotone(a: nat, b: nat, c: nat)
    ensures a <= b ==> a * c <= b * c
  {
  }

  /** Each query head attends to its key and value head of every row of its context. */
  ghost function AttendHeads<F>(fl: Ops<F>, h: Heads, query: Row<F>, keys: seq<seq<F>>,
                                values: seq<seq<F>>): (r: seq<seq<F>>)
    requires Grouped(h) && |query| == QueryWidth(h)
    requires IsMatrix(keys, |keys|, KvWidth(h)) && IsMatrix(values, |keys|, KvWidth(h))
    ensures IsMatrix(r, h.query, h.dim)
  {
    seq(h.query, k requires 0 <= k < h.query =>
      KvHeadInside(h, k);
      AttendHead(fl, Head(query, k, h.dim),
                 HeadsOf(keys, KvHead(h, k), h.dim, KvWidth(h)),
                 HeadsOf(values, KvHead(h, k), h.dim, KvWidth(h))))
  }

  ghost function AttendRow<F>(fl: Ops<F>, h: Heads, query: Row<F>, keys: seq<seq<F>>, values: seq<seq<F>>): (r: Row<F>)
    requires Grouped(h) && |query| == QueryWidth(h)
    requires IsMatrix(keys, |keys|, KvWidth(h)) && IsMatrix(values, |keys|, KvWidth(h))
    ensures |r| == QueryWidth(h)
  {
    ConcatLength(AttendHeads(fl, h, query, keys, values), h.query, h.dim);
    Concat(AttendHeads(fl, h, query, keys, values))
  }
}
