/** The portable loops of the CPU operators over flat buffers. */
module CpuOperators {
  import opened DecoderRows
  import opened DecoderMemory

  // ---------- The operators on several rows ----------

  ghost function LinearRows<F>(fl: Ops<F>, xs: seq<seq<F>>, width: nat, weight: seq<seq<F>>): (r: seq<seq<F>>)
    requires IsMatrix(xs, |xs|, width) && IsMatrix(weight, |weight|, width)
    ensures IsMatrix(r, |xs|, |weight|)
  {
    seq(|xs|, i requires 0 <= i < |xs| => LinearRow(fl, xs[i], weight))
  }

  ghost function RmsRows<F>(fl: Ops<F>, xs: seq<seq<F>>, weight: Row<F>, epsilon: F): (r: seq<seq<F>>)
    requires IsMatrix(xs, |xs|, |weight|)
    ensures IsMatrix(r, |xs|, |weight|)
  {
    seq(|xs|, i requires 0 <= i < |xs| => RmsRow(fl, xs[i], weight, epsilon))
  }

  ghost function RopeRows<F>(fl: Ops<F>, xs: seq<seq<F>>, heads: nat, headDim: nat, positions: seq<nat>,
                             theta: F): (r: seq<seq<F>>)
    requires IsMatrix(xs, |positions|, Times(heads, headDim)) && headDim % 2 == 0
    ensures IsMatrix(r, |positions|, Times(heads, headDim))
  {
    seq(|positions|, i requires 0 <= i < |positions| => RopeRow(fl, xs[i], heads, headDim, positions[i], theta))
  }

  /** Attention of consecutive query rows, each over the keys and values up to its own position. */
  ghost function AttendRows<F>(fl: Ops<F>, h: Heads, queries: seq<seq<F>>, start: nat, keys: seq<seq<F>>,
                               values: seq<seq<F>>): (r: seq<seq<F>>)
    requires Grouped(h) && IsMatrix(queries, |queries|, QueryWidth(h))
    requires IsMatrix(keys, start + |queries|, KvWidth(h)) && IsMatrix(values, start + |queries|, KvWidth(h))
    ensures IsMatrix(r, |queries|, QueryWidth(h))
  {
    seq(|queries|, i requires 0 <= i < |queries| =>
      AttendRow(fl, h, queries[i], keys[..start + i + 1], values[..start + i + 1]))
  }

  // ---------- Linear ----------

  method DotAt<F>(fl: Ops<F>, input: array<F>, at: nat, row: seq<F>) returns (sum: F)
    requires at + |row| <= input.Length
    ensures sum == Dot(fl, input[at..at + |row|], row, |row|)
  {
    sum := fl.zero;
    ghost var x := input[at..at + |row|];
    for d := 0 to |row|
      invariant sum == Dot(fl, x, row, d)
    {
      sum := fl.add(sum, fl.mul(input[at + d], row[d]));
    }
  }

  /** One more entry of the product of a row; the input may lie in the same buffer. */
  method LinearCell<F>(fl: Ops<F>, input: array<F>, inAt: nat, weight: seq<F>, output: array<F>, outAt: nat, c: nat,
                       ghost x: seq<F>, ghost before: seq<F>, ghost y: seq<F>)
    requires inAt + |weight| <= input.Length && |x| == |weight| && c < |y| && y[c] == Dot(fl, x, weight, |weight|)
    requires CellsDone(before, output[..], outAt, y, c) && outAt + |y| <= output.Length
    requires if input == output then inAt + |weight| <= |before| && x == before[inAt..inAt + |weight|]
             else x == input[inAt..inAt + |weight|]
    requires input == output ==> Apart(inAt, |weight|, outAt, |y|)
    modifies output
    ensures CellsDone(before, output[..], outAt, y, c + 1)
  {
    hide CellsDone, Dot;
    if input == output {
      SliceUnwritten(before, output[..], outAt, y, c, inAt, |weight|);
    }
    var sum := DotAt(fl, input, inAt, weight);
    CellsStep(before, output[..], outAt, y, c);
    output[outAt + c] := sum;
  }

  method LinearOne<F>(fl: Ops<F>, input: array<F>, inAt: nat, width: nat, weight: seq<seq<F>>, output: array<F>,
                      outAt: nat)
    requires inAt + width <= input.Length && outAt + |weight| <= output.Length
    requires IsMatrix(weight, |weight|, width)
    requires input == output ==> Apart(inAt, width, outAt, |weight|)
    modifies output
    ensures output[outAt..outAt + |weight|] == LinearRow(fl, old(input[inAt..inAt + width]), weight)
    ensures Outside(old(output[..]), output[..], outAt, |weight|)
  {
    hide Dot, CellsDone, Outside;
    ghost var x, before := input[inAt..inAt + width], output[..];
    ghost var y := LinearRow(fl, x, weight);
    CellsStart(before, outAt, y);
    for c := 0 to |weight|
      invariant input != output ==> input[inAt..inAt + width] == x
      invariant CellsDone(before, output[..], outAt, y, c)
    {
      LinearCell(fl, input, inAt, weight[c], output, outAt, c, x, before, y);
    }
    CellsFinish(before, output[..], outAt, y);
  }

  lemma LinearAt<F>(fl: Ops<F>, xs: seq<seq<F>>, width: nat, weight: seq<seq<F>>, r: nat)
    requires r < |xs| && IsMatrix(xs, |xs|, width) && IsMatrix(weight, |weight|, width)
    ensures LinearRows(fl, xs, width, weight)[r] == LinearRow(fl, xs[r], weight)
  {
  }

  /** One more row of the product. */
  method LinearNext<F>(fl: Ops<F>, input: array<F>, inAt: nat, rows: nat, width: nat, weight: seq<seq<F>>,
                       output: array<F>, outAt: nat, r: nat, ghost before: seq<F>, ghost xs: seq<seq<F>>)
    requires r < rows && inAt + Times(rows, width) <= input.Length && outAt + Times(rows, |weight|) <= output.Length
    requires IsMatrix(weight, |weight|, width)
    requires input == output ==> Apart(inAt, Times(rows, width), outAt, Times(rows, |weight|))
    requires Rows(input[..], inAt, width, rows) == xs
    requires RowsDone(before, output[..], outAt, |weight|, LinearRows(fl, xs, width, weight), r, 0, 0)
    modifies output
    ensures Rows(input[..], inAt, width, rows) == xs
    ensures RowsDone(before, output[..], outAt, |weight|, LinearRows(fl, xs, width, weight), r + 1, 0, 0)
  {
    hide LinearRow, LinearRows, Dot, RowsDone, Outside, OutsideBoth, Rows;
    RowFits(inAt, width, rows, r, input.Length);
    RowFits(outAt, |weight|, rows, r, output.Length);
    RowOf(input[..], inAt, width, rows, r);
    LinearAt(fl, xs, width, weight, r);
    ghost var s := output[..];
    if input == output {
      RowsApart(inAt, width, outAt, |weight|, rows, r);
    }
    LinearOne(fl, input, inAt + Times(r, width), width, weight, output, outAt + Times(r, |weight|));
    AsBoth(s, output[..], outAt + Times(r, |weight|), |weight|, 0, 0);
    RowsStep(before, s, output[..], outAt, |weight|, LinearRows(fl, xs, width, weight), r, 0, 0);
    if input == output {
      RowsStable(s, output[..], inAt, width, rows, outAt + Times(r, |weight|), |weight|);
    }
  }

  /** Every row of the input times the transposed weight. */
  method Linear<F>(fl: Ops<F>, input: array<F>, inAt: nat, rows: nat, width: nat, weight: seq<seq<F>>,
                   output: array<F>, outAt: nat)
    requires inAt + Times(rows, width) <= input.Length && outAt + Times(rows, |weight|) <= output.Length
    requires IsMatrix(weight, |weight|, width)
    requires input == output ==> Apart(inAt, Times(rows, width), outAt, Times(rows, |weight|))
    modifies output
    ensures Rows(output[..], outAt, |weight|, rows)
      == LinearRows(fl, old(Rows(input[..], inAt, width, rows)), width, weight)
    ensures Outside(old(output[..]), output[..], outAt, Times(rows, |weight|))
  {
    ghost var xs, before := Rows(input[..], inAt, width, rows), output[..];
    ghost var ys := LinearRows(fl, xs, width, weight);
    RowsStart(before, outAt, |weight|, ys, 0, 0);
    for r := 0 to rows
      invariant Rows(input[..], inAt, width, rows) == xs
      invariant RowsDone(before, output[..], outAt, |weight|, ys, r, 0, 0)
    {
      LinearNext(fl, input, inAt, rows, width, weight, output, outAt, r, before, xs);
    }
    RowsFinish(before, output[..], outAt, |weight|, ys, 0, 0);
    AsOne(before, output[..], outAt, Times(rows, |weight|), 0);
  }

  // ---------- RMS normalisation ----------

  method SumSquares<F>(fl: Ops<F>, input: array<F>, at: nat, n: nat) returns (sum: F)
    requires at + n <= input.Length
    ensures sum == Dot(fl, input[at..at + n], input[at..at + n], n)
  {
    ghost var x := input[at..at + n];
    sum := fl.zero;
    for c := 0 to n
      invariant sum == Dot(fl, x, x, c)
    {
      var value := input[at + c];
      sum := fl.add(sum, fl.mul(value, value));
    }
  }

  /** Scale one more entry of a row; the input may lie in the same buffer, or be the output. */
  method RmsCell<F>(fl: Ops<F>, input: array<F>, inAt: nat, inverse: F, scale: F, output: array<F>, outAt: nat, c: nat,
                    ghost x: seq<F>, ghost before: seq<F>, ghost y: seq<F>)
    requires inAt + |x| <= input.Length && |x| == |y| && c < |y| && y[c] == fl.mul(fl.mul(x[c], inverse), scale)
    requires CellsDone(before, output[..], outAt, y, c) && outAt + |y| <= output.Length
    requires if input == output then inAt + |x| <= |before| && x == before[inAt..inAt + |x|]
      else x == input[inAt..inAt + |x|]
    requires input == output ==> inAt == outAt || Apart(inAt, |x|, outAt, |y|)
    modifies output
    ensures CellsDone(before, output[..], outAt, y, c + 1)
  {
    hide CellsDone;
    if input == output {
      CellUnwritten(before, output[..], outAt, y, c, inAt + c);
    }
    assert input[inAt + c] == x[c];
    CellsStep(before, output[..], outAt, y, c);
    output[outAt + c] := fl.mul(fl.mul(input[inAt + c], inverse), scale);
  }

  method RmsOne<F>(fl: Ops<F>, input: array<F>, inAt: nat, weight: seq<F>, epsilon: F, output: array<F>, outAt: nat)
    requires inAt + |weight| <= input.Length && outAt + |weight| <= output.Length
    requires input == output ==> inAt == outAt || Apart(inAt, |weight|, outAt, |weight|)
    modifies output
    ensures output[outAt..outAt + |weight|] == RmsRow(fl, old(input[inAt..inAt + |weight|]), weight, epsilon)
    ensures Outside(old(output[..]), output[..], outAt, |weight|)
  {
    hide Dot, CellsDone, Outside;
    ghost var x, before := input[inAt..inAt + |weight|], output[..];
    ghost var y := RmsRow(fl, x, weight, epsilon);
    var sumSquares := SumSquares(fl, input, inAt, |weight|);
    var inverse := fl.div(fl.one, fl.sqrt(fl.add(fl.div(sumSquares, fl.ofNat(|weight|)), epsilon)));
    CellsStart(before, outAt, y);
    for c := 0 to |weight|
      invariant input != output ==> input[inAt..inAt + |weight|] == x
      invariant CellsDone(before, output[..], outAt, y, c)
    {
      RmsCell(fl, input, inAt, inverse, weight[c], output, outAt, c, x, before, y);
    }
    CellsFinish(before, output[..], outAt, y);
  }

  lemma RmsAt<F>(fl: Ops<F>, xs: seq<seq<F>>, weight: Row<F>, epsilon: F, r: nat)
    requires r < |xs| && IsMatrix(xs, |xs|, |weight|)
    ensures RmsRows(fl, xs, weight, epsilon)[r] == RmsRow(fl, xs[r], weight, epsilon)
  {
  }

  /** The rows of the input that have not been normalised yet are as they were, in place or not. */
  lemma RowUnread<F>(source: seq<F>, input: seq<F>, inAt: nat, w: nat, before: seq<F>, now: seq<F>, outAt: nat,
                     ys: seq<seq<F>>, r: nat, inPlace: bool)
    requires r < |ys| && RowsDone(before, now, outAt, w, ys, r, 0, 0)
    requires inAt + Times(|ys|, w) <= |source|
    requires if inPlace then source == before && input == now else input == source
    requires inPlace ==> inAt == outAt || Apart(inAt, Times(|ys|, w), outAt, Times(|ys|, w))
    ensures |input| == |source| && inAt + Times(r, w) + w <= |source|
    ensures input[inAt + Times(r, w)..inAt + Times(r, w) + w] == Rows(source, inAt, w, |ys|)[r]
  {
    RowInside(r, |ys|, w);
    RowOf(source, inAt, w, |ys|, r);
  }

  method RmsNext<F>(fl: Ops<F>, input: array<F>, inAt: nat, rows: nat, weight: seq<F>, epsilon: F, output: array<F>,
                    outAt: nat, r: nat, ghost before: seq<F>, ghost source: seq<F>)
    requires r < rows && inAt + Times(rows, |weight|) <= input.Length && outAt + Times(rows, |weight|) <= output.Length
    requires input == output ==> inAt == outAt || Apart(inAt, Times(rows, |weight|), outAt, Times(rows, |weight|))
    requires |source| == input.Length && if input == output then source == before else source == input[..]
    requires RowsDone(before, output[..], outAt, |weight|,
                      RmsRows(fl, Rows(source, inAt, |weight|, rows), weight, epsilon), r, 0, 0)
    modifies output
    ensures RowsDone(before, output[..], outAt, |weight|,
                     RmsRows(fl, Rows(source, inAt, |weight|, rows), weight, epsilon), r + 1, 0, 0)
  {
    hide RmsRow, RmsRows, RowsDone, Outside, OutsideBoth, Rows;
    ghost var xs := Rows(source, inAt, |weight|, rows);
    ghost var s, ys := output[..], RmsRows(fl, xs, weight, epsilon);
    RowFits(inAt, |weight|, rows, r, input.Length);
    RowFits(outAt, |weight|, rows, r, output.Length);
    RowUnread(source, input[..], inAt, |weight|, before, s, outAt, ys, r, input == output);
    RmsAt(fl, xs, weight, epsilon, r);
    if input == output {
      RowsApartOrSame(inAt, outAt, |weight|, rows, r);
    }
    RmsOne(fl, input, inAt + Times(r, |weight|), weight, epsilon, output, outAt + Times(r, |weight|));
    AsBoth(s, output[..], outAt + Times(r, |weight|), |weight|, 0, 0);
    RowsStep(before, s, output[..], outAt, |weight|, ys, r, 0, 0);
  }

  lemma RowsApartOrSame(inAt: nat, outAt: nat, width: nat, rows: nat, r: nat)
    requires r < rows && (inAt == outAt || Apart(inAt, Times(rows, width), outAt, Times(rows, width)))
    ensures inAt + Times(r, width) == outAt + Times(r, width)
      || Apart(inAt + Times(r, width), width, outAt + Times(r, width), width)
  {
    if inAt != outAt {
      RowsApart(inAt, width, outAt, width, rows, r);
    }
  }

  /** Every row divided by its root mean square and scaled, to a region apart or in place. */
  method RmsNorm<F>(fl: Ops<F>, input: array<F>, inAt: nat, rows: nat, weight: seq<F>, epsilon: F, output: array<F>,
                    outAt: nat)
    requires inAt + Times(rows, |weight|) <= input.Length && outAt + Times(rows, |weight|) <= output.Length
    requires input == output ==> inAt == outAt || Apart(inAt, Times(rows, |weight|), outAt, Times(rows, |weight|))
    modifies output
    ensures Rows(output[..], outAt, |weight|, rows)
      == RmsRows(fl, old(Rows(input[..], inAt, |weight|, rows)), weight, epsilon)
    ensures Outside(old(output[..]), output[..], outAt, Times(rows, |weight|))
  {
    ghost var source, before := input[..], output[..];
    ghost var ys := RmsRows(fl, Rows(source, inAt, |weight|, rows), weight, epsilon);
    RowsStart(before, outAt, |weight|, ys, 0, 0);
    for r := 0 to rows
      invariant input != output ==> input[..] == source
      invariant RowsDone(before, output[..], outAt, |weight|, ys, r, 0, 0)
    {
      RmsNext(fl, input, inAt, rows, weight, epsilon, output, outAt, r, before, source);
    }
    RowsFinish(before, output[..], outAt, |weight|, ys, 0, 0);
    AsOne(before, output[..], outAt, Times(rows, |weight|), 0);
  }

  // ---------- Rotary positions, in place ----------

  /** Both entries of a rotated pair. */
  lemma RopeEntries<F>(fl: Ops<F>, x: Row<F>, position: nat, theta: F, d: nat)
    requires |x| % 2 == 0 && d < |x| / 2
    ensures var cosine, sine := fl.cos(Angle(fl, d, |x|, position, theta)), fl.sin(Angle(fl, d, |x|, position, theta));
      && RopeHead(fl, x, position, theta)[d] == fl.sub(fl.mul(x[d], cosine), fl.mul(x[d + |x| / 2], sine))
      && RopeHead(fl, x, position, theta)[d + |x| / 2] == fl.add(fl.mul(x[d + |x| / 2], cosine), fl.mul(x[d], sine))
  {
  }

  /** The first `d` pairs are rotated. */
  ghost predicate PairsDone<F>(before: seq<F>, now: seq<F>, at: nat, x: Row<F>, y: Row<F>, d: nat) {
    && |x| == |y| && |x| % 2 == 0 && d <= |x| / 2 && at + |x| <= |now|
    && (forall i :: 0 <= i < |x| ==> now[at + i] == if i < d || |x| / 2 <= i < |x| / 2 + d then y[i] else x[i])
    && Outside(before, now, at, |x|)
  }

  lemma PairsStep<F>(before: seq<F>, s: seq<F>, at: nat, x: Row<F>, y: Row<F>, d: nat)
    requires PairsDone(before, s, at, x, y, d) && d < |x| / 2
    ensures at + d + |x| / 2 < |s| && s[at + d] == x[d] && s[at + d + |x| / 2] == x[d + |x| / 2]
    ensures PairsDone(before, s[at + d := y[d]][at + d + |x| / 2 := y[d + |x| / 2]], at, x, y, d + 1)
  {
    assert s[at + (d + |x| / 2)] == x[d + |x| / 2];
  }

  method RotatePair<F>(fl: Ops<F>, data: array<F>, i: nat, j: nat, cosine: F, sine: F)
    requires i < j < data.Length
    modifies data
    ensures data[..] == old(data[..])
      [i := fl.sub(fl.mul(old(data[i]), cosine), fl.mul(old(data[j]), sine))]
      [j := fl.add(fl.mul(old(data[j]), cosine), fl.mul(old(data[i]), sine))]
  {
    var first, second := data[i], data[j];
    data[i] := fl.sub(fl.mul(first, cosine), fl.mul(second, sine));
    data[j] := fl.add(fl.mul(second, cosine), fl.mul(first, sine));
  }

  method CosineAndSine<F>(fl: Ops<F>, d: nat, headDim: nat, position: nat, theta: F) returns (cosine: F, sine: F)
    ensures cosine == fl.cos(Angle(fl, d, headDim, position, theta))
    ensures sine == fl.sin(Angle(fl, d, headDim, position, theta))
  {
    var exponent := fl.div(fl.ofNat(2 * d), fl.ofNat(headDim));
    var angle := fl.div(fl.ofNat(position), fl.pow(theta, exponent));
    cosine, sine := fl.cos(angle), fl.sin(angle);
  }

  /** Rotate one more pair of a head. */
  method RotateDimension<F>(fl: Ops<F>, data: array<F>, at: nat, headDim: nat, position: nat, theta: F, d: nat,
                            ghost before: seq<F>, ghost x: Row<F>, ghost y: Row<F>)
    requires |x| == headDim && headDim % 2 == 0 && d < headDim / 2 && y == RopeHead(fl, x, position, theta)
    requires PairsDone(before, data[..], at, x, y, d)
    modifies data
    ensures PairsDone(before, data[..], at, x, y, d + 1)
  {
    hide RopeHead, Angle, Outside, PairsDone;
    var half := headDim / 2;
    var cosine, sine := CosineAndSine(fl, d, headDim, position, theta);
    RopeEntries(fl, x, position, theta, d);
    PairsStep(before, data[..], at, x, y, d);
    RotatePair(fl, data, at + d, at + d + half, cosine, sine);
  }

  method RotateHead<F>(fl: Ops<F>, data: array<F>, at: nat, headDim: nat, position: nat, theta: F)
    requires headDim % 2 == 0 && at + headDim <= data.Length
    modifies data
    ensures data[at..at + headDim] == RopeHead(fl, old(data[at..at + headDim]), position, theta)
    ensures Outside(old(data[..]), data[..], at, headDim)
  {
    hide RopeHead, Angle, Outside, PairsDone;
    ghost var x, before := data[at..at + headDim], data[..];
    ghost var y := RopeHead(fl, x, position, theta);
    PairsStart(before, at, x, y);
    var half := headDim / 2;
    for d := 0 to half
      invariant PairsDone(before, data[..], at, x, y, d)
    {
      RotateDimension(fl, data, at, headDim, position, theta, d, before, x, y);
    }
    PairsFinish(before, data[..], at, x, y);
  }

  lemma PairsStart<F>(s: seq<F>, at: nat, x: Row<F>, y: Row<F>)
    requires |x| == |y| && |x| % 2 == 0 && at + |x| <= |s| && x == s[at..at + |x|]
    ensures PairsDone(s, s, at, x, y, 0)
  {
  }

  lemma PairsFinish<F>(before: seq<F>, now: seq<F>, at: nat, x: Row<F>, y: Row<F>)
    requires PairsDone(before, now, at, x, y, |x| / 2)
    ensures now[at..at + |x|] == y && Outside(before, now, at, |x|)
  {
  }

  lemma RopeHeadAt<F>(fl: Ops<F>, x: Row<F>, heads: nat, headDim: nat, position: nat, theta: F, k: nat)
    requires |x| == Times(heads, headDim) && headDim % 2 == 0 && k < heads
    ensures Times(k, headDim) + headDim <= |x|
    ensures RopeHeads(fl, x, heads, headDim, position, theta)[k] == RopeHead(fl, Head(x, k, headDim), position, theta)
  {
    RowInside(k, heads, headDim);
  }

  lemma SubSlice<F>(s: seq<F>, at: nat, n: nat, a: nat, d: nat)
    requires at + n <= |s| && a + d <= n
    ensures s[at..at + n][a..a + d] == s[at + a..at + a + d]
  {
    var part, whole := s[at..at + n][a..a + d], s[at + a..at + a + d];
    assert |part| == |whole|;
    assert forall i :: 0 <= i < d ==> part[i] == whole[i];
  }

  method RotateNext<F>(fl: Ops<F>, data: array<F>, at: nat, heads: nat, headDim: nat, position: nat, theta: F, k: nat,
                       ghost before: seq<F>, ghost x: seq<F>)
    requires headDim % 2 == 0 && at + Times(heads, headDim) <= data.Length && k < heads
    requires |before| == data.Length && x == before[at..at + Times(heads, headDim)]
    requires RowsDone(before, data[..], at, headDim, RopeHeads(fl, x, heads, headDim, position, theta), k, 0, 0)
    modifies data
    ensures RowsDone(before, data[..], at, headDim, RopeHeads(fl, x, heads, headDim, position, theta), k + 1, 0, 0)
  {
    hide RopeHead, RopeHeads, RowsDone, Outside, OutsideBoth;
    RowFits(at, headDim, heads, k, data.Length);
    RopeHeadAt(fl, x, heads, headDim, position, theta, k);
    ghost var s, ys := data[..], RopeHeads(fl, x, heads, headDim, position, theta);
    Untouched(before, s, at, headDim, ys, k);
    SubSlice(before, at, Times(heads, headDim), Times(k, headDim), headDim);
    RotateHead(fl, data, at + Times(k, headDim), headDim, position, theta);
    AsBoth(s, data[..], at + Times(k, headDim), headDim, 0, 0);
    RowsStep(before, s, data[..], at, headDim, ys, k, 0, 0);
  }

  /** The heads of one row. */
  method RotateRow<F>(fl: Ops<F>, data: array<F>, at: nat, heads: nat, headDim: nat, position: nat, theta: F)
    requires headDim % 2 == 0 && at + Times(heads, headDim) <= data.Length
    modifies data
    ensures data[at..at + Times(heads, headDim)]
      == RopeRow(fl, old(data[at..at + Times(heads, headDim)]), heads, headDim, position, theta)
    ensures Outside(old(data[..]), data[..], at, Times(heads, headDim))
  {
    ghost var x, before := data[at..at + Times(heads, headDim)], data[..];
    ghost var ys := RopeHeads(fl, x, heads, headDim, position, theta);
    RowsStart(before, at, headDim, ys, 0, 0);
    for k := 0 to heads
      invariant RowsDone(before, data[..], at, headDim, ys, k, 0, 0)
    {
      RotateNext(fl, data, at, heads, headDim, position, theta, k, before, x);
    }
    RowsFinish(before, data[..], at, headDim, ys, 0, 0);
    RowsFill(data[..], at, headDim, heads);
    AsOne(before, data[..], at, Times(heads, headDim), 0);
  }

  /** Rows that are still to be written are as they were. */
  lemma Untouched<F>(before: seq<F>, s: seq<F>, at: nat, w: nat, ys: seq<seq<F>>, k: nat)
    requires k < |ys| && RowsDone(before, s, at, w, ys, k, 0, 0)
    ensures at + Times(k, w) + w <= |s| == |before|
    ensures s[at + Times(k, w)..at + Times(k, w) + w] == before[at + Times(k, w)..at + Times(k, w) + w]
  {
    RowInside(k, |ys|, w);
  }

  lemma RopeAt<F>(fl: Ops<F>, xs: seq<seq<F>>, heads: nat, headDim: nat, positions: seq<nat>, theta: F, r: nat)
    requires r < |xs| && IsMatrix(xs, |positions|, Times(heads, headDim)) && headDim % 2 == 0
    ensures RopeRows(fl, xs, heads, headDim, positions, theta)[r]
      == RopeRow(fl, xs[r], heads, headDim, positions[r], theta)
  {
  }

  /** Rotate row `r` of a region whose later rows are untouched; a second region may be written, too. */
  method RotateOne<F>(fl: Ops<F>, data: array<F>, at: nat, rows: nat, heads: nat, headDim: nat, positions: seq<nat>,
                      theta: F, r: nat, ghost before: seq<F>, ghost b: nat, ghost m: nat)
    requires headDim % 2 == 0 && at + Times(rows, Times(heads, headDim)) <= data.Length == |before| && r < rows
    requires |positions| == rows && Apart(at, Times(rows, Times(heads, headDim)), b, m)
    requires RowsDone(before, data[..], at, Times(heads, headDim),
                      RopeRows(fl, Rows(before, at, Times(heads, headDim), rows), heads, headDim, positions, theta), r,
                        b, m)
    modifies data
    ensures RowsDone(before, data[..], at, Times(heads, headDim),
                     RopeRows(fl, Rows(before, at, Times(heads, headDim), rows), heads, headDim, positions, theta),
                       r + 1, b, m)
    ensures at + Times(r, Times(heads, headDim)) + Times(heads, headDim) <= at + Times(rows, Times(heads, headDim))
    ensures Outside(old(data[..]), data[..], at + Times(r, Times(heads, headDim)), Times(heads, headDim))
  {
    hide RopeRow, RopeRows, RowsDone, Outside, OutsideBoth, Rows;
    ghost var xs := Rows(before, at, Times(heads, headDim), rows);
    ghost var s, ys := data[..], RopeRows(fl, xs, heads, headDim, positions, theta);
    var width := Times(heads, headDim);
    RowFits(at, width, rows, r, data.Length);
    RopeAt(fl, xs, heads, headDim, positions, theta, r);
    StillThere(before, s, at, width, ys, r, b, m);
    RowOf(before, at, width, rows, r);
    RotateRow(fl, data, at + Times(r, width), heads, headDim, positions[r], theta);
    AsBoth(s, data[..], at + Times(r, width), width, b, m);
    RowsStep(before, s, data[..], at, width, ys, r, b, m);
  }

  lemma StillThere<F>(before: seq<F>, s: seq<F>, at: nat, w: nat, ys: seq<seq<F>>, k: nat, b: nat, m: nat)
    requires k < |ys| && RowsDone(before, s, at, w, ys, k, b, m) && Apart(at, Times(|ys|, w), b, m)
    ensures at + Times(k, w) + w <= |s| == |before|
    ensures s[at + Times(k, w)..at + Times(k, w) + w] == before[at + Times(k, w)..at + Times(k, w) + w]
  {
    RowInside(k, |ys|, w);
  }

  /** Rotate the query and key rows of one more token. */
  method RotateToken<F>(fl: Ops<F>, data: array<F>, queryAt: nat, keyAt: nat, rows: nat, h: Heads, positions: seq<nat>,
                        theta: F, t: nat, ghost before: seq<F>)
    requires h.dim % 2 == 0 && t < rows == |positions|
    requires queryAt + Times(rows, QueryWidth(h)) <= data.Length == |before|
      && keyAt + Times(rows, KvWidth(h)) <= data.Length
    requires Apart(queryAt, Times(rows, QueryWidth(h)), keyAt, Times(rows, KvWidth(h)))
    requires RowsDone(before, data[..], queryAt, QueryWidth(h),
                      RopeRows(fl, Rows(before, queryAt, QueryWidth(h), rows), h.query, h.dim, positions, theta), t,
                      keyAt, Times(rows, KvWidth(h)))
    requires RowsDone(before, data[..], keyAt, KvWidth(h),
                      RopeRows(fl, Rows(before, keyAt, KvWidth(h), rows), h.kv, h.dim, positions, theta), t,
                      queryAt, Times(rows, QueryWidth(h)))
    modifies data
    ensures RowsDone(before, data[..], queryAt, QueryWidth(h),
                     RopeRows(fl, Rows(before, queryAt, QueryWidth(h), rows), h.query, h.dim, positions, theta), t + 1,
                     keyAt, Times(rows, KvWidth(h)))
    ensures RowsDone(before, data[..], keyAt, KvWidth(h),
                     RopeRows(fl, Rows(before, keyAt, KvWidth(h), rows), h.kv, h.dim, positions, theta), t + 1,
                     queryAt, Times(rows, QueryWidth(h)))
  {
    hide RowsDone, RopeRows, Rows, Outside, Times;
    ghost var qw, kw, s := QueryWidth(h), KvWidth(h), data[..];
    ghost var qs := RopeRows(fl, Rows(before, queryAt, qw, rows), h.query, h.dim, positions, theta);
    ghost var ks := RopeRows(fl, Rows(before, keyAt, kw, rows), h.kv, h.dim, positions, theta);
    RotateOne(fl, data, queryAt, rows, h.query, h.dim, positions, theta, t, before, keyAt, Times(rows, kw));
    ghost var u := data[..];
    RowsKept(before, s, u, keyAt, kw, ks, t, queryAt, Times(rows, qw), queryAt + Times(t, qw), qw);
    RotateOne(fl, data, keyAt, rows, h.kv, h.dim, positions, theta, t, before, queryAt, Times(rows, qw));
    RowsKept(before, u, data[..], queryAt, qw, qs, t + 1, keyAt, Times(rows, kw), keyAt + Times(t, kw), kw);
  }

  /** Rotate the query and key rows of every token. */
  method ApplyRope<F>(fl: Ops<F>, data: array<F>, queryAt: nat, keyAt: nat, rows: nat, h: Heads, positions: seq<nat>,
                      theta: F)
    requires h.dim % 2 == 0
    requires queryAt + Times(rows, QueryWidth(h)) <= data.Length && keyAt + Times(rows, KvWidth(h)) <= data.Length
    requires Apart(queryAt, Times(rows, QueryWidth(h)), keyAt, Times(rows, KvWidth(h)))
    requires |positions| == rows
    modifies data
    ensures Rows(data[..], queryAt, QueryWidth(h), rows)
      == RopeRows(fl, old(Rows(data[..], queryAt, QueryWidth(h), rows)), h.query, h.dim, positions, theta)
    ensures Rows(data[..], keyAt, KvWidth(h), rows)
      == RopeRows(fl, old(Rows(data[..], keyAt, KvWidth(h), rows)), h.kv, h.dim, positions, theta)
    ensures OutsideBoth(old(data[..]), data[..], queryAt, Times(rows, QueryWidth(h)), keyAt, Times(rows, KvWidth(h)))
  {
    ghost var before := data[..];
    ghost var qw, kw := QueryWidth(h), KvWidth(h);
    ghost var qs := RopeRows(fl, Rows(before, queryAt, qw, rows), h.query, h.dim, positions, theta);
    ghost var ks := RopeRows(fl, Rows(before, keyAt, kw, rows), h.kv, h.dim, positions, theta);
    RowsStart(before, queryAt, qw, qs, keyAt, Times(rows, kw));
    RowsStart(before, keyAt, kw, ks, queryAt, Times(rows, qw));
    for t := 0 to rows
      invariant RowsDone(before, data[..], queryAt, qw, qs, t, keyAt, Times(rows, kw))
      invariant RowsDone(before, data[..], keyAt, kw, ks, t, queryAt, Times(rows, qw))
    {
      RotateToken(fl, data, queryAt, keyAt, rows, h, positions, theta, t, before);
    }
    RowsFinish(before, data[..], queryAt, qw, qs, keyAt, Times(rows, kw));
    RowsFinish(before, data[..], keyAt, kw, ks, queryAt, Times(rows, qw));
  }
}
