/** Grouped-query attention by flat addresses: which floats a query head reads, and where its result lies. */
module GroupedQueries {
  import opened Counting
  import opened DecoderRows
  import opened DecoderMemory
  import opened CpuOperators
  import opened CpuAttention

  ghost predicate BlockInside<F>(s: seq<F>, base: nat, index: nat, dim: nat) {
    base + index * dim + dim <= |s|
  }

  /** The `dim` floats of block `index`, counted from `base`. */
  ghost function Block<F>(s: seq<F>, base: nat, index: nat, dim: nat): (r: Row<F>)
    requires BlockInside(s, base, index, dim)
    ensures |r| == dim
  {
    s[base + index * dim..base + index * dim + dim]
  }

  ghost predicate ColumnInside<F>(s: seq<F>, base: nat, n: nat, heads: nat, head: nat, dim: nat) {
    forall k :: 0 <= k < n ==> BlockInside(s, base, k * heads + head, dim)
  }

  /** Block `head` of each of `n` slots of `heads` blocks. */
  ghost function Column<F>(s: seq<F>, base: nat, n: nat, heads: nat, head: nat, dim: nat): (r: seq<seq<F>>)
    requires ColumnInside(s, base, n, heads, head, dim)
    ensures IsMatrix(r, n, dim)
  {
    seq(n, k requires 0 <= k < n => Block(s, base, k * heads + head, dim))
  }

  /** Token `t` of a call, with query head `head`, attends to key and value head `shared` of the first `n` slots. */
  ghost predicate Attends<F>(fl: Ops<F>, h: Heads, before: seq<F>, after: seq<F>, cache: seq<F>, queryAt: nat,
                             outAt: nat, keyBase: nat, valueBase: nat, t: nat, head: nat, shared: nat, n: nat) {
    && BlockInside(before, queryAt, t * h.query + head, h.dim)
    && BlockInside(after, outAt, t * h.query + head, h.dim)
    && ColumnInside(cache, keyBase, n, h.kv, shared, h.dim)
    && ColumnInside(cache, valueBase, n, h.kv, shared, h.dim)
    && Block(after, outAt, t * h.query + head, h.dim)
         == AttendHead(fl, Block(before, queryAt, t * h.query + head, h.dim),
                       Column(cache, keyBase, n, h.kv, shared, h.dim),
                       Column(cache, valueBase, n, h.kv, shared, h.dim))
  }

  // ---------- Addresses ----------

  lemma FlatAddress(row: nat, heads: nat, head: nat, dim: nat)
    ensures Times(row, Times(heads, dim)) + Times(head, dim) == (row * heads + head) * dim
  {
    TimesNested(row, heads, dim);
    TimesSum(Times(row, heads), head, dim);
    TimesIsProduct(row, heads);
    TimesIsProduct(row * heads + head, dim);
  }

  /** A head of a row is a block of the buffer. */
  lemma HeadIsBlock<F>(s: seq<F>, at: nat, rows: nat, heads: nat, dim: nat, row: nat, head: nat)
    requires row < rows && head < heads && at + Times(rows, Times(heads, dim)) <= |s|
    ensures BlockInside(s, at, row * heads + head, dim)
    ensures Times(head, dim) + dim <= Times(heads, dim)
    ensures Head(Rows(s, at, Times(heads, dim), rows)[row], head, dim) == Block(s, at, row * heads + head, dim)
  {
    hide Times;
    RowOf(s, at, Times(heads, dim), rows, row);
    RowInside(head, heads, dim);
    FlatAddress(row, heads, head, dim);
    SubSlice(s, at + Times(row, Times(heads, dim)), Times(heads, dim), Times(head, dim), dim);
  }

  lemma HeadsAreColumn<F>(s: seq<F>, base: nat, slots: nat, n: nat, heads: nat, dim: nat, head: nat)
    requires n <= slots && head < heads && base + Times(slots, Times(heads, dim)) <= |s|
    ensures ColumnInside(s, base, n, heads, head, dim)
    ensures Times(head, dim) + dim <= Times(heads, dim)
    ensures HeadsOf(Rows(s, base, Times(heads, dim), slots)[..n], head, dim, Times(heads, dim))
      == Column(s, base, n, heads, head, dim)
  {
    hide Times;
    RowInside(head, heads, dim);
    forall k | 0 <= k < n ensures BlockInside(s, base, k * heads + head, dim) {
      HeadIsBlock(s, base, slots, heads, dim, k, head);
    }
    var a := HeadsOf(Rows(s, base, Times(heads, dim), slots)[..n], head, dim, Times(heads, dim));
    var b := Column(s, base, n, heads, head, dim);
    forall k | 0 <= k < n ensures a[k] == b[k] {
      HeadIsBlock(s, base, slots, heads, dim, k, head);
      hide Rows, Block, Head;
    }
  }

  // ---------- Groups ----------

  /** Query head `j` of group `i` uses key and value head `i`. */
  lemma GroupShares(h: Heads, g: nat, i: nat, j: nat)
    requires Grouped(h) && g * h.kv == h.query && i < h.kv && j < g
    ensures i * g + j < h.query && KvHead(h, i * g + j) == i
  {
    QuotientIs(h.query, h.kv, g);
    QuotientIs(i * g + j, g, i);
    NextGroup(i, h.kv, g);
  }

  lemma NextGroup(i: nat, n: nat, g: nat)
    requires i < n
    ensures i * g + g <= g * n
  {
    assert (i + 1) * g <= n * g;
  }

  lemma {:induction false} ConcatHead<F>(blocks: seq<seq<F>>, n: nat, w: nat, k: nat)
    requires IsMatrix(blocks, n, w) && k < n
    ensures Times(k, w) + w <= |Concat(blocks)|
    ensures Head(Concat(blocks), k, w) == blocks[k]
    decreases n
  {
    ConcatLength(blocks, n, w);
    ConcatLength(blocks[..n - 1], n - 1, w);
    RowInside(k, n, w);
    if k < n - 1 {
      RowInside(k, n - 1, w);
      ConcatHead(blocks[..n - 1], n - 1, w, k);
      assert Head(Concat(blocks), k, w) == Head(Concat(blocks[..n - 1]), k, w);
    } else {
      assert Head(Concat(blocks), k, w) == blocks[k];
    }
  }

  lemma RowHead<F>(fl: Ops<F>, h: Heads, query: Row<F>, keys: seq<seq<F>>, values: seq<seq<F>>, head: nat, shared: nat)
    requires Grouped(h) && |query| == QueryWidth(h) && head < h.query && shared < h.kv && KvHead(h, head) == shared
    requires IsMatrix(keys, |keys|, KvWidth(h)) && IsMatrix(values, |keys|, KvWidth(h))
    ensures Times(head, h.dim) + h.dim <= QueryWidth(h) && Times(shared, h.dim) + h.dim <= KvWidth(h)
    ensures Head(AttendRow(fl, h, query, keys, values), head, h.dim)
      == AttendHead(fl, Head(query, head, h.dim), HeadsOf(keys, shared, h.dim, KvWidth(h)),
                    HeadsOf(values, shared, h.dim, KvWidth(h)))
  {
    KvHeadInside(h, head);
    hide AttendHead, Times, KvHead, Concat;
    ConcatHead(AttendHeads(fl, h, query, keys, values), h.query, h.dim, head);
  }

  lemma AttendsAs<F>(fl: Ops<F>, h: Heads, before: seq<F>, after: seq<F>, cache: seq<F>, queryAt: nat, outAt: nat,
                     keyBase: nat, valueBase: nat, t: nat, head: nat, shared: nat, n: nat)
    requires BlockInside(before, queryAt, t * h.query + head, h.dim)
    requires BlockInside(after, outAt, t * h.query + head, h.dim)
    requires ColumnInside(cache, keyBase, n, h.kv, shared, h.dim)
    requires ColumnInside(cache, valueBase, n, h.kv, shared, h.dim)
    requires Block(after, outAt, t * h.query + head, h.dim)
      == AttendHead(fl, Block(before, queryAt, t * h.query + head, h.dim),
                    Column(cache, keyBase, n, h.kv, shared, h.dim), Column(cache, valueBase, n, h.kv, shared, h.dim))
    ensures Attends(fl, h, before, after, cache, queryAt, outAt, keyBase, valueBase, t, head, shared, n)
  {
  }

  lemma HeadAttends<F>(fl: Ops<F>, h: Heads, before: seq<F>, after: seq<F>, cache: seq<F>, queryAt: nat, outAt: nat,
                       keyBase: nat, valueBase: nat, rows: nat, slots: nat, t: nat, head: nat, shared: nat, n: nat)
    requires Grouped(h) && t < rows && head < h.query && shared < h.kv && KvHead(h, head) == shared && n <= slots
    requires queryAt + Times(rows, QueryWidth(h)) <= |before| && outAt + Times(rows, QueryWidth(h)) <= |after|
    requires keyBase + Times(slots, KvWidth(h)) <= |cache| && valueBase + Times(slots, KvWidth(h)) <= |cache|
    requires Rows(after, outAt, QueryWidth(h), rows)[t]
      == AttendRow(fl, h, Rows(before, queryAt, QueryWidth(h), rows)[t],
                   Rows(cache, keyBase, KvWidth(h), slots)[..n], Rows(cache, valueBase, KvWidth(h), slots)[..n])
    ensures Attends(fl, h, before, after, cache, queryAt, outAt, keyBase, valueBase, t, head, shared, n)
  {
    hide AttendRow, AttendHead, Rows, Head, HeadsOf, Block, Column, ColumnInside, BlockInside, Times, KvHead;
    HeadIsBlock(before, queryAt, rows, h.query, h.dim, t, head);
    HeadIsBlock(after, outAt, rows, h.query, h.dim, t, head);
    HeadsAreColumn(cache, keyBase, slots, n, h.kv, h.dim, shared);
    HeadsAreColumn(cache, valueBase, slots, n, h.kv, h.dim, shared);
    RowHead(fl, h, Rows(before, queryAt, QueryWidth(h), rows)[t], Rows(cache, keyBase, KvWidth(h), slots)[..n],
            Rows(cache, valueBase, KvWidth(h), slots)[..n], head, shared);
    hide *;
    AttendsAs(fl, h, before, after, cache, queryAt, outAt, keyBase, valueBase, t, head, shared, n);
  }

  /**
   * After an attention call, every query head `j` of group `i` of every token holds its attention over key
   * and value head `i` of the slots up to its own position, all addressed as the buffers are laid out.
   */
  lemma GroupedAttention<F>(fl: Ops<F>, h: Heads, before: seq<F>, after: seq<F>, cache: seq<F>, queryAt: nat,
                            outAt: nat, keyBase: nat, valueBase: nat, rows: nat, start: nat, g: nat, t: nat,
                            i: nat, j: nat)
    requires Grouped(h) && g * h.kv == h.query && t < rows && i < h.kv && j < g
    requires queryAt + Times(rows, QueryWidth(h)) <= |before| && outAt + Times(rows, QueryWidth(h)) <= |after|
    requires keyBase + Times(start + rows, KvWidth(h)) <= |cache|
    requires valueBase + Times(start + rows, KvWidth(h)) <= |cache|
    requires Rows(after, outAt, QueryWidth(h), rows)
      == AttendRows(fl, h, Rows(before, queryAt, QueryWidth(h), rows), start,
                    Rows(cache, keyBase, KvWidth(h), start + rows), Rows(cache, valueBase, KvWidth(h), start + rows))
    ensures Attends(fl, h, before, after, cache, queryAt, outAt, keyBase, valueBase, t, i * g + j, i, start + t + 1)
  {
    hide AttendRow, Rows, Attends;
    GroupShares(h, g, i, j);
    AttendAt(fl, h, Rows(before, queryAt, QueryWidth(h), rows), start, Rows(cache, keyBase, KvWidth(h), start + rows),
             Rows(cache, valueBase, KvWidth(h), start + rows), t);
    hide AttendRows;
    HeadAttends(fl, h, before, after, cache, queryAt, outAt, keyBase, valueBase, rows, start + rows, t, i * g + j, i,
                start + t + 1);
  }
}
