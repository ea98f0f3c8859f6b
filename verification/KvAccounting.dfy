/** The numbers `metrics` reports, and the identities that tie them to the owner lists. */
module KvAccounting {
  import opened Core
  import opened KvState
  import opened KvOwnership
  import opened KvInvariant
  import opened KvProperties
  import opened Counting

  datatype Metrics = Metrics(
    totalPages: nat,
    freePages: nat,
    pendingPages: nat,
    mutablePages: nat,
    sharedPrefixPages: nat,
    sequenceCount: nat,
    prefixCount: nat,
    prefixAttachments: nat,
    logicalPayloadTokens: nat,
    logicalReservedTokens: nat,
    logicalFragmentationTokens: nat,
    physicalCommittedTokens: nat)

  function Attachments(ps: seq<Prefix>): nat {
    if ps == [] then 0 else Attachments(ps[..|ps| - 1]) + ps[|ps| - 1].attachments
  }

  function Payload(ss: seq<Sequence>): nat {
    if ss == [] then 0 else Payload(ss[..|ss| - 1]) + ss[|ss| - 1].totalTokens
  }

  function PrefixPageCount(ps: seq<Prefix>, id: uint64): nat {
    if id == 0 || PrefixIndex(ps, id) == |ps| then 0 else |ps[PrefixIndex(ps, id)].pages|
  }

  function LogicalPages(s: Sequence, ps: seq<Prefix>): nat {
    |s.suffixPages| + PrefixPageCount(ps, s.prefixId)
  }

  function ReservedTokens(ss: seq<Sequence>, ps: seq<Prefix>, tpp: nat): nat {
    if ss == [] then 0
    else ReservedTokens(ss[..|ss| - 1], ps, tpp) + Capacity(LogicalPages(ss[|ss| - 1], ps), tpp)
  }

  /** What `metrics` returns under the invariant: the accounting, unless the reserved tokens overflow 64 bits. */
  function MetricsOf(c: Cache): Result<Metrics> {
    var payload := Payload(c.sequences);
    var reserved := ReservedTokens(c.sequences, c.prefixes, c.tokensPerPage);
    var mutablePages, shared := CountState(c.pages, MutableSequence), CountState(c.pages, ImmutablePrefix);
    if reserved > U64_MAX || payload > reserved then Failure(ArithmeticOverflow)
    else
      Success(Metrics(|c.pages|, CountState(c.pages, Free), CountState(c.pages, Reserved), mutablePages, shared,
                      |c.sequences|, |c.prefixes|, Attachments(c.prefixes), payload, reserved, reserved - payload,
                      Capacity(mutablePages + shared, c.tokensPerPage)))
  }

  // ---------- Sums over prefixes and over their carriers ----------

  function SuffixTotal(ss: seq<Sequence>): nat {
    if ss == [] then 0 else SuffixTotal(ss[..|ss| - 1]) + |ss[|ss| - 1].suffixPages|
  }

  function PrefixTotal(ss: seq<Sequence>, ps: seq<Prefix>): nat {
    if ss == [] then 0 else PrefixTotal(ss[..|ss| - 1], ps) + PrefixPageCount(ps, ss[|ss| - 1].prefixId)
  }

  /** The sequences that carry some prefix. */
  function Carrying(ss: seq<Sequence>): nat {
    if ss == [] then 0 else Carrying(ss[..|ss| - 1]) + (if ss[|ss| - 1].prefixId == 0 then 0 else 1)
  }

  /** Attachments times pages, summed over the prefixes. */
  function AttachedPages(ps: seq<Prefix>): nat {
    if ps == [] then 0 else AttachedPages(ps[..|ps| - 1]) + ps[|ps| - 1].attachments * |ps[|ps| - 1].pages|
  }

  /** The carriers of every prefix, each weighted by `weight`. */
  ghost function Weighted(ps: seq<Prefix>, ss: seq<Sequence>, weight: Prefix -> nat): nat {
    if ps == [] then 0
    else Weighted(ps[..|ps| - 1], ss, weight) + Carriers(ss, ps[|ps| - 1].id) * weight(ps[|ps| - 1])
  }

  ghost function Hits(ps: seq<Prefix>, id: uint64, weight: Prefix -> nat): nat {
    if ps == [] then 0
    else Hits(ps[..|ps| - 1], id, weight) + (if ps[|ps| - 1].id == id then weight(ps[|ps| - 1]) else 0)
  }

  lemma {:induction false} WeightedNone(ps: seq<Prefix>, weight: Prefix -> nat)
    ensures Weighted(ps, [], weight) == 0
  {
    if ps == [] {
    } else {
      WeightedNone(ps[..|ps| - 1], weight);
    }
  }

  lemma {:induction false} WeightedAppend(ps: seq<Prefix>, ss: seq<Sequence>, s: Sequence, weight: Prefix -> nat)
    ensures Weighted(ps, ss + [s], weight) == Weighted(ps, ss, weight) + Hits(ps, s.prefixId, weight)
  {
    if ps == [] {
    } else {
      var p := ps[|ps| - 1];
      WeightedAppend(ps[..|ps| - 1], ss, s, weight);
      CarriersAppend(ss, s, p.id);
      if s.prefixId == p.id { OneMore(Carriers(ss, p.id), weight(p)); }
    }
  }

  lemma OneMore(a: nat, k: nat)
    ensures (a + 1) * k == a * k + k
  {
  }

  /** Unique ids: at most one prefix is hit. */
  lemma {:induction false} HitsOne(ps: seq<Prefix>, id: uint64, weight: Prefix -> nat)
    requires forall i, j :: 0 <= i < j < |ps| ==> ps[i].id != ps[j].id
    ensures Hits(ps, id, weight)
      == (if PrefixIndex(ps, id) < |ps| then weight(ps[PrefixIndex(ps, id)]) else 0)
  {
    if ps == [] {
    } else {
      var n := |ps| - 1;
      HitsOne(ps[..n], id, weight);
      var i, i' := PrefixIndex(ps[..n], id), PrefixIndex(ps, id);
      if i < n {
        assert ps[..n][i] == ps[i];
        assert i' == i;
      } else {
        assert forall j :: 0 <= j < n ==> ps[..n][j].id != id;
        assert i' >= n;
      }
    }
  }

  /** Attachments count the carriers; so they add up to the sequences that carry a prefix. */
  lemma AttachmentsExact(c: Cache)
    requires Inv(c)
    ensures Attachments(c.prefixes) == Carrying(c.sequences)
    ensures AttachedPages(c.prefixes) == PrefixTotal(c.sequences, c.prefixes)
  {
    var one, size := (p: Prefix) => 1, (p: Prefix) => |p.pages|;
    AttachmentsWeighted(c.prefixes, c.sequences, c.tokensPerPage, one, size);
    UniquePrefixes(c);
    CarryingWeighted(c.prefixes, c.sequences, c.tokensPerPage, one, size);
  }

  lemma {:induction false} AttachmentsWeighted(ps: seq<Prefix>, ss: seq<Sequence>, tpp: uint32, one: Prefix -> nat,
                                               size: Prefix -> nat)
    requires PrefixesInv(ps, ss, tpp)
    requires forall p :: one(p) == 1 && size(p) == |p.pages|
    ensures Weighted(ps, ss, one) == Attachments(ps)
    ensures Weighted(ps, ss, size) == AttachedPages(ps)
  {
    if ps == [] {
    } else {
      var p := ps[|ps| - 1];
      AttachmentsWeighted(ps[..|ps| - 1], ss, tpp, one, size);
      assert PrefixInv(p, ss, tpp);
      assert one(p) == 1 && size(p) == |p.pages|;
    }
  }

  lemma {:induction false} CarryingWeighted(ps: seq<Prefix>, ss: seq<Sequence>, tpp: uint32, one: Prefix -> nat,
                                            size: Prefix -> nat)
    requires SequencesInv(ss, ps, tpp)
    requires forall i, j :: 0 <= i < j < |ps| ==> ps[i].id != ps[j].id
    requires forall j :: 0 <= j < |ps| ==> ps[j].id != 0
    requires forall p :: one(p) == 1 && size(p) == |p.pages|
    ensures Weighted(ps, ss, one) == Carrying(ss)
    ensures Weighted(ps, ss, size) == PrefixTotal(ss, ps)
  {
    if ss == [] {
      WeightedNone(ps, one);
      WeightedNone(ps, size);
    } else {
      var init, s := ss[..|ss| - 1], ss[|ss| - 1];
      CarryingWeighted(ps, init, tpp, one, size);
      assert ss == init + [s];
      WeightedAppend(ps, init, s, one);
      WeightedAppend(ps, init, s, size);
      HitsOne(ps, s.prefixId, one);
      HitsOne(ps, s.prefixId, size);
      assert SequenceInv(s, ps, tpp);
    }
  }

  // ---------- Reserved tokens ----------

  lemma {:induction false} ReservedSplit(ss: seq<Sequence>, ps: seq<Prefix>, tpp: nat)
    ensures ReservedTokens(ss, ps, tpp) == Capacity(SuffixTotal(ss) + PrefixTotal(ss, ps), tpp)
  {
    if ss == [] {
    } else {
      var init, s := ss[..|ss| - 1], ss[|ss| - 1];
      ReservedSplit(init, ps, tpp);
      CapacityAdds(SuffixTotal(init) + PrefixTotal(init, ps), LogicalPages(s, ps), tpp);
    }
  }

  lemma {:induction false} SuffixHeld(ss: seq<Sequence>)
    ensures TotalHeld(SequenceHoldings(ss)) == SuffixTotal(ss)
  {
    if ss == [] {
    } else {
      SuffixHeld(ss[..|ss| - 1]);
      assert SequenceHoldings(ss)[..|ss| - 1] == SequenceHoldings(ss[..|ss| - 1]);
    }
  }

  /** A sequence fills all but the end of the last page of either part. */
  lemma SequenceWaste(c: Cache, i: nat)
    requires Inv(c) && i < |c.sequences|
    ensures var s, tpp := c.sequences[i], c.tokensPerPage;
      s.totalTokens <= Capacity(LogicalPages(s, c.prefixes), tpp)
        <= s.totalTokens + Capacity(if s.prefixId == 0 then 1 else 2, tpp - 1)
  {
    SequenceCapacity(c, i);
    TableIsLogical(c, i);
  }

  /** Payload fits in what is reserved, and the waste is bounded, sequence by sequence. */
  lemma {:induction false} WasteBounded(c: Cache, n: nat)
    requires Inv(c) && n <= |c.sequences|
    ensures var ss := c.sequences[..n];
      Payload(ss) <= ReservedTokens(ss, c.prefixes, c.tokensPerPage)
        <= Payload(ss) + Capacity(n + Carrying(ss), c.tokensPerPage - 1)
  {
    hide Inv, LogicalPages, Capacity, Payload, ReservedTokens, Carrying;
    if n == 0 {
      NoWaste(c.prefixes, c.tokensPerPage);
    } else {
      var init, s, tpp := c.sequences[..n - 1], c.sequences[n - 1], c.tokensPerPage as nat;
      assert c.sequences[..n] == init + [s];
      WasteBounded(c, n - 1);
      SequenceWaste(c, n - 1);
      SumsSnoc(init, s, c.prefixes, tpp);
      assert tpp > 0 by { PagesNonEmpty(c); }
      CapacityAdds(n - 1 + Carrying(init), if s.prefixId == 0 then 1 else 2, tpp - 1);
    }
  }

  lemma PagesNonEmpty(c: Cache)
    requires Inv(c)
    ensures c.tokensPerPage > 0
  {
  }

  lemma NoWaste(ps: seq<Prefix>, tpp: nat)
    ensures Payload([]) == ReservedTokens([], ps, tpp) == 0 && Carrying([]) == 0
  {
  }

  lemma SumsSnoc(ss: seq<Sequence>, s: Sequence, ps: seq<Prefix>, tpp: nat)
    ensures Payload(ss + [s]) == Payload(ss) + s.totalTokens
    ensures ReservedTokens(ss + [s], ps, tpp) == ReservedTokens(ss, ps, tpp) + Capacity(LogicalPages(s, ps), tpp)
    ensures Carrying(ss + [s]) == Carrying(ss) + if s.prefixId == 0 then 0 else 1
  {
    assert (ss + [s])[..|ss|] == ss;
  }

  lemma TableIsLogical(c: Cache, i: nat)
    requires Inv(c) && i < |c.sequences|
    requires HasSequence(c, c.sequences[i].id) && SequenceOf(c, c.sequences[i].id) == c.sequences[i]
    ensures |TablePages(c, c.sequences[i].id)| == LogicalPages(c.sequences[i], c.prefixes)
  {
    if c.sequences[i].prefixId != 0 { CarriedPrefix(c, c.sequences[i]); }
  }

  // ---------- The identities ----------

  /** Every page is in exactly one class, and the classes have the sizes of the owner lists. */
  lemma PageAccounting(c: Cache)
    requires Inv(c)
    ensures CountState(c.pages, Free) + CountState(c.pages, Reserved)
      + CountState(c.pages, MutableSequence) + CountState(c.pages, ImmutablePrefix) == |c.pages|
    ensures CountState(c.pages, MutableSequence) == SuffixTotal(c.sequences)
    ensures CountState(c.pages, ImmutablePrefix) == TotalHeld(PrefixHoldings(c.prefixes))
    ensures CountState(c.pages, Reserved) == TotalHeld(ReservationHoldings(c.reservations))
  {
    CountsPartition(c.pages);
    CountIsTotalHeld(c.pages, MutableSequence, SequenceHoldings(c.sequences));
    CountIsTotalHeld(c.pages, ImmutablePrefix, PrefixHoldings(c.prefixes));
    CountIsTotalHeld(c.pages, Reserved, ReservationHoldings(c.reservations));
    SuffixHeld(c.sequences);
  }

  lemma {:induction false} ReservedIdentity(c: Cache)
    requires Inv(c)
    ensures ReservedTokens(c.sequences, c.prefixes, c.tokensPerPage)
      == Capacity(CountState(c.pages, MutableSequence) + AttachedPages(c.prefixes), c.tokensPerPage)
  {
    PageAccounting(c);
    AttachmentsExact(c);
    ReservedSplit(c.sequences, c.prefixes, c.tokensPerPage);
  }

  lemma PayloadFits(c: Cache)
    requires Inv(c)
    ensures Payload(c.sequences) <= ReservedTokens(c.sequences, c.prefixes, c.tokensPerPage)
      <= Payload(c.sequences) + Capacity(|c.sequences| + Attachments(c.prefixes), c.tokensPerPage - 1)
  {
    AttachmentsExact(c);
    assert c.sequences[..|c.sequences|] == c.sequences;
    WasteBounded(c, |c.sequences|);
  }

  /** Committed pages always fit: only the logical totals can overflow 64 bits. */
  lemma CommittedFits(c: Cache)
    requires Inv(c)
    ensures Capacity(CountState(c.pages, MutableSequence) + CountState(c.pages, ImmutablePrefix), c.tokensPerPage)
      <= U64_MAX
  {
    CountsPartition(c.pages);
    ProductBound(c.tokensPerPage, CountState(c.pages, MutableSequence) + CountState(c.pages, ImmutablePrefix),
                 U32_MAX, U32_MAX);
  }

  lemma ProductBound(a: nat, b: nat, x: nat, y: nat)
    requires a <= x && b <= y
    ensures a * b <= x * y
  {
    assert a * b <= x * b;
    assert x * b <= x * y;
  }

  lemma {:induction false} CarryingAtMost(ss: seq<Sequence>)
    ensures Carrying(ss) <= |ss|
  {
    if ss == [] {
    } else {
      CarryingAtMost(ss[..|ss| - 1]);
    }
  }

  /** Carriers are sequences, and sequences have distinct non-zero 64-bit ids: attachments never overflow. */
  lemma {:induction false} AttachmentsFit(c: Cache)
    requires Inv(c)
    ensures Attachments(c.prefixes) <= |c.sequences| <= U64_MAX
  {
    AttachmentsExact(c);
    CarryingAtMost(c.sequences);
    UniqueSequences(c);
    forall i | 0 <= i < |c.sequences| ensures c.sequences[i].id > 0 {
      assert SequenceInv(c.sequences[i], c.prefixes, c.tokensPerPage);
    }
    var ids: seq<nat> := seq(|c.sequences|, i requires 0 <= i < |c.sequences| => c.sequences[i].id - 1);
    DistinctBelow(ids, U64_MAX);
  }

  /**
   * `metrics` fails exactly when the token capacity of the mutable and the attached pages does not fit
   * into 64 bits; no other total overflows, and corruption is never reported.
   */
  lemma MetricsFailure(c: Cache)
    requires Reachable(c)
    ensures MetricsOf(c).Failure? <==>
      Capacity(CountState(c.pages, MutableSequence) + AttachedPages(c.prefixes), c.tokensPerPage) > U64_MAX
    ensures MetricsOf(c).Failure? ==> MetricsOf(c).error == ArithmeticOverflow
  {
    ReachableInv(c);
    PayloadFits(c);
    ReservedIdentity(c);
  }

  /** When `metrics` succeeds, its numbers satisfy the accounting identities. */
  lemma MetricsIdentities(c: Cache)
    requires Reachable(c) && MetricsOf(c).Success?
    ensures var m := MetricsOf(c).value;
      && m.freePages + m.pendingPages + m.mutablePages + m.sharedPrefixPages == m.totalPages
      && m.logicalReservedTokens == Capacity(m.mutablePages + AttachedPages(c.prefixes), c.tokensPerPage)
      && m.logicalFragmentationTokens <= Capacity(m.sequenceCount + m.prefixAttachments, c.tokensPerPage - 1)
      && m.logicalPayloadTokens + m.logicalFragmentationTokens == m.logicalReservedTokens
      && m.prefixAttachments == Carrying(c.sequences)
  {
    hide Inv, Reachable, CountState, Capacity, ReservedTokens, Payload, AttachedPages;
    ReachableInv(c);
    CountsPartition(c.pages);
    AttachmentsExact(c);
    ReservedIdentity(c);
    PayloadFits(c);
  }
}
