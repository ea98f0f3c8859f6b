/** When each call of the allocator succeeds, and exactly what it then changes. */
module KvOutcomes {
  import opened Core
  import opened Counting
  import opened Ordering
  import opened KvState
  import opened KvOwnership
  import opened KvInvariant
  import opened KvProperties
  import opened KvAccounting

  // ---------- What a caller can see ----------

  ghost predicate Known(c: Cache, sequenceId: uint64) {
    exists i :: 0 <= i < |c.sequences| && c.sequences[i].id == sequenceId
  }

  ghost predicate Available(c: Cache, prefixId: uint64) {
    exists j :: 0 <= j < |c.prefixes| && c.prefixes[j].id == prefixId
  }

  ghost predicate Pending(c: Cache, reservationId: uint64) {
    exists k :: 0 <= k < |c.reservations| && c.reservations[k].id == reservationId
  }

  /** The sequence waits for the end of a reservation. */
  ghost predicate Waiting(c: Cache, sequenceId: uint64) {
    exists k :: 0 <= k < |c.reservations| && c.reservations[k].sequenceId == sequenceId
  }

  ghost predicate Carried(c: Cache, prefixId: uint64) {
    exists i :: 0 <= i < |c.sequences| && c.sequences[i].prefixId == prefixId
  }

  /** Exactly the listed pages are now `v`. */
  ghost predicate Retagged(before: seq<Page>, after: seq<Page>, ids: seq<nat>, v: Page) {
    && |after| == |before|
    && forall p :: 0 <= p < |before| ==> after[p] == if p in ids then v else before[p]
  }

  /** Element `k`, and no other, is gone. */
  ghost predicate Dropped<T>(before: seq<T>, after: seq<T>, k: nat) {
    k < |before| && after == before[..k] + before[k + 1..]
  }

  /** A refused call changes nothing. */
  ghost predicate Refused(c: Cache, c': Cache, status: Status, error: ErrorCode) {
    c' == c && status == Failure(error)
  }

  // ---------- Sequences ----------

  /** As many sequences as there are ids other than 0 leave no id unused. */
  lemma EveryIdTaken(c: Cache, sequenceId: uint64)
    requires Inv(c) && |c.sequences| == U64_MAX && sequenceId != 0
    ensures Known(c, sequenceId)
  {
    UniqueSequences(c);
    forall i | 0 <= i < |c.sequences| ensures c.sequences[i].id > 0 {
      assert SequenceInv(c.sequences[i], c.prefixes, c.tokensPerPage);
    }
    if !Known(c, sequenceId) {
      var ids: seq<nat> := seq(|c.sequences|, i requires 0 <= i < |c.sequences| => c.sequences[i].id - 1);
      DistinctBelow(ids + [sequenceId - 1], U64_MAX);
    }
  }

  lemma {:induction false} AttachmentsAtLeast(ps: seq<Prefix>, j: nat)
    requires j < |ps|
    ensures ps[j].attachments <= Attachments(ps)
  {
    var n := |ps| - 1;
    if j < n { AttachmentsAtLeast(ps[..n], j); }
  }

  /** A prefix can always take one more sequence: its counter never saturates before the ids run out. */
  lemma RoomToAttach(c: Cache, sequenceId: uint64, j: nat)
    requires Inv(c) && sequenceId != 0 && !Known(c, sequenceId) && j < |c.prefixes|
    ensures c.prefixes[j].attachments < U64_MAX
  {
    AttachmentsFit(c);
    AttachmentsAtLeast(c.prefixes, j);
    if |c.sequences| == U64_MAX { EveryIdTaken(c, sequenceId); }
  }

  /** A sequence is created exactly for a fresh id other than 0, alone or on a published prefix. */
  lemma CreateSequenceOutcome(c: Cache, sequenceId: uint64, prefixId: uint64)
    requires Inv(c)
    ensures var (c', status) := CreateSequence(c, sequenceId, prefixId);
      && (status == OK <==> sequenceId != 0 && !Known(c, sequenceId) && (prefixId == 0 || Available(c, prefixId)))
      && (status != OK ==> Refused(c, c', status, InvalidArgument))
      && (status == OK && prefixId == 0 ==>
            c' == c.(sequences := c.sequences + [Sequence(sequenceId, 0, 0, 0, [])]))
      && (status == OK && prefixId != 0 ==>
            exists j :: 0 <= j < |c.prefixes| && c.prefixes[j].id == prefixId
              && c' == c.(sequences := c.sequences + [JoiningSequence(sequenceId, c.prefixes[j])],
                          prefixes := c.prefixes[j := Recounted(c.prefixes[j], 1)]))
  {
    if sequenceId != 0 && !Known(c, sequenceId) && Available(c, prefixId) {
      RoomToAttach(c, sequenceId, PrefixIndex(c.prefixes, prefixId));
    }
  }

  /** A sequence that starts with the tokens of a prefix and has no page of its own. */
  ghost function JoiningSequence(sequenceId: uint64, p: Prefix): Sequence {
    Sequence(sequenceId, p.id, p.tokenCount, p.tokenCount, [])
  }

  ghost function Recounted(p: Prefix, change: int): Prefix {
    if 0 <= p.attachments + change <= U64_MAX then p.(attachments := p.attachments + change) else p
  }

  /** The guards of the destructor that could report corruption hold. */
  lemma DestroyGuards(c: Cache, i: nat)
    requires Inv(c) && i < |c.sequences|
    ensures SequenceIndex(c.sequences, c.sequences[i].id) == i
    ensures AllTagged(c.pages, c.sequences[i].suffixPages, Page(MutableSequence, c.sequences[i].id))
    ensures c.sequences[i].prefixId != 0 ==>
      HasPrefix(c, c.sequences[i].prefixId) && PrefixOf(c, c.sequences[i].prefixId).attachments > 0
    ensures forall j :: 0 <= j < |c.prefixes| ==> PrefixIndex(c.prefixes, c.prefixes[j].id) == j
  {
    TagsAgree(c);
    UniqueSequences(c);
    UniquePrefixes(c);
    if c.sequences[i].prefixId != 0 { CarrierCounted(c, i); }
  }

  lemma DestroyChanges(c: Cache, i: nat)
    requires Inv(c) && i < |c.sequences| && !HasPending(c, c.sequences[i].id)
    ensures DestroySequence(c, c.sequences[i].id).1 == OK
    ensures Destroyed(c, DestroySequence(c, c.sequences[i].id).0, i)
  {
    DestroyGuards(c, i);
    hide Inv, AllTagged;
    var s, c' := c.sequences[i], DestroySequence(c, c.sequences[i].id).0;
    assert Retagged(c.pages, c'.pages, s.suffixPages, Page(Free, 0));
    forall j | 0 <= j < |c.prefixes|
      ensures |c'.prefixes| == |c.prefixes|
      ensures c'.prefixes[j] == if s.prefixId != 0 && c.prefixes[j].id == s.prefixId
                                then Recounted(c.prefixes[j], -1) else c.prefixes[j]
    {
    }
  }

  /** A sequence is destroyed exactly if it is known and not waiting; its own pages are then free. */
  lemma DestroySequenceOutcome(c: Cache, sequenceId: uint64)
    requires Inv(c)
    ensures var (c', status) := DestroySequence(c, sequenceId);
      && (status == OK <==> Known(c, sequenceId) && !Waiting(c, sequenceId))
      && (status != OK ==> Refused(c, c', status, InvalidArgument))
      && (status == OK ==>
            exists i :: 0 <= i < |c.sequences| && c.sequences[i].id == sequenceId && Destroyed(c, c', i))
  {
    if Known(c, sequenceId) && !Waiting(c, sequenceId) {
      DestroyChanges(c, SequenceIndex(c.sequences, sequenceId));
    }
  }

  ghost predicate Destroyed(c: Cache, c': Cache, i: nat) {
    && Dropped(c.sequences, c'.sequences, i)
    && Retagged(c.pages, c'.pages, c.sequences[i].suffixPages, Page(Free, 0))
    && |c'.prefixes| == |c.prefixes|
    && (forall j :: 0 <= j < |c.prefixes| ==>
          c'.prefixes[j] == if c.sequences[i].prefixId != 0 && c.prefixes[j].id == c.sequences[i].prefixId
                            then Recounted(c.prefixes[j], -1) else c.prefixes[j])
    && c'.reservations == c.reservations
    && c'.nextReservationId == c.nextReservationId && c'.tokensPerPage == c.tokensPerPage
  }

  // ---------- Prefixes ----------

  /** A prefix is published exactly under a fresh id and from a known, unattached, non-empty, not waiting sequence. */
  lemma PublishPrefixOutcome(c: Cache, prefixId: uint64, sequenceId: uint64)
    requires Inv(c)
    ensures var (c', status) := PublishPrefix(c, prefixId, sequenceId);
      && (status == OK <==>
            prefixId != 0 && !Available(c, prefixId) && !Waiting(c, sequenceId)
            && exists i :: 0 <= i < |c.sequences| && c.sequences[i].id == sequenceId && Publishable(c.sequences[i]))
      && (status != OK ==> Refused(c, c', status, InvalidArgument))
      && (status == OK ==>
            exists i :: 0 <= i < |c.sequences| && c.sequences[i].id == sequenceId
              && PublishedFrom(c, c', i, prefixId))
  {
    UniqueSequences(c);
    TagsAgree(c);
    if HasSequence(c, sequenceId) {
      var i := SequenceIndex(c.sequences, sequenceId);
      assert SequenceInv(c.sequences[i], c.prefixes, c.tokensPerPage);
      var (c', status) := PublishPrefix(c, prefixId, sequenceId);
      if status == OK { assert PublishedFrom(c, c', i, prefixId); }
    }
  }

  ghost predicate Publishable(s: Sequence) { s.prefixId == 0 && s.totalTokens > 0 }

  /** The pages of sequence `i` now belong to the new prefix, and the sequence is its one carrier. */
  ghost predicate PublishedFrom(c: Cache, c': Cache, i: nat, prefixId: uint64)
    requires i < |c.sequences|
  {
    var s := c.sequences[i];
    && c'.prefixes == c.prefixes + [Prefix(prefixId, s.totalTokens, 1, s.suffixPages)]
    && c'.sequences == c.sequences[i := Sequence(s.id, prefixId, s.totalTokens, s.totalTokens, [])]
    && Retagged(c.pages, c'.pages, s.suffixPages, Page(ImmutablePrefix, prefixId))
    && c'.reservations == c.reservations
    && c'.nextReservationId == c.nextReservationId && c'.tokensPerPage == c.tokensPerPage
  }

  /** A prefix is destroyed exactly if it is there and nobody carries it; its pages are then free. */
  lemma DestroyPrefixOutcome(c: Cache, prefixId: uint64)
    requires Inv(c)
    ensures var (c', status) := DestroyPrefix(c, prefixId);
      && (status == OK <==> Available(c, prefixId) && !Carried(c, prefixId))
      && (status != OK ==> Refused(c, c', status, InvalidArgument))
      && (status == OK ==>
            exists j: nat :: Dropped(c.prefixes, c'.prefixes, j) && c.prefixes[j].id == prefixId
              && Retagged(c.pages, c'.pages, c.prefixes[j].pages, Page(Free, 0))
              && c' == c.(pages := c'.pages, prefixes := c'.prefixes))
  {
    TagsAgree(c);
    CarriersNone(c.sequences, prefixId);
    if Available(c, prefixId) {
      var j := PrefixIndex(c.prefixes, prefixId);
      assert PrefixInv(c.prefixes[j], c.sequences, c.tokensPerPage);
      var (c', status) := DestroyPrefix(c, prefixId);
      if status == OK {
        assert Dropped(c.prefixes, c'.prefixes, j);
        assert Retagged(c.pages, c'.pages, c.prefixes[j].pages, Page(Free, 0));
      }
    }
  }

  // ---------- Reservations ----------

  ghost function ReserveCall(c: Cache, sequenceId: uint64, targetTokens: uint32): (Cache, Result<Reservation>)
    requires Inv(c)
  {
    ReserveReady(c, sequenceId);
    Reserve(c, sequenceId, targetTokens)
  }

  /** Whether the sequence may be extended to the target at all. */
  ghost predicate Extensible(c: Cache, i: nat, targetTokens: uint32)
    requires i < |c.sequences|
  {
    !Waiting(c, c.sequences[i].id) && c.sequences[i].totalTokens <= targetTokens && c.nextReservationId != 0
  }

  /** The pages that the tokens behind the prefix fill, minus those that are there already. */
  ghost function Needed(s: Sequence, targetTokens: nat, tokensPerPage: nat): nat
    requires tokensPerPage > 0 && s.prefixTokens <= targetTokens
  {
    var pages := (targetTokens - s.prefixTokens + tokensPerPage - 1) / tokensPerPage;
    if pages > |s.suffixPages| then pages - |s.suffixPages| else 0
  }

  /** The `n` lowest free pages, each once. */
  ghost predicate LowestFree(pages: seq<Page>, ids: seq<nat>, n: nat) {
    && |ids| == n
    && Distinct(ids)
    && (forall k :: 0 <= k < n ==> ids[k] < |pages| && pages[ids[k]].state == Free)
    && (forall k, p :: 0 <= k < n && 0 <= p < ids[k] && p < |pages| && pages[p].state == Free ==> p in ids)
  }

  ghost predicate Granted(c: Cache, c': Cache, r: Reservation) {
    && r.id == c.nextReservationId
    && Retagged(c.pages, c'.pages, r.pages, Page(Reserved, r.id))
    && c' == c.(pages := c'.pages, reservations := c.reservations + [r],
                nextReservationId := (r.id + 1) % 0x1_0000_0000_0000_0000)
  }

  lemma NeededIsNew(c: Cache, i: nat, targetTokens: uint32)
    requires Inv(c) && i < |c.sequences| && c.sequences[i].totalTokens <= targetTokens
    ensures c.tokensPerPage > 0 && c.sequences[i].prefixTokens <= targetTokens
    ensures Needed(c.sequences[i], targetTokens, c.tokensPerPage)
      == NewPages(c.sequences[i], targetTokens, c.tokensPerPage)
  {
    assert SequenceInv(c.sequences[i], c.prefixes, c.tokensPerPage);
    PagesForIsCeiling(targetTokens - c.sequences[i].prefixTokens, c.tokensPerPage);
  }

  /** The call unfolded for a known sequence, with the pages it selects. */
  lemma ReserveAt(c: Cache, i: nat, targetTokens: uint32)
    requires Inv(c) && i < |c.sequences|
    ensures c.tokensPerPage > 0 && c.sequences[i].prefixTokens <= c.sequences[i].totalTokens
    ensures !Extensible(c, i, targetTokens) ==>
      ReserveCall(c, c.sequences[i].id, targetTokens) == (c, Failure(InvalidArgument))
    ensures Extensible(c, i, targetTokens) ==>
      var id, want := c.nextReservationId, NewPages(c.sequences[i], targetTokens, c.tokensPerPage);
      var selected := SelectFree(c.pages, 0, want);
      var r := Reservation(id, c.sequences[i].id, targetTokens, selected);
      ReserveCall(c, c.sequences[i].id, targetTokens) ==
        if |selected| != want then (c, Failure(InsufficientMemory))
        else (c.(pages := Paint(c.pages, selected, Page(Reserved, id)), reservations := c.reservations + [r],
                 nextReservationId := if id == U64_MAX then 0 else id + 1), Success(r))
  {
    ReserveReady(c, c.sequences[i].id);
    UniqueSequences(c);
    hide Inv, NewPages, SelectFree, Paint;
  }

  lemma SelectLowest(pages: seq<Page>, want: nat)
    ensures |SelectFree(pages, 0, want)| == want <==> want <= CountState(pages, Free)
    ensures want <= CountState(pages, Free) ==> LowestFree(pages, SelectFree(pages, 0, want), want)
  {
    SelectFreeFromStart(pages, want);
  }

  lemma GrantChanges(c: Cache, r: Reservation)
    requires r.id == c.nextReservationId
    ensures Granted(c, c.(pages := Paint(c.pages, r.pages, Page(Reserved, r.id)),
                          reservations := c.reservations + [r],
                          nextReservationId := if r.id == U64_MAX then 0 else r.id + 1), r)
  {
  }

  /**
   * A reservation of a known sequence that may be extended is granted exactly if enough pages are free,
   * and takes the lowest of them; otherwise memory is short. Every other reservation is refused.
   */
  lemma ReserveOutcome(c: Cache, i: nat, targetTokens: uint32)
    requires Inv(c) && i < |c.sequences|
    ensures var id := c.sequences[i].id;
      if !Extensible(c, i, targetTokens) then ReserveCall(c, id, targetTokens) == (c, Failure(InvalidArgument))
      else
        c.tokensPerPage > 0 && c.sequences[i].prefixTokens <= targetTokens &&
        var want := Needed(c.sequences[i], targetTokens, c.tokensPerPage);
        if want > CountState(c.pages, Free) then
          ReserveCall(c, id, targetTokens) == (c, Failure(InsufficientMemory))
        else
          var (c', result) := ReserveCall(c, id, targetTokens);
          && result.Success?
          && result.value == Reservation(result.value.id, id, targetTokens, result.value.pages)
          && LowestFree(c.pages, result.value.pages, want)
          && Granted(c, c', result.value)
  {
    ReserveAt(c, i, targetTokens);
    if Extensible(c, i, targetTokens) {
      hide *;
      var want := NewPages(c.sequences[i], targetTokens, c.tokensPerPage);
      NeededIsNew(c, i, targetTokens);
      SelectLowest(c.pages, want);
      GrantChanges(c, Reservation(c.nextReservationId, c.sequences[i].id, targetTokens, SelectFree(c.pages, 0, want)));
    }
  }

  lemma ReserveUnknown(c: Cache, sequenceId: uint64, targetTokens: uint32)
    requires Inv(c) && !Known(c, sequenceId)
    ensures ReserveCall(c, sequenceId, targetTokens) == (c, Failure(InvalidArgument))
  {
  }

  /** The reserved pages are the sequence's own, behind the ones it had, and its length is the target. */
  ghost predicate Committed(c: Cache, c': Cache, k: nat, i: nat)
    requires k < |c.reservations| && i < |c.sequences|
  {
    var r, s := c.reservations[k], c.sequences[i];
    && s.id == r.sequenceId
    && Dropped(c.reservations, c'.reservations, k)
    && Retagged(c.pages, c'.pages, r.pages, Page(MutableSequence, s.id))
    && c' == c.(pages := c'.pages, reservations := c'.reservations,
                sequences := c.sequences[i := Sequence(s.id, s.prefixId, s.prefixTokens, r.targetTokens,
                                                       s.suffixPages + r.pages)])
  }

  /** A commit succeeds exactly if the reservation is pending, wherever it stands. */
  lemma CommitOutcome(c: Cache, reservationId: uint64)
    requires Inv(c)
    ensures var (c', status) := Commit(c, reservationId);
      && (status == OK <==> Pending(c, reservationId))
      && (status != OK ==> Refused(c, c', status, InvalidArgument))
      && (status == OK ==>
            exists k: nat, i: nat :: k < |c.reservations| && i < |c.sequences|
              && c.reservations[k].id == reservationId && Committed(c, c', k, i))
  {
    TagsAgree(c);
    if Pending(c, reservationId) {
      var k := ReservationIndex(c.reservations, reservationId);
      ReservedSequence(c, k);
      var i, c' := SequenceIndex(c.sequences, c.reservations[k].sequenceId), Commit(c, reservationId).0;
      assert Retagged(c.pages, c'.pages, c.reservations[k].pages, Page(MutableSequence, c.sequences[i].id));
      assert Committed(c, c', k, i);
    }
  }

  /** Reservation `k` is over: its pages are free, and nothing else has changed. */
  ghost predicate RolledBack(c: Cache, c': Cache, k: nat)
    requires k < |c.reservations|
  {
    && Dropped(c.reservations, c'.reservations, k)
    && Retagged(c.pages, c'.pages, c.reservations[k].pages, Page(Free, 0))
    && c' == c.(pages := c'.pages, reservations := c'.reservations)
    && CountState(c'.pages, Free) == CountState(c.pages, Free) + |c.reservations[k].pages|
  }

  /** A rollback succeeds exactly if the reservation is pending, wherever it stands; exactly its pages are then free. */
  lemma RollbackOutcome(c: Cache, reservationId: uint64)
    requires Inv(c)
    ensures var (c', status) := Rollback(c, reservationId);
      && (status == OK <==> Pending(c, reservationId))
      && (status != OK ==> Refused(c, c', status, InvalidArgument))
      && (status == OK ==>
            exists k :: 0 <= k < |c.reservations| && c.reservations[k].id == reservationId && RolledBack(c, c', k))
  {
    TagsAgree(c);
    if Pending(c, reservationId) {
      var k := ReservationIndex(c.reservations, reservationId);
      var r, c' := c.reservations[k], Rollback(c, reservationId).0;
      assert ReservationHoldings(c.reservations)[k] == Holding(r.id, r.pages);
      CountPainted(c.pages, Free, r.pages, FREE_PAGE, Reserved);
      assert RolledBack(c, c', k);
    }
  }

  // ---------- Queries ----------

  /** The table of a known sequence tells its lengths and lists its prefix's pages, if any, and then its own. */
  lemma TableOutcome(c: Cache, i: nat)
    requires Inv(c) && i < |c.sequences|
    ensures var s := c.sequences[i];
      if s.prefixId == 0 then
        TableOf(c, s.id) == Success(PageTable(s.id, 0, 0, s.totalTokens, 0, s.suffixPages))
      else
        exists j :: 0 <= j < |c.prefixes| && c.prefixes[j].id == s.prefixId
          && TableOf(c, s.id) == Success(PageTable(s.id, s.prefixId, c.prefixes[j].tokenCount, s.totalTokens,
                                                   |c.prefixes[j].pages|, c.prefixes[j].pages + s.suffixPages))
  {
    var s := c.sequences[i];
    UniqueSequences(c);
    assert SequenceInv(s, c.prefixes, c.tokensPerPage);
    if s.prefixId != 0 {
      CarriedPrefix(c, s);
      PrefixFits(c, PrefixIndex(c.prefixes, s.prefixId));
    }
  }

  lemma TableUnknown(c: Cache, sequenceId: uint64)
    requires !Known(c, sequenceId)
    ensures TableOf(c, sequenceId) == Failure(InvalidArgument)
  {
  }

  /** The pages in a state. */
  ghost function PagesIn(pages: seq<Page>, st: PageState): set<nat> {
    set p: nat | p < |pages| && pages[p].state == st
  }

  lemma OnePageMore(pages: seq<Page>, page: Page, st: PageState)
    ensures |PagesIn(pages + [page], st)| == |PagesIn(pages, st)| + (if page.state == st then 1 else 0)
  {
    var before, after := PagesIn(pages, st), PagesIn(pages + [page], st);
    assert |pages| !in before;
    assert after == if page.state == st then before + {|pages|} else before;
  }

  lemma {:induction false} CountIsCardinality(pages: seq<Page>, st: PageState)
    ensures CountState(pages, st) == |PagesIn(pages, st)|
  {
    if pages == [] {
      assert PagesIn(pages, st) == {};
    } else {
      hide PagesIn;
      var init, last := pages[..|pages| - 1], pages[|pages| - 1];
      OnePageMore(init, last, st);
      CountIsCardinality(init, st);
      assert init + [last] == pages;
    }
  }

  ghost function Tokens(s: Sequence): int { s.totalTokens }

  ghost function Attached(p: Prefix): int { p.attachments }

  lemma {:induction false} PayloadIsSum(ss: seq<Sequence>)
    ensures Payload(ss) == SumBy(ss, Tokens)
  {
    if ss == [] {
    } else {
      PayloadIsSum(ss[..|ss| - 1]);
    }
  }

  lemma {:induction false} AttachmentsIsSum(ps: seq<Prefix>)
    ensures Attachments(ps) == SumBy(ps, Attached)
  {
    if ps == [] {
    } else {
      AttachmentsIsSum(ps[..|ps| - 1]);
    }
  }

  /** The reported page and owner counts, counted from the pages and the owner lists. */
  lemma CountsOutcome(c: Cache)
    requires MetricsOf(c).Success?
    ensures var m := MetricsOf(c).value;
      && m.totalPages == |c.pages|
      && m.freePages == |PagesIn(c.pages, Free)|
      && m.pendingPages == |PagesIn(c.pages, Reserved)|
      && m.mutablePages == |PagesIn(c.pages, MutableSequence)|
      && m.sharedPrefixPages == |PagesIn(c.pages, ImmutablePrefix)|
      && m.sequenceCount == |c.sequences|
      && m.prefixCount == |c.prefixes|
      && m.prefixAttachments == SumBy(c.prefixes, Attached)
  {
    hide CountState, PagesIn, ReservedTokens, SumBy, Payload, Attachments;
    CountIsCardinality(c.pages, Free);
    CountIsCardinality(c.pages, Reserved);
    CountIsCardinality(c.pages, MutableSequence);
    CountIsCardinality(c.pages, ImmutablePrefix);
    AttachmentsIsSum(c.prefixes);
  }

  /** The reported token totals, added up from the sequences and multiplied out from the pages. */
  lemma TokensOutcome(c: Cache)
    requires Inv(c) && MetricsOf(c).Success?
    ensures var m := MetricsOf(c).value;
      && m.logicalPayloadTokens == SumBy(c.sequences, Tokens)
      && m.logicalReservedTokens == c.tokensPerPage * (m.mutablePages + AttachedPages(c.prefixes))
      && m.logicalFragmentationTokens == m.logicalReservedTokens - m.logicalPayloadTokens
      && m.physicalCommittedTokens == c.tokensPerPage * (m.mutablePages + m.sharedPrefixPages)
  {
    hide Inv, CountState, ReservedTokens, AttachedPages, SumBy, Payload, Attachments;
    PayloadIsSum(c.sequences);
    ReservedIdentity(c);
  }

  // ---------- Transactions ----------

  lemma EndKeepsOthers(c: Cache, id: uint64, k: nat)
    requires k < |c.reservations| && c.reservations[k].id != id
    ensures c.reservations[k] in Commit(c, id).0.reservations
    ensures c.reservations[k] in Rollback(c, id).0.reservations
  {
    if HasReservation(c, id) { RemoveAtIndex(c.reservations, ReservationIndex(c.reservations, id), k); }
    hide AllTagged, Paint, RemoveAt;
  }

  /** A pending reservation stays as it is until it is committed or rolled back. */
  lemma PendingStep(c: Cache, op: Op, k: nat)
    requires Inv(c) && k < |c.reservations|
    requires op != OpCommit(c.reservations[k].id) && op != OpRollback(c.reservations[k].id)
    ensures c.reservations[k] in Step(c, op).0.reservations
  {
    hide Inv, AllTagged, NewPages, SelectFree, Paint, Commit, Rollback;
    match op
    case OpCommit(id) => EndKeepsOthers(c, id, k);
    case OpRollback(id) => EndKeepsOthers(c, id, k);
    case _ =>
  }

  lemma {:induction false} PendingPersists(c: Cache, ops: seq<Op>, r: Reservation)
    requires Inv(c) && r in c.reservations && OpCommit(r.id) !in ops && OpRollback(r.id) !in ops
    ensures r in Run(c, ops).reservations
    decreases |ops|
  {
    if ops == [] {
    } else {
      var k :| 0 <= k < |c.reservations| && c.reservations[k] == r;
      PendingStep(c, ops[0], k);
      StepInv(c, ops[0]);
      PendingPersists(Step(c, ops[0]).0, ops[1..], r);
    }
  }

  /**
   * Reserve, then anything but the end of this reservation, then roll back: the rollback succeeds and
   * frees exactly the pages that were reserved.
   */
  lemma RollbackLater(c: Cache, sequenceId: uint64, targetTokens: uint32, ops: seq<Op>)
    requires Inv(c) && ReserveCall(c, sequenceId, targetTokens).1.Success?
    requires var id := ReserveCall(c, sequenceId, targetTokens).1.value.id;
      OpCommit(id) !in ops && OpRollback(id) !in ops
    ensures Inv(ReserveCall(c, sequenceId, targetTokens).0)
    ensures var (c1, granted) := ReserveCall(c, sequenceId, targetTokens);
      var r, c2 := granted.value, Run(c1, ops);
      var (c3, status) := Rollback(c2, r.id);
      && status == OK
      && Retagged(c2.pages, c3.pages, r.pages, Page(Free, 0))
      && (forall other :: other in c3.reservations <==> other in c2.reservations && other != r)
      && c3 == c2.(pages := c3.pages, reservations := c3.reservations)
      && CountState(c3.pages, Free) == CountState(c2.pages, Free) + |r.pages|
      && Inv(c3)
      && (forall later: seq<Op> :: Rollback(Run(c3, later), r.id) == (Run(c3, later), Failure(InvalidArgument)))
  {
    ReserveReady(c, sequenceId);
    ReserveInv(c, sequenceId, targetTokens);
    var (c1, granted) := ReserveCall(c, sequenceId, targetTokens);
    var r, c2 := granted.value, Run(c1, ops);
    assert c1.reservations[|c.reservations|] == r;
    PendingPersists(c1, ops, r);
    var k :| 0 <= k < |c2.reservations| && c2.reservations[k] == r;
    RolledBackAt(c2, k);
    RollbackInv(c2, r.id);
    var c3 := Rollback(c2, r.id).0;
    assert Issued(c2, r.id) by { assert ReservationInv(r, c2.sequences, c2.tokensPerPage, c2.nextReservationId); }
    forall later: seq<Op> ensures Rollback(Run(c3, later), r.id) == (Run(c3, later), Failure(InvalidArgument)) {
      FinishedForever(c3, later, r.id);
    }
  }

  lemma DroppedIsOthers(rs: seq<Reservation>, rs': seq<Reservation>, k: nat)
    requires Dropped(rs, rs', k) && forall i, j :: 0 <= i < j < |rs| ==> rs[i].id != rs[j].id
    ensures forall other :: other in rs' <==> other in rs && other != rs[k]
    ensures ReservationIndex(rs', rs[k].id) == |rs'|
  {
    forall j | 0 <= j < |rs'| ensures rs'[j] in rs && rs'[j].id != rs[k].id {
      assert rs'[j] == rs[if j < k then j else j + 1];
    }
    forall j | 0 <= j < |rs| && j != k ensures rs[j] in rs' {
      assert rs'[if j < k then j else j - 1] == rs[j];
    }
  }

  lemma RolledBackAt(c: Cache, k: nat)
    requires Inv(c) && k < |c.reservations|
    ensures var r := c.reservations[k];
      var (c', status) := Rollback(c, r.id);
      && status == OK
      && RolledBack(c, c', k)
      && !HasReservation(c', r.id)
      && (forall other :: other in c'.reservations <==> other in c.reservations && other != r)
  {
    var r := c.reservations[k];
    UniqueReservations(c);
    RollbackOutcome(c, r.id);
    hide Inv, Rollback;
    DroppedIsOthers(c.reservations, Rollback(c, r.id).0.reservations, k);
  }
}
