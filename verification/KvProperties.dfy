/** What the allocator promises: isolation, transactions, exact counts, over every run. */
module KvProperties {
  import opened Core
  import opened Counting
  import opened KvState
  import opened KvOwnership
  import opened KvInvariant

  // ---------- Runs ----------

  lemma ReserveReady(c: Cache, sequenceId: uint64)
    requires Inv(c)
    ensures c.tokensPerPage > 0
    ensures HasSequence(c, sequenceId) ==>
      SequenceOf(c, sequenceId).prefixTokens <= SequenceOf(c, sequenceId).totalTokens
  {
    if HasSequence(c, sequenceId) {
      assert SequenceInv(SequenceOf(c, sequenceId), c.prefixes, c.tokensPerPage);
    }
  }

  ghost function Step(c: Cache, op: Op): (Cache, Status)
    requires Inv(c)
  {
    match op
    case OpCreateSequence(sequenceId, prefixId) => CreateSequence(c, sequenceId, prefixId)
    case OpDestroySequence(sequenceId) => DestroySequence(c, sequenceId)
    case OpReserve(sequenceId, targetTokens) =>
      ReserveReady(c, sequenceId);
      var (c', result) := Reserve(c, sequenceId, targetTokens);
      (c', if result.Success? then OK else Failure(result.error))
    case OpCommit(reservationId) => Commit(c, reservationId)
    case OpRollback(reservationId) => Rollback(c, reservationId)
    case OpPublishPrefix(prefixId, sequenceId) => PublishPrefix(c, prefixId, sequenceId)
    case OpDestroyPrefix(prefixId) => DestroyPrefix(c, prefixId)
  }

  /** Every operation keeps the invariant. */
  lemma {:induction false} StepInv(c: Cache, op: Op)
    requires Inv(c)
    ensures Inv(Step(c, op).0)
  {
    match op
    case OpCreateSequence(sequenceId, prefixId) => CreateSequenceInv(c, sequenceId, prefixId);
    case OpDestroySequence(sequenceId) => DestroySequenceInv(c, sequenceId);
    case OpReserve(sequenceId, targetTokens) => ReserveReady(c, sequenceId); ReserveInv(c, sequenceId, targetTokens);
    case OpCommit(reservationId) => CommitInv(c, reservationId);
    case OpRollback(reservationId) => RollbackInv(c, reservationId);
    case OpPublishPrefix(prefixId, sequenceId) => PublishPrefixInv(c, prefixId, sequenceId);
    case OpDestroyPrefix(prefixId) => DestroyPrefixInv(c, prefixId);
  }

  ghost function Run(c: Cache, ops: seq<Op>): (c': Cache)
    requires Inv(c)
    ensures Inv(c')
    decreases |ops|
  {
    if ops == [] then c else StepInv(c, ops[0]); Run(Step(c, ops[0]).0, ops[1..])
  }

  /** The states that some sequence of calls reaches from a created cache. */
  ghost predicate Reachable(c: Cache) {
    exists pageCount: uint32, tokensPerPage: uint32, ops: seq<Op> ::
      pageCount > 0 && tokensPerPage > 0 && ReachedBy(c, pageCount, tokensPerPage, ops)
  }

  ghost predicate ReachedBy(c: Cache, pageCount: uint32, tokensPerPage: uint32, ops: seq<Op>)
    requires pageCount > 0 && tokensPerPage > 0
  {
    InitialInv(pageCount, tokensPerPage);
    c == Run(InitialCache(pageCount, tokensPerPage), ops)
  }

  lemma ReachableInv(c: Cache)
    requires Reachable(c)
    ensures Inv(c)
  {
    var pageCount: uint32, tokensPerPage: uint32, ops :|
      pageCount > 0 && tokensPerPage > 0 && ReachedBy(c, pageCount, tokensPerPage, ops);
    InitialInv(pageCount, tokensPerPage);
  }

  /** No call ever finds corruption, and a call that fails changes nothing. */
  lemma {:induction false} NoCorruption(c: Cache, op: Op)
    requires Reachable(c)
    ensures Inv(c)
    ensures Step(c, op).1 != Failure(InvalidFormat)
    ensures Step(c, op).1.Failure? ==> Step(c, op).0 == c
  {
    ReachableInv(c);
    TagsAgree(c);
    match op
    case OpDestroySequence(sequenceId) =>
      if HasSequence(c, sequenceId) && SequenceOf(c, sequenceId).prefixId != 0 {
        CarrierCounted(c, SequenceIndex(c.sequences, sequenceId));
      }
    case OpCommit(reservationId) =>
      if HasReservation(c, reservationId) {
        ReservedSequence(c, ReservationIndex(c.reservations, reservationId));
      }
    case _ =>
  }

  lemma CarrierCounted(c: Cache, i: nat)
    requires Inv(c) && i < |c.sequences| && c.sequences[i].prefixId != 0
    ensures HasPrefix(c, c.sequences[i].prefixId) && PrefixOf(c, c.sequences[i].prefixId).attachments > 0
  {
    CarriedPrefix(c, c.sequences[i]);
    var p := PrefixOf(c, c.sequences[i].prefixId);
    assert PrefixInv(p, c.sequences, c.tokensPerPage);
    CarriersNone(c.sequences, p.id);
  }

  // ---------- Page tables ----------

  /** The pages of a sequence's table, shared ones first. */
  ghost function TablePages(c: Cache, sequenceId: uint64): seq<nat>
    requires HasSequence(c, sequenceId)
  {
    SharedPages(c, sequenceId) + SequenceOf(c, sequenceId).suffixPages
  }

  ghost function SharedPages(c: Cache, sequenceId: uint64): seq<nat>
    requires HasSequence(c, sequenceId)
  {
    var s := SequenceOf(c, sequenceId);
    if s.prefixId == 0 || !HasPrefix(c, s.prefixId) then [] else PrefixOf(c, s.prefixId).pages
  }

  /** The table call succeeds, reports the shared page count without truncation, and lists those pages. */
  lemma TableComplete(c: Cache, sequenceId: uint64)
    requires Inv(c) && HasSequence(c, sequenceId)
    ensures TableOf(c, sequenceId).Success?
    ensures var t := TableOf(c, sequenceId).value;
      && t.pages == TablePages(c, sequenceId)
      && t.sharedPrefixPages == |SharedPages(c, sequenceId)|
  {
    var s := SequenceOf(c, sequenceId);
    if s.prefixId != 0 {
      CarriedPrefix(c, s);
      PrefixFits(c, PrefixIndex(c.prefixes, s.prefixId));
    }
  }

  lemma PrefixFits(c: Cache, j: nat)
    requires Inv(c) && j < |c.prefixes|
    ensures |c.prefixes[j].pages| <= U32_MAX
  {
    var p, hp := c.prefixes[j], PrefixHoldings(c.prefixes);
    TagsAgree(c);
    assert hp[j] == Holding(p.id, p.pages);
    assert AllTagged(c.pages, p.pages, Page(ImmutablePrefix, p.id));
    CountPainted(c.pages, ImmutablePrefix, p.pages, FREE_PAGE, ImmutablePrefix);
  }

  /** A table's pages hold every token; less than one page is wasted in the suffix and in the prefix. */
  lemma SequenceCapacity(c: Cache, i: nat)
    requires Inv(c) && i < |c.sequences|
    ensures HasSequence(c, c.sequences[i].id) && SequenceOf(c, c.sequences[i].id) == c.sequences[i]
    ensures var s := c.sequences[i];
      s.totalTokens <= Capacity(|TablePages(c, s.id)|, c.tokensPerPage)
        <= s.totalTokens + (if s.prefixId == 0 then c.tokensPerPage - 1 else 2 * (c.tokensPerPage - 1))
  {
    UniqueSequences(c);
    var s, tpp := c.sequences[i], c.tokensPerPage;
    assert SequenceInv(s, c.prefixes, tpp);
    PagesForBounds(s.totalTokens - s.prefixTokens, tpp);
    if s.prefixId != 0 {
      CarriedPrefix(c, s);
      var p := PrefixOf(c, s.prefixId);
      assert PrefixInv(p, c.sequences, tpp);
      PagesForBounds(p.tokenCount, tpp);
      CapacityAdds(|p.pages|, |s.suffixPages|, tpp);
    }
  }

  lemma {:induction false} PagesForBounds(tokens: nat, tpp: nat)
    requires tpp > 0
    ensures tokens <= Capacity(PagesFor(tokens, tpp), tpp) <= tokens + tpp - 1
    decreases tokens
  {
    if tokens > tpp {
      PagesForBounds(tokens - tpp, tpp);
      CapacityAdds(1, PagesFor(tokens - tpp, tpp), tpp);
    }
  }

  /** A table lists no page twice, and only committed pages tagged for it or for its prefix. */
  lemma TableIsClean(c: Cache, sequenceId: uint64)
    requires Inv(c) && HasSequence(c, sequenceId)
    ensures Distinct(TablePages(c, sequenceId))
    ensures forall k :: 0 <= k < |TablePages(c, sequenceId)| ==>
      var p := TablePages(c, sequenceId)[k];
      && p < |c.pages|
      && c.pages[p] == (if k < |SharedPages(c, sequenceId)|
                        then Page(ImmutablePrefix, SequenceOf(c, sequenceId).prefixId)
                        else Page(MutableSequence, sequenceId))
  {
    var s := SequenceOf(c, sequenceId);
    TagsAgree(c);
    assert SequenceHoldings(c.sequences)[SequenceIndex(c.sequences, sequenceId)].pages == s.suffixPages;
    if s.prefixId != 0 {
      CarriedPrefix(c, s);
      assert PrefixHoldings(c.prefixes)[PrefixIndex(c.prefixes, s.prefixId)].pages == SharedPages(c, sequenceId);
    }
  }

  /** Two tables share a page only through a common prefix, at the same place, in the shared part. */
  lemma Isolation(c: Cache, a: uint64, b: uint64, i: nat, j: nat)
    requires Reachable(c) && HasSequence(c, a) && HasSequence(c, b) && a != b
    requires i < |TablePages(c, a)| && j < |TablePages(c, b)| && TablePages(c, a)[i] == TablePages(c, b)[j]
    ensures SequenceOf(c, a).prefixId == SequenceOf(c, b).prefixId != 0
    ensures SharedPages(c, a) == SharedPages(c, b)
    ensures i == j < |SharedPages(c, a)|
  {
    ReachableInv(c);
    TableIsClean(c, a);
    TableIsClean(c, b);
    var shared := SharedPages(c, a);
    assert i < |shared| && j < |SharedPages(c, b)|;
    assert TablePages(c, a)[i] == shared[i] && TablePages(c, a)[j] == shared[j];
  }

  /** The table of `sequenceId` depends only on its own record and on the pages of its prefix. */
  lemma TableFrame(c: Cache, c': Cache, sequenceId: uint64)
    requires Inv(c) && Inv(c') && HasSequence(c, sequenceId)
    requires exists i :: 0 <= i < |c'.sequences| && c'.sequences[i] == SequenceOf(c, sequenceId)
    requires SequenceOf(c, sequenceId).prefixId != 0 ==>
      exists j :: 0 <= j < |c'.prefixes| && c'.prefixes[j].id == SequenceOf(c, sequenceId).prefixId
        && c'.prefixes[j].pages == SharedPages(c, sequenceId)
    ensures HasSequence(c', sequenceId)
    ensures TablePages(c', sequenceId) == TablePages(c, sequenceId)
    ensures SequenceOf(c', sequenceId) == SequenceOf(c, sequenceId)
  {
    UniqueSequences(c');
    UniquePrefixes(c');
  }

  /** The operation commits a reservation of this sequence. */
  ghost predicate Commits(c: Cache, op: Op, sequenceId: uint64) {
    op.OpCommit? && HasReservation(c, op.reservationId)
    && ReservationOf(c, op.reservationId).sequenceId == sequenceId
  }

  /** Only a commit of its own reservation changes a surviving sequence's table, and it only appends. */
  lemma TableStep(c: Cache, op: Op, sequenceId: uint64)
    requires Inv(c) && HasSequence(c, sequenceId) && op != OpDestroySequence(sequenceId)
    ensures HasSequence(Step(c, op).0, sequenceId)
    ensures TablePages(Step(c, op).0, sequenceId) == TablePages(c, sequenceId)
      + (if Commits(c, op, sequenceId) then ReservationOf(c, op.reservationId).pages else [])
    ensures SequenceOf(Step(c, op).0, sequenceId).totalTokens
      == if Commits(c, op, sequenceId) then ReservationOf(c, op.reservationId).targetTokens
         else SequenceOf(c, sequenceId).totalTokens
  {
    hide Inv, CreateSequence, DestroySequence, Commit, Rollback, PublishPrefix, DestroyPrefix, Reserve, TablePages;
    match op
    case OpCreateSequence(id, prefixId) => TableCreate(c, id, prefixId, sequenceId);
    case OpDestroySequence(id) => TableDestroy(c, id, sequenceId);
    case OpReserve(id, targetTokens) => TableReserve(c, id, targetTokens, sequenceId);
    case OpCommit(id) => TableCommit(c, id, sequenceId);
    case OpRollback(id) => TableRollback(c, id, sequenceId);
    case OpPublishPrefix(prefixId, id) => TablePublish(c, prefixId, id, sequenceId);
    case OpDestroyPrefix(prefixId) => TableDestroyPrefix(c, prefixId, sequenceId);
  }

  ghost predicate SameTable(c: Cache, c': Cache, sequenceId: uint64)
    requires HasSequence(c, sequenceId)
  {
    HasSequence(c', sequenceId)
    && TablePages(c', sequenceId) == TablePages(c, sequenceId)
    && SequenceOf(c', sequenceId).totalTokens == SequenceOf(c, sequenceId).totalTokens
  }

  lemma TableCreate(c: Cache, id: uint64, prefixId: uint64, sequenceId: uint64)
    requires Inv(c) && HasSequence(c, sequenceId)
    ensures SameTable(c, CreateSequence(c, id, prefixId).0, sequenceId)
  {
    CreateSequenceInv(c, id, prefixId);
    var c' := CreateSequence(c, id, prefixId).0;
    assert c'.sequences[SequenceIndex(c.sequences, sequenceId)] == SequenceOf(c, sequenceId);
    KeepsPrefix(c, c', sequenceId);
    TableFrame(c, c', sequenceId);
  }

  /** Enough for the prefix part of the frame: same prefixes up to attachment counts. */
  lemma KeepsPrefix(c: Cache, c': Cache, sequenceId: uint64)
    requires Inv(c) && HasSequence(c, sequenceId)
    requires |c.prefixes| <= |c'.prefixes|
    requires forall j :: 0 <= j < |c.prefixes| ==>
      c'.prefixes[j].id == c.prefixes[j].id && c'.prefixes[j].pages == c.prefixes[j].pages
    ensures SequenceOf(c, sequenceId).prefixId != 0 ==>
      exists j :: 0 <= j < |c'.prefixes| && c'.prefixes[j].id == SequenceOf(c, sequenceId).prefixId
        && c'.prefixes[j].pages == SharedPages(c, sequenceId)
  {
    var s := SequenceOf(c, sequenceId);
    if s.prefixId != 0 {
      CarriedPrefix(c, s);
      var j := PrefixIndex(c.prefixes, s.prefixId);
      assert c'.prefixes[j].id == s.prefixId && c'.prefixes[j].pages == SharedPages(c, sequenceId);
    }
  }

  lemma RemoveAtIndex<T>(s: seq<T>, i: nat, k: nat)
    requires i < |s| && k < |s| && k != i
    ensures var at := if k < i then k else k - 1; RemoveAt(s, i)[at] == s[k]
  {
  }

  lemma {:induction false} TableDestroy(c: Cache, id: uint64, sequenceId: uint64)
    requires Inv(c) && HasSequence(c, sequenceId) && id != sequenceId
    ensures SameTable(c, DestroySequence(c, id).0, sequenceId)
  {
    DestroySequenceInv(c, id);
    var (c', status) := DestroySequence(c, id);
    if status.Success? {
      var i, k := SequenceIndex(c.sequences, id), SequenceIndex(c.sequences, sequenceId);
      RemoveAtIndex(c.sequences, i, k);
      hide DestroySequence, Inv, TablePages, RemoveAt;
      KeepsPrefix(c, c', sequenceId);
      TableFrame(c, c', sequenceId);
    }
  }

  lemma {:induction false} TableReserve(c: Cache, id: uint64, targetTokens: uint32, sequenceId: uint64)
    requires Inv(c) && HasSequence(c, sequenceId)
    ensures SameTable(c, Step(c, OpReserve(id, targetTokens)).0, sequenceId)
  {
    StepInv(c, OpReserve(id, targetTokens));
    var c' := Step(c, OpReserve(id, targetTokens)).0;
    assert c'.sequences[SequenceIndex(c.sequences, sequenceId)] == SequenceOf(c, sequenceId);
    KeepsPrefix(c, c', sequenceId);
    TableFrame(c, c', sequenceId);
  }

  lemma TableRollback(c: Cache, id: uint64, sequenceId: uint64)
    requires Inv(c) && HasSequence(c, sequenceId)
    ensures SameTable(c, Rollback(c, id).0, sequenceId)
  {
    RollbackInv(c, id);
    var c' := Rollback(c, id).0;
    assert c'.sequences[SequenceIndex(c.sequences, sequenceId)] == SequenceOf(c, sequenceId);
    KeepsPrefix(c, c', sequenceId);
    TableFrame(c, c', sequenceId);
  }

  lemma {:induction false} TableCommit(c: Cache, id: uint64, sequenceId: uint64)
    requires Inv(c) && HasSequence(c, sequenceId)
    ensures HasSequence(Commit(c, id).0, sequenceId)
    ensures TablePages(Commit(c, id).0, sequenceId) == TablePages(c, sequenceId)
      + (if Commits(c, OpCommit(id), sequenceId) then ReservationOf(c, id).pages else [])
    ensures SequenceOf(Commit(c, id).0, sequenceId).totalTokens
      == if Commits(c, OpCommit(id), sequenceId) then ReservationOf(c, id).targetTokens
         else SequenceOf(c, sequenceId).totalTokens
  {
    CommitInv(c, id);
    var (c', status) := Commit(c, id);
    if HasReservation(c, id) {
      var k := ReservationIndex(c.reservations, id);
      var r := c.reservations[k];
      ReservedSequence(c, k);
      TagsAgree(c);
      if r.sequenceId != sequenceId {
        assert c'.sequences[SequenceIndex(c.sequences, sequenceId)] == SequenceOf(c, sequenceId);
        KeepsPrefix(c, c', sequenceId);
        TableFrame(c, c', sequenceId);
      } else {
        TableExtended(c, c', sequenceId, r);
      }
    }
  }

  lemma {:induction false} TableExtended(c: Cache, c': Cache, sequenceId: uint64, r: Reservation)
    requires Inv(c) && Inv(c') && HasSequence(c, sequenceId) && c'.prefixes == c.prefixes
    requires var s := SequenceOf(c, sequenceId);
      c'.sequences == c.sequences[SequenceIndex(c.sequences, sequenceId) :=
        s.(suffixPages := s.suffixPages + r.pages, totalTokens := r.targetTokens)]
    ensures HasSequence(c', sequenceId)
    ensures TablePages(c', sequenceId) == TablePages(c, sequenceId) + r.pages
    ensures SequenceOf(c', sequenceId).totalTokens == r.targetTokens
  {
    UniqueSequences(c');
    assert c'.sequences[SequenceIndex(c.sequences, sequenceId)].id == sequenceId;
    hide Inv;
  }

  lemma {:induction false} TablePublish(c: Cache, prefixId: uint64, id: uint64, sequenceId: uint64)
    requires Inv(c) && HasSequence(c, sequenceId)
    ensures SameTable(c, PublishPrefix(c, prefixId, id).0, sequenceId)
  {
    PublishPrefixInv(c, prefixId, id);
    var (c', status) := PublishPrefix(c, prefixId, id);
    if status.Success? {
      var m := SequenceIndex(c.sequences, sequenceId);
      if id != sequenceId {
        assert c'.sequences[m] == SequenceOf(c, sequenceId);
        KeepsPrefix(c, c', sequenceId);
        TableFrame(c, c', sequenceId);
      } else {
        UniqueSequences(c');
        UniquePrefixes(c');
        assert c'.sequences[m].id == sequenceId;
        assert c'.prefixes[|c.prefixes|].id == prefixId;
      }
    }
  }

  lemma TableDestroyPrefix(c: Cache, prefixId: uint64, sequenceId: uint64)
    requires Inv(c) && HasSequence(c, sequenceId)
    ensures SameTable(c, DestroyPrefix(c, prefixId).0, sequenceId)
  {
    DestroyPrefixInv(c, prefixId);
    var (c', status) := DestroyPrefix(c, prefixId);
    if status.Success? {
      var m := SequenceIndex(c.sequences, sequenceId);
      var s := c.sequences[m];
      assert c'.sequences[m] == s;
      if s.prefixId != 0 {
        CarrierCounted(c, m);
        var j, k := PrefixIndex(c.prefixes, prefixId), PrefixIndex(c.prefixes, s.prefixId);
        assert c'.prefixes[if k < j then k else k - 1] == c.prefixes[k];
      }
      TableFrame(c, c', sequenceId);
    }
  }

  /** Over any run that does not destroy it, a sequence's table only grows at the end. */
  lemma {:induction false} TableGrows(c: Cache, ops: seq<Op>, sequenceId: uint64)
    requires Inv(c) && HasSequence(c, sequenceId) && OpDestroySequence(sequenceId) !in ops
    ensures HasSequence(Run(c, ops), sequenceId)
    ensures TablePages(c, sequenceId) <= TablePages(Run(c, ops), sequenceId)
    ensures SequenceOf(c, sequenceId).totalTokens <= SequenceOf(Run(c, ops), sequenceId).totalTokens
    decreases |ops|
  {
    if ops == [] {
    } else {
      TableStep(c, ops[0], sequenceId);
      StepInv(c, ops[0]);
      if Commits(c, ops[0], sequenceId) {
        ReservedSequence(c, ReservationIndex(c.reservations, ops[0].reservationId));
      }
      TableGrows(Step(c, ops[0]).0, ops[1..], sequenceId);
    }
  }

  // ---------- Reservations as transactions ----------

  /** Out of memory is reported exactly when too few pages are free; a grant takes the lowest ones. */
  lemma ReserveExact(c: Cache, sequenceId: uint64, targetTokens: uint32)
    requires Inv(c) && !ReserveRejected(c, sequenceId, targetTokens)
    ensures HasSequence(c, sequenceId) && SequenceOf(c, sequenceId).prefixTokens <= targetTokens
    ensures var want := NewPages(SequenceOf(c, sequenceId), targetTokens, c.tokensPerPage);
      var result := Reserve(c, sequenceId, targetTokens).1;
      && (result == Failure(InsufficientMemory) <==> CountState(c.pages, Free) < want)
      && (result.Failure? ==> result.error == InsufficientMemory)
      && (result.Success? ==>
            && |result.value.pages| == want
            && Distinct(result.value.pages)
            && (forall k :: 0 <= k < want ==>
                  result.value.pages[k] < |c.pages| && c.pages[result.value.pages[k]] == FREE_PAGE)
            && (forall k, p :: 0 <= k < want && 0 <= p < result.value.pages[k] && c.pages[p].state == Free ==>
                  p in result.value.pages))
  {
    ReserveReady(c, sequenceId);
    SelectFreeFromStart(c.pages, NewPages(SequenceOf(c, sequenceId), targetTokens, c.tokensPerPage));
  }

  /** Reserve then roll back: everything but the id counter is as before. */
  lemma RollbackRestores(c: Cache, sequenceId: uint64, targetTokens: uint32)
    requires Inv(c) && !ReserveRejected(c, sequenceId, targetTokens)
    requires SequenceOf(c, sequenceId).prefixTokens <= SequenceOf(c, sequenceId).totalTokens
    requires Reserve(c, sequenceId, targetTokens).1.Success?
    ensures var (c', r) := Reserve(c, sequenceId, targetTokens);
      Rollback(c', r.value.id) == (c.(nextReservationId := c'.nextReservationId), OK)
  {
    var (c', r) := Reserve(c, sequenceId, targetTokens);
    ReserveExact(c, sequenceId, targetTokens);
    ReserveInv(c, sequenceId, targetTokens);
    UniqueReservations(c');
    TagsAgree(c');
    var n := |c.reservations|;
    assert c'.reservations[n] == r.value;
    assert RemoveAt(c'.reservations, n) == c.reservations;
    assert Paint(c'.pages, r.value.pages, FREE_PAGE) == c.pages;
  }

  /** Reserve then commit: the table grows by exactly the reserved pages, which were free before. */
  lemma CommitAppends(c: Cache, sequenceId: uint64, targetTokens: uint32)
    requires Inv(c) && !ReserveRejected(c, sequenceId, targetTokens)
    requires SequenceOf(c, sequenceId).prefixTokens <= SequenceOf(c, sequenceId).totalTokens
    requires Reserve(c, sequenceId, targetTokens).1.Success?
    ensures var (c1, r) := Reserve(c, sequenceId, targetTokens);
      var (c2, status) := Commit(c1, r.value.id);
      && status == OK
      && HasSequence(c2, sequenceId)
      && TablePages(c2, sequenceId) == TablePages(c, sequenceId) + r.value.pages
      && SequenceOf(c2, sequenceId).totalTokens == targetTokens
      && !HasReservation(c2, r.value.id)
  {
    var (c1, r) := Reserve(c, sequenceId, targetTokens);
    ReserveInv(c, sequenceId, targetTokens);
    TableReserve(c, sequenceId, targetTokens, sequenceId);
    var n := |c.reservations|;
    UniqueReservations(c1);
    TagsAgree(c1);
    assert c1.reservations[n] == r.value;
    ReservedSequence(c1, n);
    TableCommit(c1, r.value.id, sequenceId);
  }

  /** The id has been handed out. The counter wraps to 0 after its last value. */
  ghost predicate Issued(c: Cache, id: uint64) {
    id != 0 && (c.nextReservationId == 0 || id < c.nextReservationId)
  }

  /** A granted id is new; it is pending until committed or rolled back. */
  lemma GrantIsFresh(c: Cache, sequenceId: uint64, targetTokens: uint32)
    requires Inv(c) && !ReserveRejected(c, sequenceId, targetTokens)
    requires SequenceOf(c, sequenceId).prefixTokens <= SequenceOf(c, sequenceId).totalTokens
    requires Reserve(c, sequenceId, targetTokens).1.Success?
    ensures var (c', r) := Reserve(c, sequenceId, targetTokens);
      !Issued(c, r.value.id) && Issued(c', r.value.id) && HasReservation(c', r.value.id)
  {
    var (c', r) := Reserve(c, sequenceId, targetTokens);
    assert c'.reservations[|c.reservations|].id == r.value.id;
  }

  /** A finished reservation stays finished on every run. */
  lemma {:induction false} FinishedForever(c: Cache, ops: seq<Op>, id: uint64)
    requires Inv(c) && Issued(c, id) && !HasReservation(c, id)
    ensures var c' := Run(c, ops);
      && Issued(c', id)
      && Commit(c', id) == (c', Failure(InvalidArgument))
      && Rollback(c', id) == (c', Failure(InvalidArgument))
    decreases |ops|
  {
    if ops == [] {
    } else {
      FinishedStep(c, ops[0], id);
      StepInv(c, ops[0]);
      FinishedForever(Step(c, ops[0]).0, ops[1..], id);
    }
  }

  lemma FinishedStep(c: Cache, op: Op, id: uint64)
    requires Inv(c) && Issued(c, id) && !HasReservation(c, id)
    ensures Issued(Step(c, op).0, id) && !HasReservation(Step(c, op).0, id)
  {
    var c' := Step(c, op).0;
    ReservationsAfter(c, op);
    forall r | r in c'.reservations ensures r.id != id {
      assert r in c.reservations ==> r.id != id;
    }
  }

  lemma RemovedIsSubset<T>(s: seq<T>, i: nat)
    ensures i < |s| ==> forall x :: x in RemoveAt(s, i) ==> x in s
  {
  }

  /** An operation keeps or drops pending reservations, or adds one under the current counter value. */
  lemma ReservationsAfter(c: Cache, op: Op)
    requires Inv(c)
    ensures forall r :: r in Step(c, op).0.reservations ==>
      r in c.reservations || (op.OpReserve? && r.id == c.nextReservationId)
    ensures Step(c, op).0.nextReservationId == c.nextReservationId
      || (c.nextReservationId != 0 && Step(c, op).0.nextReservationId
          == if c.nextReservationId == U64_MAX then 0 else c.nextReservationId + 1)
  {
    hide Inv, AllTagged, NewPages, SelectFree, Paint;
    match op
    case OpCommit(id) => RemovedIsSubset(c.reservations, ReservationIndex(c.reservations, id));
    case OpRollback(id) => RemovedIsSubset(c.reservations, ReservationIndex(c.reservations, id));
    case _ =>
  }

  /** When the last sequence and the last prefix are gone, every page is free again. */
  lemma NoOwnersNoPages(c: Cache)
    requires Inv(c) && c.sequences == [] && c.prefixes == []
    ensures c.pages == seq(|c.pages|, _ => FREE_PAGE)
  {
    assert |c.reservations| > 0 ==>
      ReservationInv(c.reservations[0], c.sequences, c.tokensPerPage, c.nextReservationId);
    forall p | 0 <= p < |c.pages| ensures c.pages[p] == FREE_PAGE {
      assert !HeldBy(SequenceHoldings(c.sequences), c.pages[p].owner, p);
      assert !HeldBy(PrefixHoldings(c.prefixes), c.pages[p].owner, p);
      assert !HeldBy(ReservationHoldings(c.reservations), c.pages[p].owner, p);
    }
  }
}
