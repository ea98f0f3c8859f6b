/** The allocator's invariant, and the proof that every operation keeps it. */
module KvInvariant {
  import opened Core
  import opened Counting
  import opened KvState
  import opened KvOwnership

  function SequenceHoldings(ss: seq<Sequence>): (hs: seq<Holding>) {
    seq(|ss|, i requires 0 <= i < |ss| => Holding(ss[i].id, ss[i].suffixPages))
  }

  function PrefixHoldings(ps: seq<Prefix>): (hs: seq<Holding>) {
    seq(|ps|, i requires 0 <= i < |ps| => Holding(ps[i].id, ps[i].pages))
  }

  function ReservationHoldings(rs: seq<Reservation>): (hs: seq<Holding>) {
    seq(|rs|, i requires 0 <= i < |rs| => Holding(rs[i].id, rs[i].pages))
  }

  /** How many sequences carry the prefix. */
  function Carriers(ss: seq<Sequence>, prefixId: uint64): (n: nat) {
    if ss == [] then 0
    else Carriers(ss[..|ss| - 1], prefixId) + (if ss[|ss| - 1].prefixId == prefixId then 1 else 0)
  }

  /** Page tags and the three owner lists agree, and free pages have no owner. */
  ghost predicate OwnershipInv(c: Cache) {
    && Owned(c.pages, MutableSequence, SequenceHoldings(c.sequences))
    && Owned(c.pages, ImmutablePrefix, PrefixHoldings(c.prefixes))
    && Owned(c.pages, Reserved, ReservationHoldings(c.reservations))
    && (forall p :: 0 <= p < |c.pages| && c.pages[p].state == Free ==> c.pages[p].owner == 0)
  }

  ghost predicate Published(ps: seq<Prefix>, prefixId: uint64, tokens: nat) {
    exists j :: 0 <= j < |ps| && ps[j].id == prefixId && ps[j].tokenCount == tokens
  }

  ghost predicate SequenceInv(s: Sequence, ps: seq<Prefix>, tokensPerPage: uint32) {
    && tokensPerPage > 0
    && s.id != 0
    && s.prefixTokens <= s.totalTokens
    && |s.suffixPages| == PagesFor(s.totalTokens - s.prefixTokens, tokensPerPage)
    && (if s.prefixId == 0 then s.prefixTokens == 0 else Published(ps, s.prefixId, s.prefixTokens))
  }

  ghost predicate SequencesInv(ss: seq<Sequence>, ps: seq<Prefix>, tokensPerPage: uint32) {
    forall i :: 0 <= i < |ss| ==> SequenceInv(ss[i], ps, tokensPerPage)
  }

  ghost predicate PrefixInv(p: Prefix, ss: seq<Sequence>, tokensPerPage: uint32) {
    && tokensPerPage > 0
    && p.id != 0
    && p.tokenCount > 0
    && |p.pages| == PagesFor(p.tokenCount, tokensPerPage)
    && p.attachments == Carriers(ss, p.id)
  }

  ghost predicate PrefixesInv(ps: seq<Prefix>, ss: seq<Sequence>, tokensPerPage: uint32) {
    forall j :: 0 <= j < |ps| ==> PrefixInv(ps[j], ss, tokensPerPage)
  }

  /** The reservation extends `s` from its current length to the target. */
  ghost predicate Extends(r: Reservation, s: Sequence, tokensPerPage: uint32) {
    && tokensPerPage > 0
    && s.id == r.sequenceId
    && s.prefixTokens <= s.totalTokens <= r.targetTokens
    && |r.pages| == NewPages(s, r.targetTokens, tokensPerPage)
  }

  ghost predicate ReservationInv(r: Reservation, ss: seq<Sequence>, tokensPerPage: uint32, next: uint64) {
    && r.id != 0
    && (next == 0 || r.id < next)
    && exists i :: 0 <= i < |ss| && Extends(r, ss[i], tokensPerPage)
  }

  ghost predicate ReservationsInv(rs: seq<Reservation>, ss: seq<Sequence>, tokensPerPage: uint32, next: uint64) {
    && (forall k :: 0 <= k < |rs| ==> ReservationInv(rs[k], ss, tokensPerPage, next))
    && (forall k, k' :: 0 <= k < k' < |rs| ==> rs[k].sequenceId != rs[k'].sequenceId)
  }

  ghost predicate Inv(c: Cache) {
    && 0 < |c.pages| <= U32_MAX
    && c.tokensPerPage > 0
    && OwnershipInv(c)
    && SequencesInv(c.sequences, c.prefixes, c.tokensPerPage)
    && PrefixesInv(c.prefixes, c.sequences, c.tokensPerPage)
    && ReservationsInv(c.reservations, c.sequences, c.tokensPerPage, c.nextReservationId)
  }

  // ---------- Lookups under the invariant ----------

  lemma UniqueSequences(c: Cache)
    requires OwnershipInv(c)
    ensures forall i, j :: 0 <= i < j < |c.sequences| ==> c.sequences[i].id != c.sequences[j].id
    ensures forall i :: 0 <= i < |c.sequences| ==> SequenceIndex(c.sequences, c.sequences[i].id) == i
  {
    var hs := SequenceHoldings(c.sequences);
    assert forall j :: 0 <= j < |hs| ==> hs[j].id == c.sequences[j].id;
  }

  lemma UniquePrefixes(c: Cache)
    requires OwnershipInv(c)
    ensures forall i, j :: 0 <= i < j < |c.prefixes| ==> c.prefixes[i].id != c.prefixes[j].id
    ensures forall j :: 0 <= j < |c.prefixes| ==> PrefixIndex(c.prefixes, c.prefixes[j].id) == j
  {
    var hs := PrefixHoldings(c.prefixes);
    assert forall i :: 0 <= i < |hs| ==> hs[i].id == c.prefixes[i].id;
  }

  lemma UniqueReservations(c: Cache)
    requires OwnershipInv(c)
    ensures forall i, j :: 0 <= i < j < |c.reservations| ==> c.reservations[i].id != c.reservations[j].id
    ensures forall k :: 0 <= k < |c.reservations| ==> ReservationIndex(c.reservations, c.reservations[k].id) == k
  {
    var hs := ReservationHoldings(c.reservations);
    assert forall i :: 0 <= i < |hs| ==> hs[i].id == c.reservations[i].id;
  }

  /** The corruption guards of the source cannot fire. */
  lemma TagsAgree(c: Cache)
    requires OwnershipInv(c)
    ensures forall i :: 0 <= i < |c.sequences| ==>
      AllTagged(c.pages, c.sequences[i].suffixPages, Page(MutableSequence, c.sequences[i].id))
    ensures forall j :: 0 <= j < |c.prefixes| ==>
      AllTagged(c.pages, c.prefixes[j].pages, Page(ImmutablePrefix, c.prefixes[j].id))
    ensures forall k :: 0 <= k < |c.reservations| ==>
      AllTagged(c.pages, c.reservations[k].pages, Page(Reserved, c.reservations[k].id))
  {
    var hs, hp, hr := SequenceHoldings(c.sequences), PrefixHoldings(c.prefixes), ReservationHoldings(c.reservations);
    assert forall i :: 0 <= i < |hs| ==> hs[i].pages == c.sequences[i].suffixPages && hs[i].id == c.sequences[i].id;
    assert forall i :: 0 <= i < |hp| ==> hp[i].pages == c.prefixes[i].pages && hp[i].id == c.prefixes[i].id;
    assert forall i :: 0 <= i < |hr| ==> hr[i].pages == c.reservations[i].pages && hr[i].id == c.reservations[i].id;
  }

  lemma CarriedPrefix(c: Cache, s: Sequence)
    requires OwnershipInv(c) && SequencesInv(c.sequences, c.prefixes, c.tokensPerPage)
    requires s in c.sequences && s.prefixId != 0
    ensures HasPrefix(c, s.prefixId) && PrefixOf(c, s.prefixId).tokenCount == s.prefixTokens
  {
    UniquePrefixes(c);
    var j :| 0 <= j < |c.prefixes| && c.prefixes[j].id == s.prefixId && c.prefixes[j].tokenCount == s.prefixTokens;
  }

  lemma ReservedSequence(c: Cache, k: nat)
    requires Inv(c) && k < |c.reservations|
    ensures HasSequence(c, c.reservations[k].sequenceId)
    ensures Extends(c.reservations[k], SequenceOf(c, c.reservations[k].sequenceId), c.tokensPerPage)
  {
    UniqueSequences(c);
    var i :| 0 <= i < |c.sequences| && Extends(c.reservations[k], c.sequences[i], c.tokensPerPage);
  }

  // ---------- Carrier counts ----------

  lemma {:induction false} CarriersUpdate(ss: seq<Sequence>, i: nat, s: Sequence, prefixId: uint64)
    requires i < |ss|
    ensures Carriers(ss[i := s], prefixId) == Carriers(ss, prefixId)
      - (if ss[i].prefixId == prefixId then 1 else 0) + (if s.prefixId == prefixId then 1 else 0)
  {
    var n := |ss| - 1;
    if i < n {
      assert ss[i := s][..n] == ss[..n][i := s];
      CarriersUpdate(ss[..n], i, s, prefixId);
    } else {
      assert ss[i := s][..n] == ss[..n];
    }
  }

  lemma {:induction false} CarriersRemove(ss: seq<Sequence>, i: nat, prefixId: uint64)
    requires i < |ss|
    ensures Carriers(RemoveAt(ss, i), prefixId)
      == Carriers(ss, prefixId) - (if ss[i].prefixId == prefixId then 1 else 0)
  {
    var n := |ss| - 1;
    if i < n {
      assert RemoveAt(ss, i)[..n - 1] == RemoveAt(ss[..n], i);
      CarriersRemove(ss[..n], i, prefixId);
    } else {
      assert RemoveAt(ss, i) == ss[..n];
    }
  }

  lemma CarriersAppend(ss: seq<Sequence>, s: Sequence, prefixId: uint64)
    ensures Carriers(ss + [s], prefixId) == Carriers(ss, prefixId) + (if s.prefixId == prefixId then 1 else 0)
  {
    assert (ss + [s])[..|ss|] == ss;
  }

  lemma {:induction false} CarriersNone(ss: seq<Sequence>, prefixId: uint64)
    ensures Carriers(ss, prefixId) == 0 <==> forall i :: 0 <= i < |ss| ==> ss[i].prefixId != prefixId
  {
    if ss == [] {
    } else {
      CarriersNone(ss[..|ss| - 1], prefixId);
    }
  }

  // ---------- Preservation, operation by operation ----------

  lemma InitialInv(pageCount: uint32, tokensPerPage: uint32)
    requires pageCount > 0 && tokensPerPage > 0
    ensures Inv(InitialCache(pageCount, tokensPerPage))
  {
  }

  /** Reservations only look at the sequence they extend. */
  lemma ReservationsFrame(rs: seq<Reservation>, ss: seq<Sequence>, ss': seq<Sequence>, tpp: uint32, next: uint64)
    requires ReservationsInv(rs, ss, tpp, next)
    requires forall i :: 0 <= i < |ss| && PendingIndex(rs, ss[i].id) < |rs| ==> ss[i] in ss'
    ensures ReservationsInv(rs, ss', tpp, next)
  {
    forall k | 0 <= k < |rs| ensures ReservationInv(rs[k], ss', tpp, next) {
      var i :| 0 <= i < |ss| && Extends(rs[k], ss[i], tpp);
      assert PendingIndex(rs, ss[i].id) <= k;
    }
  }

  /** Sequences only look at the identity and length of the prefix they carry. */
  lemma SequencesFrame(ss: seq<Sequence>, ps: seq<Prefix>, ps': seq<Prefix>, tpp: uint32)
    requires SequencesInv(ss, ps, tpp)
    requires forall i, j :: 0 <= i < |ss| && 0 <= j < |ps| && ss[i].prefixId == ps[j].id ==>
      Published(ps', ps[j].id, ps[j].tokenCount)
    ensures SequencesInv(ss, ps', tpp)
  {
    forall i | 0 <= i < |ss| ensures SequenceInv(ss[i], ps', tpp) {
    }
  }

  lemma PublishedAfterCount(ps: seq<Prefix>, i: nat, attachments: uint64)
    requires i < |ps|
    ensures forall j :: 0 <= j < |ps| ==>
      Published(ps[i := ps[i].(attachments := attachments)], ps[j].id, ps[j].tokenCount)
  {
    var ps' := ps[i := ps[i].(attachments := attachments)];
    forall j | 0 <= j < |ps| ensures Published(ps', ps[j].id, ps[j].tokenCount) {
      assert ps'[j].id == ps[j].id;
    }
  }

  /** Attachments stay exact when the sequence list changes by at most one carrier of one prefix. */
  lemma PrefixesRecounted(ps: seq<Prefix>, ps': seq<Prefix>, ss: seq<Sequence>, ss': seq<Sequence>, tpp: uint32)
    requires PrefixesInv(ps, ss, tpp) && |ps'| == |ps|
    requires forall j :: 0 <= j < |ps| ==> ps'[j] == ps[j].(attachments := ps'[j].attachments)
    requires forall j :: 0 <= j < |ps| ==>
      ps'[j].attachments - ps[j].attachments == Carriers(ss', ps[j].id) - Carriers(ss, ps[j].id)
    ensures PrefixesInv(ps', ss', tpp)
  {
    forall j | 0 <= j < |ps'| ensures PrefixInv(ps'[j], ss', tpp) {
      assert PrefixInv(ps[j], ss, tpp);
    }
  }

  lemma {:induction false} CreateSequenceInv(c: Cache, sequenceId: uint64, prefixId: uint64)
    requires Inv(c)
    ensures Inv(CreateSequence(c, sequenceId, prefixId).0)
  {
    var (c', status) := CreateSequence(c, sequenceId, prefixId);
    if status.Success? {
      var s := c'.sequences[|c.sequences|];
      assert OwnershipInv(c') by { CreateSequenceOwnership(c, c', s); }
      assert ReservationsInv(c'.reservations, c'.sequences, c.tokensPerPage, c.nextReservationId) by {
        ReservationsFrame(c.reservations, c.sequences, c'.sequences, c.tokensPerPage, c.nextReservationId);
      }
      assert PrefixesInv(c'.prefixes, c'.sequences, c.tokensPerPage)
        && SequencesInv(c'.sequences, c'.prefixes, c.tokensPerPage) by {
        if prefixId == 0 {
          AttachNone(c.prefixes, c.sequences, s, c.tokensPerPage);
        } else {
          UniquePrefixes(c);
          AttachOne(c.prefixes, c.sequences, s, PrefixIndex(c.prefixes, prefixId), c.tokensPerPage);
        }
      }
    }
  }

  lemma CreateSequenceOwnership(c: Cache, c': Cache, s: Sequence)
    requires OwnershipInv(c) && s.suffixPages == [] && !HasSequence(c, s.id)
    requires c'.sequences == c.sequences + [s] && c'.pages == c.pages && c'.reservations == c.reservations
    requires PrefixHoldings(c'.prefixes) == PrefixHoldings(c.prefixes)
    ensures OwnershipInv(c')
  {
    var h := Holding(s.id, []);
    OwnedAdded(c.pages, MutableSequence, SequenceHoldings(c.sequences), h);
    assert SequenceHoldings(c'.sequences) == SequenceHoldings(c.sequences) + [h];
    assert Paint(c.pages, [], Page(MutableSequence, s.id)) == c.pages;
  }

  lemma AttachNone(ps: seq<Prefix>, ss: seq<Sequence>, s: Sequence, tpp: uint32)
    requires PrefixesInv(ps, ss, tpp) && SequencesInv(ss, ps, tpp)
    requires s == Sequence(s.id, 0, 0, 0, []) && s.id != 0 && tpp > 0
    ensures PrefixesInv(ps, ss + [s], tpp) && SequencesInv(ss + [s], ps, tpp)
  {
    forall j | 0 <= j < |ps| ensures PrefixInv(ps[j], ss + [s], tpp) {
      CarriersAppend(ss, s, ps[j].id);
    }
    NewSequence(s, ps, tpp);
  }

  lemma AttachOne(ps: seq<Prefix>, ss: seq<Sequence>, s: Sequence, i: nat, tpp: uint32)
    requires PrefixesInv(ps, ss, tpp) && SequencesInv(ss, ps, tpp) && i < |ps| && ps[i].attachments < U64_MAX
    requires forall j :: 0 <= j < |ps| && j != i ==> ps[j].id != ps[i].id
    requires s == Sequence(s.id, ps[i].id, ps[i].tokenCount, ps[i].tokenCount, []) && s.id != 0 && tpp > 0
    ensures var ps' := ps[i := ps[i].(attachments := ps[i].attachments + 1)];
      PrefixesInv(ps', ss + [s], tpp) && SequencesInv(ss + [s], ps', tpp)
  {
    AttachCount(ps, ss, s, i, tpp);
    assert PrefixInv(ps[i], ss, tpp);
    AttachSequence(ps, ss, s, i, tpp);
  }

  lemma AttachSequence(ps: seq<Prefix>, ss: seq<Sequence>, s: Sequence, i: nat, tpp: uint32)
    requires SequencesInv(ss, ps, tpp) && i < |ps| && ps[i].attachments < U64_MAX && ps[i].id != 0
    requires s == Sequence(s.id, ps[i].id, ps[i].tokenCount, ps[i].tokenCount, []) && s.id != 0 && tpp > 0
    ensures SequencesInv(ss + [s], ps[i := ps[i].(attachments := ps[i].attachments + 1)], tpp)
  {
    var ps' := ps[i := ps[i].(attachments := ps[i].attachments + 1)];
    SequencesAfterCount(ss, ps, i, ps[i].attachments + 1, tpp);
    NewSequence(s, ps', tpp);
    forall k | 0 <= k <= |ss| ensures SequenceInv((ss + [s])[k], ps', tpp) {
    }
  }

  lemma AttachCount(ps: seq<Prefix>, ss: seq<Sequence>, s: Sequence, i: nat, tpp: uint32)
    requires PrefixesInv(ps, ss, tpp) && i < |ps| && ps[i].attachments < U64_MAX && s.prefixId == ps[i].id
    requires forall j :: 0 <= j < |ps| && j != i ==> ps[j].id != ps[i].id
    ensures PrefixesInv(ps[i := ps[i].(attachments := ps[i].attachments + 1)], ss + [s], tpp)
  {
    var ps' := ps[i := ps[i].(attachments := ps[i].attachments + 1)];
    forall j | 0 <= j < |ps|
      ensures ps'[j].attachments - ps[j].attachments == Carriers(ss + [s], ps[j].id) - Carriers(ss, ps[j].id)
    {
      CarriersAppend(ss, s, ps[j].id);
    }
    PrefixesRecounted(ps, ps', ss, ss + [s], tpp);
  }

  /** A sequence that has just joined a published prefix, or none, needs no pages of its own. */
  lemma NewSequence(s: Sequence, ps: seq<Prefix>, tpp: uint32)
    requires tpp > 0 && s.id != 0 && s.prefixTokens == s.totalTokens && s.suffixPages == []
    requires if s.prefixId == 0 then s.prefixTokens == 0 else Published(ps, s.prefixId, s.prefixTokens)
    ensures SequenceInv(s, ps, tpp)
  {
    assert PagesFor(0, tpp) == 0;
  }

  lemma SequencesAfterCount(ss: seq<Sequence>, ps: seq<Prefix>, i: nat, attachments: uint64, tpp: uint32)
    requires SequencesInv(ss, ps, tpp) && i < |ps|
    ensures var ps' := ps[i := ps[i].(attachments := attachments)];
      SequencesInv(ss, ps', tpp) && Published(ps', ps[i].id, ps[i].tokenCount)
  {
    PublishedAfterCount(ps, i, attachments);
    SequencesFrame(ss, ps, ps[i := ps[i].(attachments := attachments)], tpp);
  }

  lemma DestroySequenceInv(c: Cache, sequenceId: uint64)
    requires Inv(c)
    ensures Inv(DestroySequence(c, sequenceId).0)
  {
    var (c', status) := DestroySequence(c, sequenceId);
    if status.Success? {
      var i := SequenceIndex(c.sequences, sequenceId);
      var s := c.sequences[i];
      assert OwnershipInv(c') by {
        SequenceReleased(c, i, FREE_PAGE);
        assert PrefixHoldings(c'.prefixes) == PrefixHoldings(c.prefixes);
      }
      assert ReservationsInv(c'.reservations, c'.sequences, c.tokensPerPage, c.nextReservationId) by {
        DestroyedHasNoReservation(c.reservations, c.sequences, i);
        ReservationsFrame(c.reservations, c.sequences, c'.sequences, c.tokensPerPage, c.nextReservationId);
      }
      assert PrefixesInv(c'.prefixes, c'.sequences, c.tokensPerPage)
        && SequencesInv(c'.sequences, c'.prefixes, c.tokensPerPage) by {
        if s.prefixId == 0 {
          DetachNone(c.prefixes, c.sequences, i, c.tokensPerPage);
        } else {
          UniquePrefixes(c);
          DetachOne(c.prefixes, c.sequences, i, PrefixIndex(c.prefixes, s.prefixId), c.tokensPerPage);
        }
      }
    }
  }

  lemma DestroyedHasNoReservation(rs: seq<Reservation>, ss: seq<Sequence>, i: nat)
    requires i < |ss| && PendingIndex(rs, ss[i].id) == |rs|
    ensures forall j :: 0 <= j < |ss| && PendingIndex(rs, ss[j].id) < |rs| ==> ss[j] in RemoveAt(ss, i)
  {
    forall j | 0 <= j < |ss| && PendingIndex(rs, ss[j].id) < |rs| ensures ss[j] in RemoveAt(ss, i) {
      assert j != i;
      assert RemoveAt(ss, i)[if j < i then j else j - 1] == ss[j];
    }
  }

  lemma SequenceReleased(c: Cache, i: nat, v: Page)
    requires OwnershipInv(c) && i < |c.sequences| && v == FREE_PAGE
    ensures OwnershipInv(c.(pages := Paint(c.pages, c.sequences[i].suffixPages, v),
                            sequences := RemoveAt(c.sequences, i)))
  {
    var s, hs := c.sequences[i], SequenceHoldings(c.sequences);
    TagsAgree(c);
    assert hs[i] == Holding(s.id, s.suffixPages);
    OwnedReleased(c.pages, MutableSequence, hs, i, v);
    assert SequenceHoldings(RemoveAt(c.sequences, i)) == RemoveAt(hs, i);
    OwnedElsewhere(c.pages, ImmutablePrefix, PrefixHoldings(c.prefixes), s.suffixPages, v);
    OwnedElsewhere(c.pages, Reserved, ReservationHoldings(c.reservations), s.suffixPages, v);
  }

  lemma DetachNone(ps: seq<Prefix>, ss: seq<Sequence>, i: nat, tpp: uint32)
    requires PrefixesInv(ps, ss, tpp) && SequencesInv(ss, ps, tpp) && i < |ss| && ss[i].prefixId == 0
    ensures PrefixesInv(ps, RemoveAt(ss, i), tpp) && SequencesInv(RemoveAt(ss, i), ps, tpp)
  {
    forall j | 0 <= j < |ps| ensures PrefixInv(ps[j], RemoveAt(ss, i), tpp) {
      CarriersRemove(ss, i, ps[j].id);
    }
  }

  lemma DetachOne(ps: seq<Prefix>, ss: seq<Sequence>, i: nat, j: nat, tpp: uint32)
    requires PrefixesInv(ps, ss, tpp) && SequencesInv(ss, ps, tpp) && i < |ss| && j < |ps|
    requires ss[i].prefixId == ps[j].id && ps[j].attachments > 0
    requires forall k :: 0 <= k < |ps| && k != j ==> ps[k].id != ps[j].id
    ensures var ps' := ps[j := ps[j].(attachments := ps[j].attachments - 1)];
      PrefixesInv(ps', RemoveAt(ss, i), tpp) && SequencesInv(RemoveAt(ss, i), ps', tpp)
  {
    var ps' := ps[j := ps[j].(attachments := ps[j].attachments - 1)];
    forall k | 0 <= k < |ps|
      ensures ps'[k].attachments - ps[k].attachments == Carriers(RemoveAt(ss, i), ps[k].id) - Carriers(ss, ps[k].id)
    {
      CarriersRemove(ss, i, ps[k].id);
    }
    PrefixesRecounted(ps, ps', ss, RemoveAt(ss, i), tpp);
    SequencesAfterCount(ss, ps, j, ps'[j].attachments, tpp);
  }

  /** The pages of a new reservation were free. */
  lemma ReserveOwnership(c: Cache, r: Reservation)
    requires OwnershipInv(c) && Distinct(r.pages)
    requires forall k :: 0 <= k < |r.pages| ==> r.pages[k] < |c.pages| && c.pages[r.pages[k]] == FREE_PAGE
    requires forall k :: 0 <= k < |c.reservations| ==> c.reservations[k].id != r.id
    ensures OwnershipInv(c.(pages := Paint(c.pages, r.pages, Page(Reserved, r.id)),
                            reservations := c.reservations + [r]))
  {
    hide Owned;
    var hr, v := ReservationHoldings(c.reservations), Page(Reserved, r.id);
    OwnedAdded(c.pages, Reserved, hr, Holding(r.id, r.pages));
    assert ReservationHoldings(c.reservations + [r]) == hr + [Holding(r.id, r.pages)];
    OwnedElsewhere(c.pages, ImmutablePrefix, PrefixHoldings(c.prefixes), r.pages, v);
    OwnedElsewhere(c.pages, MutableSequence, SequenceHoldings(c.sequences), r.pages, v);
  }

  lemma ReserveInv(c: Cache, sequenceId: uint64, targetTokens: uint32)
    requires Inv(c)
    requires HasSequence(c, sequenceId) ==>
      SequenceOf(c, sequenceId).prefixTokens <= SequenceOf(c, sequenceId).totalTokens
    ensures Inv(Reserve(c, sequenceId, targetTokens).0)
  {
    var (c', result) := Reserve(c, sequenceId, targetTokens);
    if result.Success? {
      var r := result.value;
      hide OwnershipInv, SequencesInv, PrefixesInv, ReservationsInv, PagesFor;
      SelectFreeFromStart(c.pages, NewPages(SequenceOf(c, sequenceId), targetTokens, c.tokensPerPage));
      FreshReservation(c, r);
      ReserveOwnership(c, r);
      assert Extends(r, SequenceOf(c, sequenceId), c.tokensPerPage);
      ReservationsExtended(c.reservations, c.sequences, r, c.tokensPerPage, c.nextReservationId, c'.nextReservationId);
    }
  }

  /** The counter's current value is not the id of any pending reservation. */
  lemma FreshReservation(c: Cache, r: Reservation)
    requires Inv(c) && r.id == c.nextReservationId && r.id != 0
    ensures forall k :: 0 <= k < |c.reservations| ==> c.reservations[k].id != r.id
  {
    forall k | 0 <= k < |c.reservations| ensures c.reservations[k].id != r.id {
      assert ReservationInv(c.reservations[k], c.sequences, c.tokensPerPage, c.nextReservationId);
    }
  }

  lemma ReservationsExtended(rs: seq<Reservation>, ss: seq<Sequence>, r: Reservation, tpp: uint32, next: uint64,
                             next': uint64)
    requires ReservationsInv(rs, ss, tpp, next) && PendingIndex(rs, r.sequenceId) == |rs|
    requires r.id == next && next != 0 && next' == (if next == U64_MAX then 0 else next + 1)
    requires exists i :: 0 <= i < |ss| && Extends(r, ss[i], tpp)
    ensures ReservationsInv(rs + [r], ss, tpp, next')
  {
    forall k | 0 <= k <= |rs| ensures ReservationInv((rs + [r])[k], ss, tpp, next') {
      if k < |rs| { assert ReservationInv(rs[k], ss, tpp, next); }
    }
  }

  /** The pages go back, and the other reservations keep theirs. */
  lemma RollbackOwnership(c: Cache, k: nat)
    requires OwnershipInv(c) && k < |c.reservations|
    ensures OwnershipInv(c.(pages := Paint(c.pages, c.reservations[k].pages, FREE_PAGE),
                            reservations := RemoveAt(c.reservations, k)))
  {
    hide Owned;
    var r, hr := c.reservations[k], ReservationHoldings(c.reservations);
    assert hr[k] == Holding(r.id, r.pages);
    OwnedTagged(c.pages, Reserved, hr, k);
    OwnedReleased(c.pages, Reserved, hr, k, FREE_PAGE);
    assert ReservationHoldings(RemoveAt(c.reservations, k)) == RemoveAt(hr, k);
    OwnedElsewhere(c.pages, ImmutablePrefix, PrefixHoldings(c.prefixes), r.pages, FREE_PAGE);
    OwnedElsewhere(c.pages, MutableSequence, SequenceHoldings(c.sequences), r.pages, FREE_PAGE);
  }

  lemma OwnedTagged(pages: seq<Page>, st: PageState, hs: seq<Holding>, k: nat)
    requires Owned(pages, st, hs) && k < |hs|
    ensures AllTagged(pages, hs[k].pages, Page(st, hs[k].id))
  {
  }

  lemma ReservationsWithout(rs: seq<Reservation>, ss: seq<Sequence>, tpp: uint32, next: uint64, k: nat)
    requires ReservationsInv(rs, ss, tpp, next) && k < |rs|
    ensures ReservationsInv(RemoveAt(rs, k), ss, tpp, next)
  {
  }

  lemma RollbackInv(c: Cache, reservationId: uint64)
    requires Inv(c)
    ensures Inv(Rollback(c, reservationId).0)
  {
    if Rollback(c, reservationId).1.Success? {
      var k := ReservationIndex(c.reservations, reservationId);
      hide OwnershipInv, SequencesInv, PrefixesInv, ReservationsInv, AllTagged;
      RollbackOwnership(c, k);
      ReservationsWithout(c.reservations, c.sequences, c.tokensPerPage, c.nextReservationId, k);
    }
  }

  lemma CommitInv(c: Cache, reservationId: uint64)
    requires Inv(c)
    ensures Inv(Commit(c, reservationId).0)
  {
    var (c', status) := Commit(c, reservationId);
    if status.Success? {
      var k := ReservationIndex(c.reservations, reservationId);
      var r := c.reservations[k];
      var i := SequenceIndex(c.sequences, r.sequenceId);
      var s := c.sequences[i];
      assert OwnershipInv(c') by { CommitOwnership(c, k, i, r.targetTokens); }
      assert PrefixesInv(c'.prefixes, c'.sequences, c.tokensPerPage)
        && SequencesInv(c'.sequences, c'.prefixes, c.tokensPerPage) by {
        ReservedSequence(c, k);
        PagesForMonotone(s.totalTokens - s.prefixTokens, r.targetTokens - s.prefixTokens, c.tokensPerPage);
        SequenceGrown(c.prefixes, c.sequences, i, c'.sequences[i], c.tokensPerPage);
      }
      assert ReservationsInv(c'.reservations, c'.sequences, c.tokensPerPage, c.nextReservationId) by {
        UniqueSequences(c);
        CommittedReservations(c.reservations, c.sequences, k, i, c'.sequences[i], c.tokensPerPage, c.nextReservationId);
      }
    }
  }

  lemma CommittedReservations(rs: seq<Reservation>, ss: seq<Sequence>, k: nat, i: nat, s': Sequence, tpp: uint32,
                              next: uint64)
    requires ReservationsInv(rs, ss, tpp, next) && k < |rs| && i < |ss| && ss[i].id == rs[k].sequenceId
    ensures ReservationsInv(RemoveAt(rs, k), ss[i := s'], tpp, next)
  {
    var rs' := RemoveAt(rs, k);
    forall j | 0 <= j < |rs'| ensures ReservationInv(rs'[j], ss[i := s'], tpp, next) {
      var j0 := if j < k then j else j + 1;
      assert rs'[j] == rs[j0];
      var m :| 0 <= m < |ss| && Extends(rs[j0], ss[m], tpp);
      assert ss[i := s'][m] == ss[m];
    }
  }

  lemma {:induction false} PagesForMonotone(a: nat, b: nat, tpp: nat)
    requires tpp > 0 && a <= b
    ensures PagesFor(a, tpp) <= PagesFor(b, tpp)
    decreases a
  {
    if a > tpp {
      PagesForMonotone(a - tpp, b - tpp, tpp);
    } else if a > 0 {
      assert PagesFor(b, tpp) >= 1;
    }
  }

  lemma SequenceGrown(ps: seq<Prefix>, ss: seq<Sequence>, i: nat, s': Sequence, tpp: uint32)
    requires PrefixesInv(ps, ss, tpp) && SequencesInv(ss, ps, tpp) && i < |ss|
    requires SequenceInv(s', ps, tpp) && s'.prefixId == ss[i].prefixId
    ensures PrefixesInv(ps, ss[i := s'], tpp) && SequencesInv(ss[i := s'], ps, tpp)
  {
    forall j | 0 <= j < |ps| ensures PrefixInv(ps[j], ss[i := s'], tpp) {
      CarriersUpdate(ss, i, s', ps[j].id);
    }
  }

  lemma CommitOwnership(c: Cache, k: nat, i: nat, tokens: uint32)
    requires OwnershipInv(c) && k < |c.reservations| && i < |c.sequences|
    ensures var r, s := c.reservations[k], c.sequences[i];
      OwnershipInv(c.(
        pages := Paint(c.pages, r.pages, Page(MutableSequence, s.id)),
        sequences := c.sequences[i := s.(suffixPages := s.suffixPages + r.pages, totalTokens := tokens)],
        reservations := RemoveAt(c.reservations, k)))
  {
    var r, s := c.reservations[k], c.sequences[i];
    var hr, hs := ReservationHoldings(c.reservations), SequenceHoldings(c.sequences);
    var v := Page(MutableSequence, s.id);
    TagsAgree(c);
    assert hr[k] == Holding(r.id, r.pages) && hs[i] == Holding(s.id, s.suffixPages);
    OwnedReleased(c.pages, Reserved, hr, k, v);
    assert ReservationHoldings(RemoveAt(c.reservations, k)) == RemoveAt(hr, k);
    OwnedExtended(c.pages, MutableSequence, hs, i, r.pages);
    OwnedElsewhere(c.pages, ImmutablePrefix, PrefixHoldings(c.prefixes), r.pages, v);
    assert SequenceHoldings(c.sequences[i := s.(suffixPages := s.suffixPages + r.pages, totalTokens := tokens)])
        == hs[i := Holding(s.id, s.suffixPages + r.pages)];
  }

  lemma PublishPrefixInv(c: Cache, prefixId: uint64, sequenceId: uint64)
    requires Inv(c)
    ensures Inv(PublishPrefix(c, prefixId, sequenceId).0)
  {
    var (c', status) := PublishPrefix(c, prefixId, sequenceId);
    if status.Success? {
      var i := SequenceIndex(c.sequences, sequenceId);
      PublishOwnership(c, i, prefixId);
      UniqueSequences(c);
      forall j | 0 <= j < |c.sequences| && PendingIndex(c.reservations, c.sequences[j].id) < |c.reservations|
        ensures c.sequences[j] in c'.sequences
      {
        assert j != i;
        assert c'.sequences[j] == c.sequences[j];
      }
      ReservationsFrame(c.reservations, c.sequences, c'.sequences, c.tokensPerPage, c.nextReservationId);
      PublishLists(c.prefixes, c.sequences, i, prefixId, c.tokensPerPage);
    }
  }

  lemma PublishOwnership(c: Cache, i: nat, prefixId: uint64)
    requires OwnershipInv(c) && i < |c.sequences| && !HasPrefix(c, prefixId)
    ensures var s := c.sequences[i];
      OwnershipInv(c.(
        pages := Paint(c.pages, s.suffixPages, Page(ImmutablePrefix, prefixId)),
        sequences := c.sequences[i := s.(prefixId := prefixId, prefixTokens := s.totalTokens, suffixPages := [])],
        prefixes := c.prefixes + [Prefix(prefixId, s.totalTokens, 1, s.suffixPages)]))
  {
    var s := c.sequences[i];
    var hs, hp := SequenceHoldings(c.sequences), PrefixHoldings(c.prefixes);
    var v := Page(ImmutablePrefix, prefixId);
    TagsAgree(c);
    assert hs[i] == Holding(s.id, s.suffixPages);
    OwnedEmptied(c.pages, MutableSequence, hs, i, v);
    var s' := s.(prefixId := prefixId, prefixTokens := s.totalTokens, suffixPages := []);
    assert SequenceHoldings(c.sequences[i := s']) == hs[i := Holding(s.id, [])];
    OwnedAdded(c.pages, ImmutablePrefix, hp, Holding(prefixId, s.suffixPages));
    assert PrefixHoldings(c.prefixes + [Prefix(prefixId, s.totalTokens, 1, s.suffixPages)])
        == hp + [Holding(prefixId, s.suffixPages)];
    OwnedElsewhere(c.pages, Reserved, ReservationHoldings(c.reservations), s.suffixPages, v);
  }

  lemma PublishLists(ps: seq<Prefix>, ss: seq<Sequence>, i: nat, prefixId: uint64, tpp: uint32)
    requires PrefixesInv(ps, ss, tpp) && SequencesInv(ss, ps, tpp) && i < |ss| && tpp > 0
    requires prefixId != 0 && PrefixIndex(ps, prefixId) == |ps|
    requires ss[i].prefixId == 0 && ss[i].totalTokens > 0
    ensures var s := ss[i];
      var s' := s.(prefixId := prefixId, prefixTokens := s.totalTokens, suffixPages := []);
      var ps' := ps + [Prefix(prefixId, s.totalTokens, 1, s.suffixPages)];
      PrefixesInv(ps', ss[i := s'], tpp) && SequencesInv(ss[i := s'], ps', tpp)
  {
    var s := ss[i];
    var s' := s.(prefixId := prefixId, prefixTokens := s.totalTokens, suffixPages := []);
    var p := Prefix(prefixId, s.totalTokens, 1, s.suffixPages);
    var ps' := ps + [p];
    assert PrefixesInv(ps', ss[i := s'], tpp) by {
      NobodyCarries(ps, ss, prefixId, tpp);
      CarriersUpdate(ss, i, s', prefixId);
      assert SequenceInv(s, ps, tpp);
      assert PrefixInv(p, ss[i := s'], tpp);
      forall j | 0 <= j < |ps| ensures PrefixInv(ps[j], ss[i := s'], tpp) {
        assert PrefixInv(ps[j], ss, tpp);
        CarriersUpdate(ss, i, s', ps[j].id);
      }
    }
    assert SequencesInv(ss[i := s'], ps', tpp) by {
      PublishedAppended(ps, p);
      SequencesFrame(ss, ps, ps', tpp);
      assert SequenceInv(s, ps, tpp);
      NewSequence(s', ps', tpp);
    }
  }

  lemma PublishedAppended(ps: seq<Prefix>, p: Prefix)
    ensures Published(ps + [p], p.id, p.tokenCount)
    ensures forall j :: 0 <= j < |ps| ==> Published(ps + [p], ps[j].id, ps[j].tokenCount)
  {
    assert (ps + [p])[|ps|] == p;
    forall j | 0 <= j < |ps| ensures Published(ps + [p], ps[j].id, ps[j].tokenCount) {
      assert (ps + [p])[j] == ps[j];
    }
  }

  lemma NobodyCarries(ps: seq<Prefix>, ss: seq<Sequence>, prefixId: uint64, tpp: uint32)
    requires SequencesInv(ss, ps, tpp) && prefixId != 0 && PrefixIndex(ps, prefixId) == |ps|
    ensures Carriers(ss, prefixId) == 0
  {
    forall i | 0 <= i < |ss| ensures ss[i].prefixId != prefixId {
      assert SequenceInv(ss[i], ps, tpp);
    }
    CarriersNone(ss, prefixId);
  }

  lemma {:induction false} DestroyPrefixInv(c: Cache, prefixId: uint64)
    requires Inv(c)
    ensures Inv(DestroyPrefix(c, prefixId).0)
  {
    if DestroyPrefix(c, prefixId).1.Success? {
      var j := PrefixIndex(c.prefixes, prefixId);
      hide OwnershipInv, SequencesInv, PrefixesInv, ReservationsInv, AllTagged, Paint, RemoveAt;
      PrefixReleased(c, j);
      PrefixDropped(c, j);
    }
  }

  lemma PrefixReleased(c: Cache, j: nat)
    requires OwnershipInv(c) && j < |c.prefixes|
    ensures OwnershipInv(c.(pages := Paint(c.pages, c.prefixes[j].pages, FREE_PAGE),
                            prefixes := RemoveAt(c.prefixes, j)))
  {
    var p, hp := c.prefixes[j], PrefixHoldings(c.prefixes);
    TagsAgree(c);
    hide Owned;
    assert hp[j] == Holding(p.id, p.pages);
    OwnedReleased(c.pages, ImmutablePrefix, hp, j, FREE_PAGE);
    assert PrefixHoldings(RemoveAt(c.prefixes, j)) == RemoveAt(hp, j);
    OwnedElsewhere(c.pages, MutableSequence, SequenceHoldings(c.sequences), p.pages, FREE_PAGE);
    OwnedElsewhere(c.pages, Reserved, ReservationHoldings(c.reservations), p.pages, FREE_PAGE);
  }

  /** Nobody looks at a prefix that nobody carries. */
  lemma PrefixDropped(c: Cache, j: nat)
    requires Inv(c) && j < |c.prefixes| && c.prefixes[j].attachments == 0
    ensures SequencesInv(c.sequences, RemoveAt(c.prefixes, j), c.tokensPerPage)
    ensures PrefixesInv(RemoveAt(c.prefixes, j), c.sequences, c.tokensPerPage)
  {
    var ps, ps' := c.prefixes, RemoveAt(c.prefixes, j);
    CarriersNone(c.sequences, ps[j].id);
    assert PrefixInv(ps[j], c.sequences, c.tokensPerPage);
    forall i, k | 0 <= i < |c.sequences| && 0 <= k < |ps| && c.sequences[i].prefixId == ps[k].id
      ensures Published(ps', ps[k].id, ps[k].tokenCount)
    {
      assert k != j;
      assert ps'[if k < j then k else k - 1] == ps[k];
    }
    SequencesFrame(c.sequences, ps, ps', c.tokensPerPage);
  }
}
